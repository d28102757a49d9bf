/** The Python engine's log: records without a length, skipped or applied by sequence number. */
module PythonWal {
  import opened Bytes
  import opened Options
  import opened Store
  import W = SegmentWal
  import opened SegmentReplay

  const HEAD: nat := 21
  const FRAME: nat := 25

  /** A value is the eight bytes that stand for it, in the map as in the log; a delete carries zero. */
  predicate Storable(op: Operation) {
    |op.key| < 0x1_0000_0000 && |op.value| == 8 && (op.kind == Delete ==> op.value == Put64(0))
  }

  function Payload(r: W.Record): Bytes {
    Put64(r.sequence) + [Tag(r.op.kind)] + Put32(|r.op.key|) + r.op.value + r.op.key
  }

  /** One record of the log. */
  function Print(crc: Crc, r: W.Record): Bytes {
    Payload(r) + Put32(crc.Of(Payload(r)))
  }

  function PrintAll(crc: Crc, rs: seq<W.Record>): Bytes {
    if rs == [] then [] else Print(crc, rs[0]) + PrintAll(crc, rs[1..])
  }

  /** What the reader finds at the front of the rest of a file; the operation byte is not looked at yet. */
  datatype Probe = End | Torn | CrcFailure | Found(sequence: u64, tag: byte, key: Bytes, value: Bytes)

  function Look(crc: Crc, s: Bytes): (p: Probe)
    ensures p.Found? ==> FRAME + |p.key| <= |s|
  {
    if s == [] then End
    else if |s| < HEAD || |s| < FRAME + Be32(s, 9) then Torn
    else
      var n := HEAD + Be32(s, 9);
      if Be32(s, n) != crc.Of(s[..n]) then CrcFailure
      else Found(Be64(s, 0), s[8], s[HEAD..n], s[13..HEAD])
  }

  datatype LoadError =
    | BadCrc | Gap | UnknownOp
    | SnapshotCrc | SnapshotVersion | SnapshotEntry | SnapshotTrailing | SnapshotFormat

  /** What one record does: nothing when it is covered, else it must be the next one. */
  function Take(c: Cursor, p: Probe): Result<Cursor, LoadError>
    requires p.Found?
  {
    if p.sequence <= c.sequence then Success(c)
    else if p.sequence != c.expected then Failure(Gap)
    else if p.tag == 1 then Success(Cursor(c.values[p.key := p.value], p.sequence, Succ(c.expected)))
    else if p.tag == 2 then Success(Cursor(c.values - {p.key}, p.sequence, Succ(c.expected)))
    else Failure(UnknownOp)
  }

  /** Loads one file; a torn record ends it without an error. */
  function LoadFile(crc: Crc, c: Cursor, s: Bytes): Result<Cursor, LoadError>
    decreases |s|
  {
    var p := Look(crc, s);
    match p
    case End => Success(c)
    case Torn => Success(c)
    case CrcFailure => Failure(BadCrc)
    case Found(_, _, key, _) =>
      match Take(c, p)
      case Failure(e) => Failure(e)
      case Success(c') => LoadFile(crc, c', s[FRAME + |key|..])
  }

  function LoadFiles(crc: Crc, c: Cursor, fs: seq<Bytes>): Result<Cursor, LoadError>
    decreases |fs|
  {
    if fs == [] then Success(c)
    else match LoadFile(crc, c, fs[0])
      case Failure(e) => Failure(e)
      case Success(c') => LoadFiles(crc, c', fs[1..])
  }

  // ------------------------------------------------------------------ the loops

  /** Prints one record. */
  method Encode(crc: Crc, sequence: u64, kind: OpType, key: Bytes, value: Bytes) returns (b: Bytes)
    ensures b == Print(crc, W.Record(sequence, Operation(kind, key, value)))
  {
    var payload := Put64(sequence) + [Tag(kind)] + Put32(|key|) + value;
    payload := payload + key;
    b := payload + Put32(crc.Of(payload));
  }

  /** Reads records one by one, as the iteration and the loop over it do. */
  method ReplayFile(crc: Crc, start: Cursor, file: Bytes) returns (r: Result<Cursor, LoadError>)
    ensures r == LoadFile(crc, start, file)
  {
    var c, pos := start, 0;
    assert file[0..] == file;
    while true
      invariant pos <= |file|
      invariant LoadFile(crc, start, file) == LoadFile(crc, c, file[pos..])
      decreases |file| - pos
    {
      var header := if pos + HEAD <= |file| then file[pos..pos + HEAD] else file[pos..];
      if header == [] || |header| < HEAD { return Success(c); }
      var rest := file[pos..];
      assert header == rest[..HEAD];
      assert rest[9..13] == header[9..13];
      var keyLen: nat := Be32(header, 9);
      assert Be32(rest, 9) == keyLen;
      if |rest| - HEAD < keyLen + 4 { return Success(c); }
      var p := Look(crc, rest);
      if p.CrcFailure? { return Failure(BadCrc); }
      var t := Take(c, p);
      if t.Failure? { return Failure(t.error); }
      assert rest[FRAME + |p.key|..] == file[pos + FRAME + |p.key|..];
      c, pos := t.value, pos + FRAME + |p.key|;
    }
  }

  // ------------------------------------------------------------------ printing and reading

  lemma PrintLength(crc: Crc, r: W.Record)
    requires Storable(r.op)
    ensures |Print(crc, r)| == FRAME + |r.op.key|
  {
    hide Put32, Put64, Crc.Of;
  }

  /** The printed record, field by field. */
  lemma PrintFields(crc: Crc, r: W.Record)
    requires Storable(r.op)
    ensures var b, n := Print(crc, r), HEAD + |r.op.key|;
      && |b| == n + 4 && b[0..8] == Put64(r.sequence)
      && b[8] == Tag(r.op.kind) == (if r.op.kind == OpType.Put then 1 else 2) && b[9..13] == Put32(|r.op.key|)
      && b[13..HEAD] == r.op.value && b[HEAD..n] == r.op.key
      && b[..n] == Payload(r) && b[n..] == Put32(crc.Of(Payload(r)))
  {
    hide Put32, Put64, Crc.Of;
  }

  /** A printed record is found, whatever follows it. */
  lemma PrintedFound(crc: Crc, r: W.Record, rest: Bytes)
    requires Storable(r.op)
    ensures Look(crc, Print(crc, r) + rest) == Found(r.sequence, Tag(r.op.kind), r.op.key, r.op.value)
    ensures (Print(crc, r) + rest)[FRAME + |r.op.key|..] == rest
  {
    hide Print, Payload, Be32, Be64, Crc.Of;
    PrintFields(crc, r);
    var b, n := Print(crc, r), HEAD + |r.op.key|;
    var s := b + rest;
    assert s[0..8] == b[0..8] && s[9..13] == b[9..13] && s[13..HEAD] == b[13..HEAD] && s[HEAD..n] == b[HEAD..n];
    assert s[..n] == b[..n] && s[n..n + 4] == b[n..];
    Be64At(s, 0, r.sequence);
    Be32At(s, 9, |r.op.key|);
    Be32At(s, n, crc.Of(Payload(r)));
  }

  /** Any proper part of a record, cut at its end, is torn. */
  lemma PartTorn(crc: Crc, r: W.Record, n: nat)
    requires Storable(r.op) && 0 < n < |Print(crc, r)|
    ensures Look(crc, Print(crc, r)[..n]) == Torn
  {
    hide Print, Payload, Be32, Crc.Of;
    PrintFields(crc, r);
    var b := Print(crc, r);
    if n >= HEAD {
      assert b[..n][9..13] == b[9..13];
      Be32At(b[..n], 9, |r.op.key|);
    }
  }

  /** The reader finds exactly what was printed: the format is canonical. */
  lemma FoundIff(crc: Crc, s: Bytes, r: W.Record)
    requires Storable(r.op)
    ensures Look(crc, s) == Found(r.sequence, Tag(r.op.kind), r.op.key, r.op.value) <==>
      |Print(crc, r)| <= |s| && s[..|Print(crc, r)|] == Print(crc, r)
  {
    hide Be32, Be64, Crc.Of, Print, Payload;
    var b, n := Print(crc, r), HEAD + |r.op.key|;
    PrintFields(crc, r);
    if |s| >= |b| && s[..|b|] == b {
      assert s == b + s[|b|..];
      PrintedFound(crc, r, s[|b|..]);
    }
    if Look(crc, s) == Found(r.sequence, Tag(r.op.kind), r.op.key, r.op.value) {
      Be64At(s, 0, r.sequence);
      Be32At(s, 9, |r.op.key|);
      PayloadIs(s, r);
      Be32At(s, n, crc.Of(s[..n]));
      assert s[..n + 4] == s[..n] + s[n..n + 4];
      assert b == b[..n] + b[n..];
    }
  }

  /** The reader finds a torn end exactly when there are fewer bytes than the record they begin would have. */
  lemma TornIff(crc: Crc, s: Bytes)
    ensures Look(crc, s) == Torn <==> s != [] && (|s| < 21 || |s| < 25 + Be32(s, 9))
    ensures Look(crc, s) == End <==> s == []
  {
    hide Be32, Be64, Crc.Of;
  }

  /** A whole record with any four bytes in the place of its checksum is refused exactly when they are not it. */
  lemma CrcFailureIff(crc: Crc, r: W.Record, sum: Bytes, rest: Bytes)
    requires Storable(r.op) && |sum| == 4
    ensures Look(crc, Payload(r) + sum + rest) == CrcFailure <==> sum != Put32(crc.Of(Payload(r)))
  {
    hide Payload, Be32, Be64, Put32, Crc.Of;
    PrintFields(crc, r);
    PrintLength(crc, r);
    var b, n, s := Print(crc, r), HEAD + |r.op.key|, Payload(r) + sum + rest;
    assert |Payload(r)| == n && b[..n] == Payload(r) by { PayloadPart(crc, r); }
    assert s[9..13] == b[9..13] && s[n..n + 4] == sum && s[..n] == Payload(r);
    Be32At(s, 9, |r.op.key|);
    Be32At(s, n, crc.Of(Payload(r)));
  }

  lemma PayloadPart(crc: Crc, r: W.Record)
    requires Storable(r.op)
    ensures |Payload(r)| == HEAD + |r.op.key| && Print(crc, r)[..HEAD + |r.op.key|] == Payload(r)
  {
    hide Put32, Put64, Crc.Of;
  }

  /** Whatever the bytes, a checksum failure is a whole record whose stored sum is not that of the rest of it. */
  lemma CrcFailureMeans(crc: Crc, s: Bytes)
    ensures Look(crc, s) == CrcFailure <==>
      |s| >= 21 && |s| >= 25 + Be32(s, 9) && Be32(s, 21 + Be32(s, 9)) != crc.Of(s[..21 + Be32(s, 9)])
  {
    hide Be32, Be64, Crc.Of;
  }

  /** Printed records followed by one with a wrong checksum do not load, however much follows. */
  lemma CorruptLoad(crc: Crc, c: Cursor, rs: seq<W.Record>, r: W.Record, sum: Bytes, rest: Bytes)
    requires AllStorable(rs) && Storable(r.op) && |sum| == 4 && sum != Put32(crc.Of(Payload(r)))
    ensures LoadFile(crc, c, PrintAll(crc, rs) + (Payload(r) + sum + rest)) ==
      Failure(if AcceptAll(c, rs).Some? then BadCrc else Gap)
  {
    hide Payload, PrintAll, Look, AcceptAll, Put32, Crc.Of;
    CrcFailureIff(crc, r, sum, rest);
    LoadPrinted(crc, c, rs, Payload(r) + sum + rest);
  }

  /** The next record is refused when its operation byte is neither 1 nor 2, though its checksum is right. */
  lemma UnknownLoad(crc: Crc, c: Cursor, sequence: u64, tag: byte, key: Bytes, value: Bytes, rest: Bytes)
    requires |key| < 0x1_0000_0000 && |value| == 8 && tag != 1 && tag != 2
    requires c.sequence < sequence == c.expected
    ensures var body := Put64(sequence) + [tag] + Put32(|key|) + value + key;
      LoadFile(crc, c, body + Put32(crc.Of(body)) + rest) == Failure(UnknownOp)
  {
    hide Be32, Be64, Put32, Put64, Crc.Of;
    var body, n := Put64(sequence) + [tag] + Put32(|key|) + value + key, HEAD + |key|;
    var s := body + Put32(crc.Of(body)) + rest;
    assert s[..n] == body && s[n..n + 4] == Put32(crc.Of(body));
    assert s[0..8] == Put64(sequence) && s[9..13] == Put32(|key|) && s[8] == tag;
    Be64At(s, 0, sequence);
    Be32At(s, 9, |key|);
    Be32At(s, n, crc.Of(body));
  }

  /** With a checksum like CRC-32, a record with one byte changed outside its length field is found corrupt. */
  lemma DamagedRecord(crc: Crc, r: W.Record, rest: Bytes, i: nat, b: byte)
    requires crc.Sharp() && Storable(r.op) && i < |Print(crc, r)| && !(9 <= i < 13) && Print(crc, r)[i] != b
    ensures Look(crc, Print(crc, r)[i := b] + rest) == CrcFailure
  {
    hide Print, Payload, Be32, Be64, Put32, Crc.Of, Crc.Sharp;
    PrintFields(crc, r);
    var f, n := Print(crc, r), HEAD + |r.op.key|;
    var s := f[i := b] + rest;
    assert s[9..13] == f[9..13];
    Be32At(s, 9, |r.op.key|);
    assert s[..n] == f[i := b][..n] && s[n..n + 4] == f[i := b][n..];
    ChangedSum(crc, f, n, i, b);
    Be32At(s, n, crc.Of(s[..n]));
  }

  lemma PayloadIs(s: Bytes, r: W.Record)
    requires |s| >= HEAD + |r.op.key| && |r.op.value| == 8
    requires s[0..8] == Put64(r.sequence) && s[8] == Tag(r.op.kind) && s[9..13] == Put32(|r.op.key|)
    requires s[13..HEAD] == r.op.value && s[HEAD..HEAD + |r.op.key|] == r.op.key
    ensures s[..HEAD + |r.op.key|] == Payload(r)
  {
    hide Put32, Put64;
    var n := HEAD + |r.op.key|;
    assert s[..n] == s[0..8] + [s[8]] + s[9..13] + s[13..HEAD] + s[HEAD..n];
  }

  lemma TakeIsAccept(c: Cursor, r: W.Record)
    ensures var t := Take(c, Found(r.sequence, Tag(r.op.kind), r.op.key, r.op.value));
      && (t.Success? <==> Accept(c, r).Some?) && (t.Success? ==> t.value == Accept(c, r).value)
      && (t.Failure? ==> t.error == Gap)
  {
  }

  ghost predicate AllStorable(rs: seq<W.Record>) {
    forall i :: 0 <= i < |rs| ==> Storable(rs[i].op)
  }

  lemma LoadOne(crc: Crc, c: Cursor, r: W.Record, rest: Bytes)
    requires Storable(r.op)
    ensures LoadFile(crc, c, Print(crc, r) + rest) ==
      if Accept(c, r).Some? then LoadFile(crc, Accept(c, r).value, rest) else Failure(Gap)
  {
    hide Print, Look, Take, Accept;
    PrintedFound(crc, r, rest);
    TakeIsAccept(c, r);
  }

  /** Printed records load one after the other, or stop at the first one that leaves a gap. */
  lemma {:induction false} LoadPrinted(crc: Crc, c: Cursor, rs: seq<W.Record>, rest: Bytes)
    requires AllStorable(rs)
    ensures LoadFile(crc, c, PrintAll(crc, rs) + rest) ==
      if AcceptAll(c, rs).Some? then LoadFile(crc, AcceptAll(c, rs).value, rest) else Failure(Gap)
    decreases |rs|
  {
    hide Print, LoadFile, Accept, Storable;
    if rs == [] {
      assert PrintAll(crc, rs) + rest == rest;
    } else {
      var t := PrintAll(crc, rs[1..]) + rest;
      assert PrintAll(crc, rs) + rest == Print(crc, rs[0]) + t;
      LoadOne(crc, c, rs[0], t);
      if Accept(c, rs[0]).Some? { LoadPrinted(crc, Accept(c, rs[0]).value, rs[1..], rest); }
    }
  }

  lemma {:induction false} PrintAllConcat(crc: Crc, a: seq<W.Record>, b: seq<W.Record>)
    ensures PrintAll(crc, a + b) == PrintAll(crc, a) + PrintAll(crc, b)
    decreases |a|
  {
    hide Print;
    if a == [] {
      assert a + b == b;
    } else {
      PrintAllConcat(crc, a[1..], b);
      assert (a + b)[1..] == a[1..] + b;
    }
  }

  // ------------------------------------------------------------------ truncation

  /** The number of records that lie wholly before the cut. */
  function Whole(crc: Crc, rs: seq<W.Record>, cut: nat): (k: nat)
    ensures k <= |rs|
  {
    if rs == [] || |Print(crc, rs[0])| > cut then 0
    else 1 + Whole(crc, rs[1..], cut - |Print(crc, rs[0])|)
  }

  /** A cut of printed records loads as the records that lie wholly before it. */
  lemma {:induction false} LoadCut(crc: Crc, c: Cursor, rs: seq<W.Record>, cut: nat)
    requires AllStorable(rs) && cut <= |PrintAll(crc, rs)|
    ensures LoadFile(crc, c, PrintAll(crc, rs)[..cut]) ==
      var k := Whole(crc, rs, cut);
      if AcceptAll(c, rs[..k]).Some? then Success(AcceptAll(c, rs[..k]).value) else Failure(Gap)
    decreases |rs|
  {
    hide Print, Accept, Storable;
    if cut == 0 {
      if rs != [] { PrintLength(crc, rs[0]); }
      assert rs[..0] == [] && PrintAll(crc, rs)[..0] == [];
    } else if |Print(crc, rs[0])| > cut {
      assert PrintAll(crc, rs)[..cut] == Print(crc, rs[0])[..cut];
      PartTorn(crc, rs[0], cut);
      assert rs[..0] == [];
    } else {
      hide LoadFile, Look;
      var n := |Print(crc, rs[0])|;
      var rest := PrintAll(crc, rs[1..])[..cut - n];
      assert PrintAll(crc, rs)[..cut] == Print(crc, rs[0]) + rest;
      LoadOne(crc, c, rs[0], rest);
      var k := Whole(crc, rs, cut);
      assert rs[..k][0] == rs[0] && rs[..k][1..] == rs[1..][..k - 1];
      if Accept(c, rs[0]).Some? { LoadCut(crc, Accept(c, rs[0]).value, rs[1..], cut - n); }
    }
  }

  /** Every prefix of the records that fits before the cut is kept. */
  lemma {:induction false} WholeAtLeast(crc: Crc, rs: seq<W.Record>, cut: nat, d: nat)
    requires d <= |rs| && |PrintAll(crc, rs[..d])| <= cut
    ensures d <= Whole(crc, rs, cut)
    decreases |rs|
  {
    hide Print;
    if d > 0 {
      assert rs[..d][0] == rs[0] && rs[..d][1..] == rs[1..][..d - 1];
      WholeAtLeast(crc, rs[1..], cut - |Print(crc, rs[0])|, d - 1);
    }
  }
}
