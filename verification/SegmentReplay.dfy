/** Replaying BDW3 segments into the map: which records count, and what a cut segment yields. */
module SegmentReplay {
  import opened Bytes
  import opened KeyOrder
  import opened Options
  import opened Store
  import opened SegmentWal

  /** The map so far, the last sequence applied, and the sequence the next new record must have. */
  datatype Cursor = Cursor(values: Map, sequence: u64, expected: u64)

  /** A record at or below the last sequence is skipped; a newer one must be the expected one. */
  function Accept(c: Cursor, r: Record): Option<Cursor> {
    if r.sequence <= c.sequence then Some(c)
    else if r.sequence != c.expected then None
    else Some(Cursor(ApplyOne(c.values, r.op), r.sequence, Succ(c.expected)))
  }

  datatype Read = Read(cursor: Cursor, used: nat, torn: bool, error: Option<ReadError>)

  /** Reads records from the front until the end, a torn tail or a corrupt record. */
  function ReadAll(reader: Reader, crc: Crc, c: Cursor, s: Bytes): (r: Read)
    ensures r.used <= |s|
    decreases |s|
  {
    if s == [] then Read(c, 0, false, None)
    else match ReadRecord(reader, crc, s)
      case Torn => Read(c, 0, true, None)
      case Bad(e) => Read(c, 0, false, Some(e))
      case Good(rec, n) =>
        match Accept(c, rec)
        case None => Read(c, 0, false, Some(SequenceGap))
        case Some(c') =>
          var r := ReadAll(reader, crc, c', s[n..]);
          r.(used := n + r.used)
  }

  /** Both readers come to the same end of a segment, except for the name of an error. */
  lemma {:induction false} ReadAllAgree(crc: Crc, c: Cursor, s: Bytes)
    ensures var e, m := ReadAll(Engine, crc, c, s), ReadAll(Migration, crc, c, s);
      e.cursor == m.cursor && e.used == m.used && e.torn == m.torn && (e.error == None <==> m.error == None)
    decreases |s|
  {
    hide ReadRecord, Accept;
    if s != [] {
      ReadersAgree(crc, s);
      var p := ReadRecord(Engine, crc, s);
      if p.Good? && Accept(c, p.record).Some? {
        ReadAllAgree(crc, Accept(c, p.record).value, s[p.size..]);
      }
    }
  }

  // ------------------------------------------------------------------ written segments

  function Records(crc: Crc, rs: seq<Record>): Bytes {
    if rs == [] then [] else RecordBytes(crc, rs[0]) + Records(crc, rs[1..])
  }

  function AcceptAll(c: Cursor, rs: seq<Record>): Option<Cursor>
    decreases |rs|
  {
    if rs == [] then Some(c)
    else match Accept(c, rs[0])
      case None => None
      case Some(c') => AcceptAll(c', rs[1..])
  }

  ghost predicate AllReadable(rs: seq<Record>) {
    forall i :: 0 <= i < |rs| ==> Readable(rs[i].op)
  }

  lemma RecordsFirst(crc: Crc, r: Record, rs: seq<Record>)
    ensures Records(crc, [r] + rs) == RecordBytes(crc, r) + Records(crc, rs)
  {
    assert ([r] + rs)[1..] == rs;
  }

  lemma {:induction false} RecordsConcat(crc: Crc, a: seq<Record>, b: seq<Record>)
    ensures Records(crc, a + b) == Records(crc, a) + Records(crc, b)
    decreases |a|
  {
    hide RecordBytes;
    if a == [] {
      assert a + b == b;
    } else {
      RecordsConcat(crc, a[1..], b);
      assert a + b == [a[0]] + (a[1..] + b) && a == [a[0]] + a[1..];
      RecordsFirst(crc, a[0], a[1..] + b);
      RecordsFirst(crc, a[0], a[1..]);
    }
  }

  lemma {:induction false} AcceptAllConcat(c: Cursor, a: seq<Record>, b: seq<Record>)
    ensures AcceptAll(c, a + b) ==
      if AcceptAll(c, a).None? then None else AcceptAll(AcceptAll(c, a).value, b)
    decreases |a|
  {
    hide Accept;
    if a == [] {
      assert a + b == b;
    } else {
      assert (a + b)[1..] == a[1..] + b;
      if Accept(c, a[0]).Some? { AcceptAllConcat(Accept(c, a[0]).value, a[1..], b); }
    }
  }

  lemma ReadFirst(reader: Reader, crc: Crc, c: Cursor, r: Record, rest: Bytes)
    requires Readable(r.op) && Accept(c, r).Some?
    ensures var q, n := ReadAll(reader, crc, Accept(c, r).value, rest), |RecordBytes(crc, r)|;
      ReadAll(reader, crc, c, RecordBytes(crc, r) + rest) == q.(used := n + q.used)
  {
    hide ReadRecord, RecordBytes, Readable, Accept;
    var b := RecordBytes(crc, r);
    RecordLength(crc, r);
    assert (b + rest)[..|b|] == b && (b + rest)[|b|..] == rest;
    ReadRecordIff(reader, crc, b + rest, r, |b|);
  }

  /** Written records in sequence are read and applied; reading goes on with what follows. */
  lemma {:induction false} ReadRecords(reader: Reader, crc: Crc, c: Cursor, rs: seq<Record>, rest: Bytes)
    requires AllReadable(rs) && AcceptAll(c, rs).Some?
    ensures var q := ReadAll(reader, crc, AcceptAll(c, rs).value, rest);
      ReadAll(reader, crc, c, Records(crc, rs) + rest) == q.(used := |Records(crc, rs)| + q.used)
    decreases |rs|
  {
    hide RecordBytes, Readable, Accept, ReadAll;
    if rs == [] {
      assert Records(crc, rs) + rest == rest;
    } else {
      var t := Records(crc, rs[1..]) + rest;
      assert Records(crc, rs) + rest == RecordBytes(crc, rs[0]) + t;
      ReadFirst(reader, crc, c, rs[0], t);
      ReadRecords(reader, crc, Accept(c, rs[0]).value, rs[1..], rest);
    }
  }

  // ------------------------------------------------------------------ what a replay says of the bytes

  /** How reading ends at the bytes after the accepted records. */
  predicate Ends(reader: Reader, crc: Crc, c: Cursor, rest: Bytes, torn: bool, error: Option<ReadError>) {
    if rest == [] then !torn && error == None
    else match ReadRecord(reader, crc, rest)
      case Torn => torn && error == None
      case Bad(e) => !torn && error == Some(e)
      case Good(r, _) => !torn && error == Some(SequenceGap) && c.sequence < r.sequence != c.expected
  }

  /** The bytes are the print of these records, each skipped or the next in sequence, and the tail that is reported. */
  ghost predicate Describes(reader: Reader, crc: Crc, c: Cursor, s: Bytes, rs: seq<Record>, r: Read) {
    && AllReadable(rs) && AcceptAll(c, rs) == Some(r.cursor)
    && r.used == |Records(crc, rs)| <= |s| && s[..r.used] == Records(crc, rs)
    && Ends(reader, crc, r.cursor, s[r.used..], r.torn, r.error)
  }

  /** Reading is canonical: a result is right exactly when the bytes are the print of the records it applied. */
  lemma ReadAllIff(reader: Reader, crc: Crc, c: Cursor, s: Bytes, r: Read)
    ensures ReadAll(reader, crc, c, s) == r <==> exists rs :: Describes(reader, crc, c, s, rs, r)
  {
    hide ReadAll, AllReadable, AcceptAll, Records, Ends;
    if ReadAll(reader, crc, c, s) == r {
      var rs := Described(reader, crc, c, s);
    } else if rs :| Describes(reader, crc, c, s, rs, r) {
      ReadRecords(reader, crc, c, rs, s[r.used..]);
      assert s == s[..r.used] + s[r.used..];
      EndsRead(reader, crc, r.cursor, s[r.used..], r.torn, r.error);
    }
  }

  lemma EndsRead(reader: Reader, crc: Crc, c: Cursor, rest: Bytes, torn: bool, error: Option<ReadError>)
    requires Ends(reader, crc, c, rest, torn, error)
    ensures ReadAll(reader, crc, c, rest) == Read(c, 0, torn, error)
  {
    hide ReadRecord;
  }

  lemma {:induction false} Described(reader: Reader, crc: Crc, c: Cursor, s: Bytes) returns (rs: seq<Record>)
    ensures Describes(reader, crc, c, s, rs, ReadAll(reader, crc, c, s))
    decreases |s|
  {
    hide ReadRecord, RecordBytes, Readable;
    rs := [];
    assert s[0..] == s;
    if s != [] {
      var p := ReadRecord(reader, crc, s);
      if p.Good? && Accept(c, p.record).Some? {
        ReadRecordIff(reader, crc, s, p.record, p.size);
        var rest := Described(reader, crc, Accept(c, p.record).value, s[p.size..]);
        rs := [p.record] + rest;
        assert rs[1..] == rest;
        var u := |Records(crc, rest)|;
        assert s[..p.size + u] == s[..p.size] + s[p.size..][..u];
        assert s[p.size..][u..] == s[p.size + u..];
      }
    }
  }

  // ------------------------------------------------------------------ truncation

  /** The number of records that lie wholly before the cut. */
  function WholeRecords(crc: Crc, rs: seq<Record>, cut: nat): (k: nat)
    ensures k <= |rs|
  {
    if rs == [] || |RecordBytes(crc, rs[0])| > cut then 0
    else 1 + WholeRecords(crc, rs[1..], cut - |RecordBytes(crc, rs[0])|)
  }

  /** It is the largest number of leading records that fit before the cut. */
  lemma {:induction false} WholeRecordsFit(crc: Crc, rs: seq<Record>, cut: nat)
    ensures var k := WholeRecords(crc, rs, cut);
      && |Records(crc, rs[..k])| <= cut
      && (k < |rs| ==> cut < |Records(crc, rs[..k])| + |RecordBytes(crc, rs[k])|)
    decreases |rs|
  {
    hide RecordBytes;
    if rs != [] && |RecordBytes(crc, rs[0])| <= cut {
      var f := |RecordBytes(crc, rs[0])|;
      WholeRecordsFit(crc, rs[1..], cut - f);
      var k := WholeRecords(crc, rs[1..], cut - f);
      assert rs[..k + 1] == [rs[0]] + rs[1..][..k];
      RecordsFirst(crc, rs[0], rs[1..][..k]);
    } else {
      assert rs[..0] == [];
    }
  }

  lemma RecordsSplit(crc: Crc, rs: seq<Record>, k: nat)
    requires k <= |rs|
    ensures k == |rs| ==> Records(crc, rs) == Records(crc, rs[..k])
    ensures k < |rs| ==>
      Records(crc, rs) == Records(crc, rs[..k]) + (RecordBytes(crc, rs[k]) + Records(crc, rs[k + 1..]))
  {
    hide RecordBytes, Records;
    if k < |rs| {
      assert rs == rs[..k] + ([rs[k]] + rs[k + 1..]);
      RecordsConcat(crc, rs[..k], [rs[k]] + rs[k + 1..]);
      RecordsFirst(crc, rs[k], rs[k + 1..]);
    } else {
      assert rs[..k] == rs;
    }
  }

  /** As many records as fit before the cut survive: at least every prefix that fits. */
  lemma FittingRecords(crc: Crc, rs: seq<Record>, cut: nat, d: nat)
    requires d <= |rs| && |Records(crc, rs[..d])| <= cut
    ensures d <= WholeRecords(crc, rs, cut)
  {
    hide Records, RecordBytes, WholeRecords;
    WholeRecordsFit(crc, rs, cut);
    var k := WholeRecords(crc, rs, cut);
    if k < d {
      assert rs[..d][..k] == rs[..k] && rs[..d][k] == rs[k];
      RecordsSplit(crc, rs[..d], k);
    }
  }

  lemma CutRecords(crc: Crc, rs: seq<Record>, cut: nat)
    requires cut <= |Records(crc, rs)|
    ensures var k := WholeRecords(crc, rs, cut); var done := Records(crc, rs[..k]);
      && |done| <= cut
      && (k == |rs| ==> cut == |done| && Records(crc, rs)[..cut] == done)
      && (k < |rs| ==> cut - |done| < |RecordBytes(crc, rs[k])|)
      && (k < |rs| ==> Records(crc, rs)[..cut] == done + RecordBytes(crc, rs[k])[..cut - |done|])
  {
    hide RecordBytes, Records, WholeRecords;
    var k := WholeRecords(crc, rs, cut);
    WholeRecordsFit(crc, rs, cut);
    RecordsSplit(crc, rs, k);
    if k < |rs| {
      CutConcat(Records(crc, rs[..k]), RecordBytes(crc, rs[k]), Records(crc, rs[k + 1..]), cut);
    } else {
      assert Records(crc, rs)[..cut] == Records(crc, rs);
    }
  }

  lemma CutConcat(a: Bytes, b: Bytes, c: Bytes, cut: nat)
    requires |a| <= cut <= |a| + |b|
    ensures (a + (b + c))[..cut] == a + b[..cut - |a|]
  {
  }

  /** Every record of which the cut leaves at least the length field is one a reader accepts. */
  ghost predicate CutLegible(crc: Crc, rs: seq<Record>, cut: nat) {
    var k := WholeRecords(crc, rs, cut);
    && AllReadable(rs[..k])
    && (k < |rs| && cut >= |Records(crc, rs[..k])| + 4 ==> Readable(rs[k].op))
  }

  /**
   * Whatever the cut, reading applies exactly the records that lie wholly before it, the good part ends
   * at that boundary, and the tail is torn exactly when the cut is not a boundary.
   */
  lemma TruncatedRecords(reader: Reader, crc: Crc, c: Cursor, rs: seq<Record>, cut: nat)
    requires cut <= |Records(crc, rs)| && CutLegible(crc, rs, cut)
    requires AcceptAll(c, rs[..WholeRecords(crc, rs, cut)]).Some?
    ensures var k := WholeRecords(crc, rs, cut); var good := |Records(crc, rs[..k])|;
      ReadAll(reader, crc, c, Records(crc, rs)[..cut]) == Read(AcceptAll(c, rs[..k]).value, good, cut != good, None)
  {
    hide RecordBytes, Records, WholeRecords, AcceptAll, Readable, Unfinished, ReadRecord;
    var k := WholeRecords(crc, rs, cut);
    var done := Records(crc, rs[..k]);
    CutRecords(crc, rs, cut);
    var rest := if k < |rs| then RecordBytes(crc, rs[k])[..cut - |done|] else [];
    assert done + [] == done;
    ReadRecords(reader, crc, c, rs[..k], rest);
    if rest != [] {
      PartUnfinished(crc, rs[k], |rest|);
      UnfinishedIff(reader, crc, rest);
    }
  }

  lemma PartUnfinished(crc: Crc, r: Record, n: nat)
    requires 0 < n < |RecordBytes(crc, r)| && (n >= 4 ==> Readable(r.op))
    ensures Unfinished(RecordBytes(crc, r)[..n])
  {
    hide RecordBytes, Readable;
    if n >= 4 { PrefixUnfinished(crc, r, RecordBytes(crc, r), n); }
  }

  /** The number of leading records that a reader accepts. */
  ghost function ReadableCount(rs: seq<Record>): (n: nat)
    ensures n <= |rs| && AllReadable(rs[..n]) && (n < |rs| ==> !Readable(rs[n].op))
  {
    if rs == [] || !Readable(rs[0].op) then 0
    else
      var n := 1 + ReadableCount(rs[1..]);
      assert forall i :: 0 < i < n ==> rs[i] == rs[1..][..n - 1][i - 1];
      n
  }

  /** Otherwise every reader refuses the log, at the first record that is too long for it. */
  lemma IllegibleRecords(reader: Reader, crc: Crc, c: Cursor, rs: seq<Record>, cut: nat)
    requires cut <= |Records(crc, rs)| && !CutLegible(crc, rs, cut)
    requires AcceptAll(c, rs[..WholeRecords(crc, rs, cut)]).Some?
    requires forall i :: 0 <= i < |rs| ==> Submittable(rs[i].op)
    ensures ReadAll(reader, crc, c, Records(crc, rs)[..cut]).error == Some(TotalLenInvalid)
  {
    hide RecordBytes, Records, WholeRecords, AcceptAll, Readable, ReadRecord, Submittable;
    var k, j := WholeRecords(crc, rs, cut), ReadableCount(rs);
    FirstIllegible(crc, rs, cut, k, j);
    AcceptPart(c, rs, j, k);
    var done := Records(crc, rs[..j]);
    var rest := Records(crc, rs)[..cut][|done|..];
    assert Records(crc, rs)[..cut] == done + rest;
    ReadRecords(reader, crc, c, rs[..j], rest);
    RecordLength(crc, rs[j]);
    FrontTooLong(reader, crc, rs[j], rest);
  }

  /** The first record that no reader accepts begins, with its length field, before the cut. */
  lemma FirstIllegible(crc: Crc, rs: seq<Record>, cut: nat, k: nat, j: nat)
    requires cut <= |Records(crc, rs)| && !CutLegible(crc, rs, cut)
    requires k == WholeRecords(crc, rs, cut) && j == ReadableCount(rs)
    ensures j < |rs| && j <= k && !Readable(rs[j].op)
    ensures var n := |Records(crc, rs[..j])|;
      n + 4 <= cut && Records(crc, rs)[..cut][..n] == Records(crc, rs[..j])
        && Records(crc, rs)[n..n + 4] == RecordBytes(crc, rs[j])[..4]
  {
    hide Records, RecordBytes, WholeRecords, Readable, ReadableCount;
    if j == |rs| || j > k { PastLegible(crc, rs, cut, j); }
    RecordsSplit(crc, rs, j);
    RecordLength(crc, rs[j]);
    if j < k {
      WholeRecordsFit(crc, rs, cut);
      RecordsSplit(crc, rs[..k], j);
      assert rs[..k][..j] == rs[..j] && rs[..k][j] == rs[j];
    }
  }

  lemma PastLegible(crc: Crc, rs: seq<Record>, cut: nat, j: nat)
    requires j <= |rs| && AllReadable(rs[..j]) && (j > WholeRecords(crc, rs, cut) || j == |rs|)
    ensures CutLegible(crc, rs, cut)
  {
    hide Records, Readable;
    var k := WholeRecords(crc, rs, cut);
    assert rs[..k] == rs[..j][..k];
    assert j > k ==> rs[..j][k] == rs[k];
  }

  lemma AcceptPart(c: Cursor, rs: seq<Record>, j: nat, k: nat)
    requires j <= k <= |rs| && AcceptAll(c, rs[..k]).Some?
    ensures AcceptAll(c, rs[..j]).Some?
  {
    assert rs[..k] == rs[..j] + rs[j..k];
    AcceptAllConcat(c, rs[..j], rs[j..k]);
  }

  lemma FrontTooLong(reader: Reader, crc: Crc, r: Record, rest: Bytes)
    requires Submittable(r.op) && !Readable(r.op) && |rest| >= 4 && |RecordBytes(crc, r)| >= 4
    requires rest[..4] == RecordBytes(crc, r)[..4]
    ensures ReadRecord(reader, crc, rest) == Bad(TotalLenInvalid)
  {
    hide RecordBytes, ReadRecord, GetBE;
    RecordFields(crc, r);
    assert rest[0..4] == rest[..4] == RecordBytes(crc, r)[0..4];
    Be32At(rest, 0, RecordSize(r.op));
    TooLong(reader, crc, rest);
  }

  /** A shorter cut of a legible log is legible. */
  lemma LegibleShorter(crc: Crc, rs: seq<Record>, cut: nat, longer: nat)
    requires cut <= longer && CutLegible(crc, rs, longer)
    ensures CutLegible(crc, rs, cut)
  {
    hide Records, WholeRecords, Readable;
    var k, k' := WholeRecords(crc, rs, cut), WholeRecords(crc, rs, longer);
    WholeRecordsFit(crc, rs, cut);
    FittingRecords(crc, rs, longer, k);
    assert rs[..k] == rs[..k'][..k];
    assert k < k' ==> rs[..k'][k] == rs[k];
  }

  /** A log that is not cut is legible exactly when a reader accepts all of its records. */
  lemma WholeLegible(crc: Crc, rs: seq<Record>)
    ensures CutLegible(crc, rs, |Records(crc, rs)|) <==> AllReadable(rs)
  {
    hide Records, WholeRecords, Readable;
    assert rs[..|rs|] == rs;
    FittingRecords(crc, rs, |Records(crc, rs)|, |rs|);
  }

  // ------------------------------------------------------------------ one segment file

  datatype Replayed = Replayed(values: Map, sequence: u64, lastGood: nat, segment: u64, torn: bool)

  function Larger(a: u64, b: u64): u64 {
    if a >= b then a else b
  }

  /** The cursor at the start of a segment. */
  function Begin(values: Map, sequence: u64, h: Header): Cursor {
    Cursor(values, sequence, Larger(Succ(sequence), h.first))
  }

  /** The result of replaying one segment file. */
  function ReplayWal(reader: Reader, crc: Crc, file: Bytes, values: Map, sequence: u64): Result<Replayed, ReadError> {
    match ReadHeader(crc, file)
    case Failure(e) => Failure(e)
    case Success(h) =>
      var r := ReadAll(reader, crc, Begin(values, sequence, h), file[HEADER_SIZE..]);
      if r.error.Some? then Failure(r.error.value)
      else Success(Replayed(r.cursor.values, r.cursor.sequence, HEADER_SIZE + r.used, h.segment, r.torn))
  }

  /** The file is a header, the print of these records, and at most the beginning of another. */
  ghost predicate IsSegment(crc: Crc, file: Bytes, values: Map, sequence: u64, p: Replayed, h: Header,
                            rs: seq<Record>) {
    && HeaderIs(crc, file, h) && p.segment == h.segment && AllReadable(rs)
    && var c := AcceptAll(Begin(values, sequence, h), rs);
    && c.Some? && p.values == c.value.values && p.sequence == c.value.sequence
    && p.lastGood == 32 + |Records(crc, rs)| <= |file| && file[32..p.lastGood] == Records(crc, rs)
    && (if p.torn then Unfinished(file[p.lastGood..]) else p.lastGood == |file|)
  }

  /**
   * A segment is accepted exactly when it is a header, printed records that can be read and follow in sequence,
   * and at most one unfinished record; every other file is refused.
   */
  lemma ReplayWalIff(reader: Reader, crc: Crc, file: Bytes, values: Map, sequence: u64, p: Replayed)
    ensures ReplayWal(reader, crc, file, values, sequence) == Success(p) <==>
      exists h, rs :: IsSegment(crc, file, values, sequence, p, h, rs)
  {
    hide ReadAll, ReadHeader, HeaderIs, AllReadable, AcceptAll, Records, Unfinished;
    if ReplayWal(reader, crc, file, values, sequence) == Success(p) {
      var h := ReadHeader(crc, file).value;
      ReadHeaderIff(crc, file, h);
      var c := Begin(values, sequence, h);
      var rs := Described(reader, crc, c, file[HEADER_SIZE..]);
      EndsIff(reader, crc, c, file, rs, ReadAll(reader, crc, c, file[HEADER_SIZE..]));
      assert IsSegment(crc, file, values, sequence, p, h, rs);
    } else if h, rs :| IsSegment(crc, file, values, sequence, p, h, rs) {
      SegmentRead(reader, crc, file, values, sequence, p, h, rs);
    }
  }

  lemma EndsIff(reader: Reader, crc: Crc, c: Cursor, file: Bytes, rs: seq<Record>, r: Read)
    requires |file| >= 32 && Describes(reader, crc, c, file[32..], rs, r)
    ensures 32 + r.used <= |file| && file[32..32 + r.used] == Records(crc, rs)
    ensures r.error == None ==> if r.torn then Unfinished(file[32 + r.used..]) else 32 + r.used == |file|
  {
    hide ReadRecord, AllReadable, AcceptAll, Records, Unfinished;
    var rest := file[32..][r.used..];
    assert rest == file[32 + r.used..] && file[32..][..r.used] == file[32..32 + r.used];
    if rest != [] { UnfinishedIff(reader, crc, rest); }
  }

  lemma SegmentRead(reader: Reader, crc: Crc, file: Bytes, values: Map, sequence: u64, p: Replayed, h: Header,
                    rs: seq<Record>)
    requires IsSegment(crc, file, values, sequence, p, h, rs)
    ensures ReplayWal(reader, crc, file, values, sequence) == Success(p)
  {
    hide ReadAll, ReadRecord, ReadHeader, AllReadable, AcceptAll, Records, Unfinished;
    ReadHeaderIff(crc, file, h);
    var c := Begin(values, sequence, h);
    var s, used := file[32..], p.lastGood - 32;
    var rest := s[used..];
    assert s[..used] == file[32..p.lastGood] && rest == file[p.lastGood..];
    assert s == s[..used] + rest;
    if p.torn { TornNotEmpty(rest); UnfinishedIff(reader, crc, rest); }
    ReadRecords(reader, crc, c, rs, rest);
    EndsRead(reader, crc, AcceptAll(c, rs).value, rest, p.torn, None);
  }

  lemma TornNotEmpty(s: Bytes)
    requires Unfinished(s)
    ensures s != []
  {
  }

  /** The engine's checks of one record at a file position. */
  method EngineRecordAt(crc: Crc, file: Bytes, pos: nat) returns (r: Probe)
    requires pos < |file|
    ensures r == ReadRecord(Engine, crc, file[pos..])
  {
    var s := file[pos..];
    if |file| - pos < 4 { return Torn; }
    var total := Be32(s, 0);
    if total < MIN_RECORD || total > MAX_RECORD { return Bad(TotalLenInvalid); }
    if pos + total > |file| { return Torn; }
    var rseq, op, kl, vl, hc := Be64(s, 4), s[12], Be32(s, 13), Be32(s, 17), Be32(s, 21);
    var hh := Put64(rseq) + [op] + Put32(kl) + Put32(vl);
    if crc.Of(hh) != hc || kl == 0 || kl > MAX_KEY || vl > MAX_VALUE || kl + vl + 4 != total - 25 {
      return Bad(FrameHeaderInvalid);
    }
    if op != 1 && op != 2 { return Bad(OpInvalid); }
    if crc.Of(s[..total - 4]) != Be32(s, total - 4) { return Bad(RecordCrcMismatch); }
    var kind := if op == 1 then Put else Delete;
    return Good(Record(rseq, Operation(kind, s[25..25 + kl], s[25 + kl..25 + kl + vl])), total);
  }

  /** The migration reader's checks of one record at a file position. */
  method MigrationRecordAt(crc: Crc, file: Bytes, pos: nat) returns (r: Probe)
    requires pos < |file|
    ensures r == ReadRecord(Migration, crc, file[pos..])
  {
    var s := file[pos..];
    if pos + 4 > |file| { return Torn; }
    var total := Be32(s, 0);
    if total < MIN_RECORD || total > MAX_RECORD { return Bad(TotalLenInvalid); }
    if pos + total > |file| { return Torn; }
    var rseq, op, kl, vl, hc := Be64(s, 4), s[12], Be32(s, 13), Be32(s, 17), Be32(s, 21);
    var hh := Put64(rseq) + [op] + Put32(kl) + Put32(vl);
    if crc.Of(hh) != hc || kl == 0 || kl > MAX_KEY || vl > MAX_VALUE { return Bad(FrameHeaderInvalid); }
    if op != 1 && op != 2 { return Bad(OpInvalid); }
    if 25 + kl + vl + 4 != total { return Bad(PayloadBounds); }
    if crc.Of(s[..total - 4]) != Be32(s, total - 4) { return Bad(RecordCrcMismatch); }
    var kind := if op == 1 then Put else Delete;
    return Good(Record(rseq, Operation(kind, s[25..25 + kl], s[25 + kl..25 + kl + vl])), total);
  }

  /** The migration reader's loop over the records of one segment file. */
  method ReplaySegment(crc: Crc, file: Bytes, values: Map, sequence: u64)
    returns (r: Result<Replayed, ReadError>)
    ensures r == ReplayWal(Migration, crc, file, values, sequence)
  {
    hide ReadRecord, ReadHeader, Accept, ReadAll;
    var header := ReadHeader(crc, file);
    if header.Failure? { return Failure(header.error); }
    var pos: nat := HEADER_SIZE;
    var c := Begin(values, sequence, header.value);
    ghost var c0 := c;
    ghost var whole := ReadAll(Migration, crc, c0, file[HEADER_SIZE..]);
    while pos < |file|
      invariant HEADER_SIZE <= pos <= |file|
      invariant var q := ReadAll(Migration, crc, c, file[pos..]); whole == q.(used := pos - HEADER_SIZE + q.used)
      decreases |file| - pos
    {
      var p := MigrationRecordAt(crc, file, pos);
      ReadStep(Migration, crc, c, file, pos);
      if p.Torn? { return Success(Replayed(c.values, c.sequence, pos, header.value.segment, true)); }
      if p.Bad? { return Failure(p.error); }
      var next := Accept(c, p.record);
      if next.None? { return Failure(SequenceGap); }
      c := next.value;
      pos := pos + p.size;
    }
    ReadEnd(Migration, crc, c, file[pos..]);
    return Success(Replayed(c.values, c.sequence, pos, header.value.segment, false));
  }

  lemma ReadEnd(reader: Reader, crc: Crc, c: Cursor, s: Bytes)
    ensures s == [] ==> ReadAll(reader, crc, c, s) == Read(c, 0, false, None)
  {
  }

  lemma ReadStep(reader: Reader, crc: Crc, c: Cursor, file: Bytes, pos: nat)
    requires pos < |file|
    ensures var p, a := ReadRecord(reader, crc, file[pos..]), ReadAll(reader, crc, c, file[pos..]);
      && (p.Torn? ==> a == Read(c, 0, true, None))
      && (p.Bad? ==> a == Read(c, 0, false, Some(p.error)))
      && (p.Good? && Accept(c, p.record).None? ==> a == Read(c, 0, false, Some(SequenceGap)))
      && (p.Good? ==> pos + p.size <= |file|)
      && (p.Good? && Accept(c, p.record).Some? ==>
        var q := ReadAll(reader, crc, Accept(c, p.record).value, file[pos + p.size..]);
        a == q.(used := p.size + q.used))
  {
    hide ReadRecord, Accept;
    var p := ReadRecord(reader, crc, file[pos..]);
    if p.Good? { assert file[pos..][p.size..] == file[pos + p.size..]; }
  }
}
