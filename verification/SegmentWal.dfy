/** The BDW3 segment log: one record per operation, and its two independent readers. */
module SegmentWal {
  import opened Bytes
  import opened Options
  import opened Store

  const MAX_RECORD: nat := 0x100_0000
  const MIN_RECORD: nat := 29
  const HEADER_SIZE: nat := 32
  const WAL_MAGIC: Bytes := [66, 68, 87, 51]  // "BDW3"

  datatype Record = Record(sequence: u64, op: Operation)

  // ------------------------------------------------------------------ printing

  /** What the engine accepts from a caller. */
  predicate Submittable(op: Operation) {
    0 < |op.key| <= MAX_KEY && |op.value| <= MAX_VALUE
  }

  function RecordSize(op: Operation): nat {
    MIN_RECORD + |op.key| + |op.value|
  }

  /** The fields covered by the header checksum. */
  function Fields(sequence: u64, tag: byte, keyLen: nat, valueLen: nat): (s: Bytes)
    ensures |s| == 17
  {
    Put64(sequence) + [tag] + Put32(keyLen) + Put32(valueLen)
  }

  function RecordHead(crc: Crc, r: Record): Bytes {
    var h := Fields(r.sequence, Tag(r.op.kind), |r.op.key|, |r.op.value|);
    Put32(RecordSize(r.op)) + h + Put32(crc.Of(h)) + r.op.key + r.op.value
  }

  function RecordBytes(crc: Crc, r: Record): Bytes {
    RecordHead(crc, r) + Put32(crc.Of(RecordHead(crc, r)))
  }

  /** Prints one record as the writer does. */
  method MakeRecord(crc: Crc, r: Record) returns (b: Bytes)
    ensures b == RecordBytes(crc, r)
  {
    var h := Put64(r.sequence);
    h := h + [Tag(r.op.kind)];
    h := h + Put32(|r.op.key|);
    h := h + Put32(|r.op.value|);
    var hc := crc.Of(h);
    b := Put32(4 + |h| + 4 + (|r.op.key| + |r.op.value|) + 4);
    b := b + h;
    b := b + Put32(hc);
    b := b + r.op.key;
    b := b + r.op.value;
    b := b + Put32(crc.Of(b));
  }

  lemma RecordLength(crc: Crc, r: Record)
    ensures |RecordBytes(crc, r)| == RecordSize(r.op) >= MIN_RECORD
  {
    hide Put32, Crc.Of;
  }

  // ------------------------------------------------------------------ reading one record

  datatype ReadError =
    | HeaderTruncated | HeaderInvalid | TotalLenInvalid | FrameHeaderInvalid | OpInvalid | PayloadBounds
    | RecordCrcMismatch | SequenceGap | TornNonFinal

  datatype Probe = Torn | Bad(error: ReadError) | Good(record: Record, size: nat)

  /** The operation a record of the given total length carries. */
  function Decoded(s: Bytes, total: nat): Record
    requires MIN_RECORD <= total <= |s| && Be32(s, 13) + Be32(s, 17) + MIN_RECORD == total
  {
    var keyLen := Be32(s, 13);
    Record(Be64(s, 4), Operation(if s[12] == 1 then Put else Delete, s[25..25 + keyLen], s[25 + keyLen..total - 4]))
  }

  /** The header checksum, key and value limits. */
  predicate FieldsValid(crc: Crc, s: Bytes)
    requires |s| >= MIN_RECORD
  {
    && crc.Of(Fields(Be64(s, 4), s[12], Be32(s, 13), Be32(s, 17))) == Be32(s, 21)
    && 0 < Be32(s, 13) <= MAX_KEY && Be32(s, 17) <= MAX_VALUE
  }

  /**
   * Looks at the front of the remaining segment. The engine checks the payload length with the header
   * fields, before the operation type; the migration reader checks it after the type.
   */
  function ReadRecord(reader: Reader, crc: Crc, s: Bytes): (r: Probe)
    ensures r.Good? ==> MIN_RECORD <= r.size <= |s|
  {
    if |s| < 4 then Torn
    else
      var total := Be32(s, 0);
      if total < MIN_RECORD || total > MAX_RECORD then Bad(TotalLenInvalid)
      else if |s| < total then Torn
      else
        var fits := Be32(s, 13) + Be32(s, 17) + MIN_RECORD == total;
        if !FieldsValid(crc, s) || (reader == Engine && !fits) then Bad(FrameHeaderInvalid)
        else if s[12] != 1 && s[12] != 2 then Bad(OpInvalid)
        else if !fits then Bad(PayloadBounds)
        else if Be32(s, total - 4) != crc.Of(s[..total - 4]) then Bad(RecordCrcMismatch)
        else Good(Decoded(s, total), total)
  }

  /** The two readers accept the same records and the same torn tails; they only name some errors differently. */
  lemma ReadersAgree(crc: Crc, s: Bytes)
    ensures var e, m := ReadRecord(Engine, crc, s), ReadRecord(Migration, crc, s);
      e == m || (e.Bad? && m.Bad?)
  {
    hide Be32, Be64, FieldsValid, Decoded;
  }

  /** Records a reader can accept. */
  predicate Readable(op: Operation) {
    Submittable(op) && RecordSize(op) <= MAX_RECORD
  }

  lemma SixFields(a: Bytes, b: Bytes, k: nat)
    requires |a| == |b| >= 29 + k
    ensures a == b <==>
      && a[0..4] == b[0..4] && a[4..21] == b[4..21] && a[21..25] == b[21..25] && a[25..25 + k] == b[25..25 + k]
      && a[25 + k..|a| - 4] == b[25 + k..|a| - 4] && a[|a| - 4..] == b[|a| - 4..]
  {
    assert a == a[0..4] + a[4..21] + a[21..25] + a[25..25 + k] + a[25 + k..|a| - 4] + a[|a| - 4..];
    assert b == b[0..4] + b[4..21] + b[21..25] + b[25..25 + k] + b[25 + k..|a| - 4] + b[|a| - 4..];
  }

  /** The printed record, field by field. */
  lemma RecordFields(crc: Crc, r: Record)
    ensures var b, k, n := RecordBytes(crc, r), |r.op.key|, RecordSize(r.op);
      var h := Fields(r.sequence, Tag(r.op.kind), |r.op.key|, |r.op.value|);
      && |b| == n == 29 + k + |r.op.value| && b[..n - 4] == RecordHead(crc, r)
      && b[0..4] == Put32(n) && b[4..21] == h && b[21..25] == Put32(crc.Of(h))
      && b[25..25 + k] == r.op.key && b[25 + k..n - 4] == r.op.value
      && b[n - 4..] == Put32(crc.Of(RecordHead(crc, r)))
  {
    hide Put32, Fields, Crc.Of;
  }

  /** The printed numbers: total length, sequence, 1 for a put and 2 for a delete, and the two lengths. */
  lemma RecordNumbers(crc: Crc, r: Record)
    requires Submittable(r.op)
    ensures var b := RecordBytes(crc, r);
      && |b| >= 29 && Be32(b, 0) == 29 + |r.op.key| + |r.op.value| && Be64(b, 4) == r.sequence
      && b[12] == (if r.op.kind == Put then 1 else 2) && Be32(b, 13) == |r.op.key| && Be32(b, 17) == |r.op.value|
  {
    hide Be32, Be64, Put32, Fields, RecordBytes, Crc.Of;
    var b := RecordBytes(crc, r);
    RecordFields(crc, r);
    RecordLength(crc, r);
    Be32At(b, 0, RecordSize(r.op));
    FieldsInjective(b, r.sequence, Tag(r.op.kind), |r.op.key|, |r.op.value|);
  }

  /** The checksummed fields, read back one by one, are the bytes they were read from. */
  lemma FieldsCanonical(s: Bytes)
    requires |s| >= MIN_RECORD
    ensures Fields(Be64(s, 4), s[12], Be32(s, 13), Be32(s, 17)) == s[4..21]
  {
    hide Be32, Be64, Put32, Put64;
    Be64At(s, 4, Be64(s, 4));
    Be32At(s, 13, Be32(s, 13));
    Be32At(s, 17, Be32(s, 17));
    assert s[4..21] == s[4..12] + [s[12]] + s[13..17] + s[17..21];
  }

  /** Equal fields mean equal numbers. */
  lemma FieldsInjective(s: Bytes, sequence: u64, tag: byte, keyLen: u32, valueLen: u32)
    requires |s| >= MIN_RECORD
    ensures s[4..21] == Fields(sequence, tag, keyLen, valueLen) <==>
      Be64(s, 4) == sequence && s[12] == tag && Be32(s, 13) == keyLen && Be32(s, 17) == valueLen
  {
    hide Be32, Be64, Put32, Put64;
    Be64At(s, 4, sequence);
    Be32At(s, 13, keyLen);
    Be32At(s, 17, valueLen);
    var f, t := Fields(sequence, tag, keyLen, valueLen), s[4..21];
    assert f[0..8] == Put64(sequence) && f[8] == tag && f[9..13] == Put32(keyLen) && f[13..17] == Put32(valueLen);
    assert t[0..8] == s[4..12] && t[8] == s[12] && t[9..13] == s[13..17] && t[13..17] == s[17..21];
    FourFields(t, f);
  }

  lemma FourFields(a: Bytes, b: Bytes)
    requires |a| == |b| == 17
    ensures a == b <==> a[0..8] == b[0..8] && a[8] == b[8] && a[9..13] == b[9..13] && a[13..17] == b[13..17]
  {
    assert a == a[0..8] + [a[8]] + a[9..13] + a[13..17];
    assert b == b[0..8] + [b[8]] + b[9..13] + b[13..17];
  }

  /** A record, field by field, in the bytes it is read from. */
  lemma RecordLayout(crc: Crc, s: Bytes, r: Record)
    requires Submittable(r.op) && RecordSize(r.op) <= |s| && RecordSize(r.op) <= MAX_RECORD
    ensures var n, k := RecordSize(r.op), |r.op.key|; s[..n] == RecordBytes(crc, r) <==>
      && Be32(s, 0) == n && Be64(s, 4) == r.sequence && s[12] == Tag(r.op.kind)
      && Be32(s, 13) == k && Be32(s, 17) == |r.op.value|
      && Be32(s, 21) == crc.Of(s[4..21])
      && s[25..25 + k] == r.op.key && s[25 + k..n - 4] == r.op.value
      && Be32(s, n - 4) == crc.Of(s[..n - 4])
  {
    hide Be32, Be64, Put32, Put64, Fields, RecordHead, RecordBytes, Crc.Of, Tag;
    var n, k := RecordSize(r.op), |r.op.key|;
    var h := Fields(r.sequence, Tag(r.op.kind), |r.op.key|, |r.op.value|);
    RecordFields(crc, r);
    FieldsInjective(s, r.sequence, Tag(r.op.kind), |r.op.key|, |r.op.value|);
    Be32At(s, 0, n);
    Be32At(s, 21, crc.Of(h));
    Be32At(s, n - 4, crc.Of(RecordHead(crc, r)));
    SixFields(s[..n], RecordBytes(crc, r), k);
    CutFields(s, n, k);
    var a, b := s[..n], RecordBytes(crc, r);
    if a[0..4] == b[0..4] && a[4..21] == b[4..21] && a[21..25] == b[21..25] && a[25..25 + k] == b[25..25 + k]
      && a[25 + k..n - 4] == b[25 + k..n - 4] {
      HeadFieldsAgree(a, b, k);
    }
    assert a[..n - 4] == s[..n - 4];
  }

  lemma CutFields(s: Bytes, n: nat, k: nat)
    requires 29 + k <= n <= |s|
    ensures var t := s[..n];
      && t[0..4] == s[0..4] && t[4..21] == s[4..21] && t[21..25] == s[21..25] && t[25..25 + k] == s[25..25 + k]
      && t[25 + k..n - 4] == s[25 + k..n - 4] && t[n - 4..] == s[n - 4..n]
  {
  }

  lemma HeadFieldsAgree(a: Bytes, b: Bytes, k: nat)
    requires |a| == |b| >= 29 + k
    requires a[0..4] == b[0..4] && a[4..21] == b[4..21] && a[21..25] == b[21..25] && a[25..25 + k] == b[25..25 + k]
    requires a[25 + k..|a| - 4] == b[25 + k..|a| - 4]
    ensures a[..|a| - 4] == b[..|a| - 4]
  {
    var n := |a| - 4;
    assert a[..n] == a[0..4] + a[4..21] + a[21..25] + a[25..25 + k] + a[25 + k..n];
    assert b[..n] == b[0..4] + b[4..21] + b[21..25] + b[25..25 + k] + b[25 + k..n];
  }

  /** A reader accepts exactly the print of a readable record; the format is canonical. */
  lemma ReadRecordIff(reader: Reader, crc: Crc, s: Bytes, r: Record, n: nat)
    ensures ReadRecord(reader, crc, s) == Good(r, n) <==>
      Readable(r.op) && n == |RecordBytes(crc, r)| <= |s| && s[..n] == RecordBytes(crc, r)
  {
    hide Be32, Be64, RecordBytes, Crc.Of;
    RecordLength(crc, r);
    if |s| >= MIN_RECORD { FieldsCanonical(s); }
    if Readable(r.op) && RecordSize(r.op) <= |s| {
      RecordLayout(crc, s, r);
    }
  }

  /**
   * The engine accepts values of up to 2^24 bytes, but a reader refuses records over 2^24 bytes: what was
   * accepted can be read back exactly when record framing, key and value together stay within that limit.
   */
  lemma SubmittedReadsBack(reader: Reader, crc: Crc, r: Record, rest: Bytes)
    requires Submittable(r.op)
    ensures ReadRecord(reader, crc, RecordBytes(crc, r) + rest) == Good(r, |RecordBytes(crc, r)|)
      <==> MIN_RECORD + |r.op.key| + |r.op.value| <= MAX_RECORD
    ensures MIN_RECORD + |r.op.key| + |r.op.value| > MAX_RECORD ==>
      ReadRecord(reader, crc, RecordBytes(crc, r) + rest) == Bad(TotalLenInvalid)
  {
    hide Be32, Be64, RecordBytes, Crc.Of, ReadRecord;
    var b := RecordBytes(crc, r);
    assert (b + rest)[..|b|] == b;
    ReadRecordIff(reader, crc, b + rest, r, |b|);
    if RecordSize(r.op) > MAX_RECORD {
      RecordFields(crc, r);
      assert (b + rest)[0..4] == b[0..4];
      Be32At(b + rest, 0, RecordSize(r.op));
      TooLong(reader, crc, b + rest);
    }
  }

  lemma TooLong(reader: Reader, crc: Crc, s: Bytes)
    requires |s| >= 4 && Be32(s, 0) > MAX_RECORD
    ensures ReadRecord(reader, crc, s) == Bad(TotalLenInvalid)
  {
  }

  /** The smallest operation the engine accepts and cannot read back. */
  lemma AcceptedButUnreadable(value: Bytes)
    requires |value| == MAX_VALUE
    ensures Submittable(Operation(Put, [0], value)) && !Readable(Operation(Put, [0], value))
  {
  }

  /** Too short for the record it announces. */
  predicate Unfinished(s: Bytes) {
    && 0 < |s|
    && (|s| < 4 || (MIN_RECORD <= Be32(s, 0) <= MAX_RECORD && |s| < Be32(s, 0)))
  }

  lemma UnfinishedIff(reader: Reader, crc: Crc, s: Bytes)
    requires s != []
    ensures ReadRecord(reader, crc, s) == Torn <==> Unfinished(s)
  {
    hide Be32;
  }

  /** A proper, non-empty part of a record or of an unfinished tail is unfinished. */
  lemma PrefixUnfinished(crc: Crc, r: Record, s: Bytes, n: nat)
    requires 0 < n < |s| && ((s == RecordBytes(crc, r) && Readable(r.op)) || Unfinished(s))
    ensures Unfinished(s[..n])
  {
    hide RecordBytes, GetBE;
    if n >= 4 {
      assert s[..n][0..4] == s[0..4];
      if !Unfinished(s) {
        RecordFields(crc, r);
        Be32At(s, 0, RecordSize(r.op));
      }
    }
  }

  // ------------------------------------------------------------------ the segment header

  datatype Header = Header(segment: u64, first: u64)

  /** The packed header without its checksum; flags are zero. */
  function HeaderHead(h: Header): (s: Bytes)
    ensures |s| == 28
  {
    WAL_MAGIC + PutLE(2, 3) + PutLE(2, HEADER_SIZE) + PutLE(4, 0) + PutLE(8, h.segment) + PutLE(8, h.first)
  }

  function HeaderBytes(crc: Crc, h: Header): (s: Bytes)
    ensures |s| == HEADER_SIZE
  {
    HeaderHead(h) + PutLE(4, crc.Of(HeaderHead(h)))
  }

  lemma LEBound(s: Bytes)
    ensures GetLE(s) < Pow256(|s|)
  {
    GetBEBound(Reversed(s));
  }

  /** Both readers make the same checks on a header; flags are not looked at. */
  function ReadHeader(crc: Crc, file: Bytes): (r: Result<Header, ReadError>)
    ensures r.Success? ==> |file| >= HEADER_SIZE
  {
    if |file| < HEADER_SIZE then Failure(HeaderTruncated)
    else if file[0..4] != WAL_MAGIC || GetLE(file[4..6]) != 3 || GetLE(file[6..8]) != HEADER_SIZE
         || GetLE(file[28..32]) != crc.Of(file[..28])
    then Failure(HeaderInvalid)
    else
      Pow256Widths(); LEBound(file[12..20]); LEBound(file[20..28]);
      Success(Header(GetLE(file[12..20]), GetLE(file[20..28])))
  }

  /** A header reads back as written, whatever follows. */
  lemma HeaderRoundTrip(crc: Crc, h: Header, rest: Bytes)
    ensures ReadHeader(crc, HeaderBytes(crc, h) + rest) == Success(h)
  {
    hide PutLE, GetLE, Crc.Of;
    var f, c := HeaderBytes(crc, h) + rest, crc.Of(HeaderHead(h));
    Pow256Widths();
    LittleEndianRoundTrip(2, 3);
    LittleEndianRoundTrip(2, HEADER_SIZE);
    LittleEndianRoundTrip(8, h.segment);
    LittleEndianRoundTrip(8, h.first);
    LittleEndianRoundTrip(4, c);
    assert f[..28] == HeaderHead(h) && f[28..32] == PutLE(4, c);
    HeaderSlices(h);
    HeadSlices(f);
  }

  lemma HeaderSlices(h: Header)
    ensures var s := HeaderHead(h);
      && s[0..4] == WAL_MAGIC && s[4..6] == PutLE(2, 3) && s[6..8] == PutLE(2, HEADER_SIZE)
      && s[12..20] == PutLE(8, h.segment) && s[20..28] == PutLE(8, h.first)
  {
    hide PutLE;
  }

  lemma HeadSlices(f: Bytes)
    requires |f| >= 28
    ensures var s := f[..28];
      && s[0..4] == f[0..4] && s[4..6] == f[4..6] && s[6..8] == f[6..8]
      && s[12..20] == f[12..20] && s[20..28] == f[20..28]
  {
  }

  lemma LEAt(s: Bytes, v: nat)
    requires v < Pow256(|s|)
    ensures GetLE(s) == v <==> s == PutLE(|s|, v)
  {
    LittleEndianRoundTrip(|s|, v);
    LittleEndianBack(s);
  }

  /** The first 32 bytes are a header for h: "BDW3", version 3, size 32, any flags, and the checksum of the first 28. */
  ghost predicate HeaderIs(crc: Crc, file: Bytes, h: Header) {
    && |file| >= 32 && file[0..4] == [66, 68, 87, 51] && file[4..6] == [3, 0] && file[6..8] == [32, 0]
    && file[12..20] == PutLE(8, h.segment) && file[20..28] == PutLE(8, h.first)
    && file[28..32] == PutLE(4, crc.Of(file[..28]))
  }

  lemma SmallLE()
    ensures PutLE(2, 3) == [3, 0] && PutLE(2, 32) == [32, 0]
  {
    LEAt([3, 0], 3);
    LEAt([32, 0], 32);
    assert Reversed([3, 0]) == [0, 3] && Reversed([32, 0]) == [0, 32];
    assert [0, 3][..1] == [0] && [0, 32][..1] == [0] && [0][..0] == [];
    assert GetBE([]) == 0 && GetBE([0]) == 0;
    Pow256Widths();
  }

  /** A header is read exactly when the first 32 bytes are one; otherwise there are too few, or it is invalid. */
  lemma ReadHeaderIff(crc: Crc, file: Bytes, h: Header)
    ensures ReadHeader(crc, file) == Success(h) <==> HeaderIs(crc, file, h)
    ensures ReadHeader(crc, file) == Failure(HeaderTruncated) <==> |file| < 32
  {
    hide PutLE, GetLE, Crc.Of;
    if |file| >= 32 {
      Pow256Widths();
      SmallLE();
      LEAt(file[4..6], 3);
      LEAt(file[6..8], 32);
      LEAt(file[12..20], h.segment);
      LEAt(file[20..28], h.first);
      LEAt(file[28..32], crc.Of(file[..28]));
    }
  }

  /** A printed header is one, with flags zero. */
  lemma HeaderLayout(crc: Crc, h: Header, rest: Bytes)
    ensures HeaderIs(crc, HeaderBytes(crc, h) + rest, h) && (HeaderBytes(crc, h) + rest)[8..12] == [0, 0, 0, 0]
  {
    hide PutLE, Crc.Of;
    HeaderRoundTrip(crc, h, rest);
    ReadHeaderIff(crc, HeaderBytes(crc, h) + rest, h);
    ZeroLE();
    assert (HeaderBytes(crc, h) + rest)[8..12] == PutLE(4, 0);
  }

  lemma ZeroLE()
    ensures PutLE(4, 0) == [0, 0, 0, 0]
  {
    LEAt([0, 0, 0, 0], 0);
    assert Reversed([0, 0, 0, 0]) == [0, 0, 0, 0];
    GetBEFirst([0, 0, 0, 0]);
    GetBEFirst([0, 0, 0]);
    GetBEFirst([0, 0]);
    assert [0, 0, 0, 0][1..] == [0, 0, 0] && [0, 0, 0][1..] == [0, 0] && [0, 0][1..] == [0];
    assert GetBE([0]) == 0 by { assert [0][..0] == []; assert GetBE([]) == 0; }
  }

  // ------------------------------------------------------------------ damage

  /** A whole record whose last four bytes are not the checksum of the others is refused. */
  lemma WrongRecordSum(reader: Reader, crc: Crc, s: Bytes)
    requires |s| >= 4 && MIN_RECORD <= Be32(s, 0) <= MAX_RECORD && Be32(s, 0) <= |s|
    requires Be32(s, Be32(s, 0) - 4) != crc.Of(s[..Be32(s, 0) - 4])
    ensures ReadRecord(reader, crc, s).Bad?
    ensures FieldsValid(crc, s) && s[12] in {1, 2} && Be32(s, 13) + Be32(s, 17) + MIN_RECORD == Be32(s, 0) ==>
      ReadRecord(reader, crc, s) == Bad(RecordCrcMismatch)
  {
    hide Be32, Be64, FieldsValid, Decoded, Crc.Of;
  }

  /** With a checksum like CRC-32, a record with one byte changed behind its length is refused by both readers. */
  lemma DamagedRecord(reader: Reader, crc: Crc, r: Record, rest: Bytes, i: nat, b: byte)
    requires crc.Sharp() && Readable(r.op) && 4 <= i < |RecordBytes(crc, r)| && RecordBytes(crc, r)[i] != b
    ensures ReadRecord(reader, crc, RecordBytes(crc, r)[i := b] + rest).Bad?
  {
    hide Be32, RecordBytes, RecordHead, Crc.Of, Crc.Sharp, ReadRecord;
    var f, n := RecordBytes(crc, r), RecordSize(r.op);
    RecordFields(crc, r);
    RecordLength(crc, r);
    var s, m := f[i := b] + rest, n - 4;
    assert s[0..4] == f[0..4];
    Be32At(s, 0, n);
    assert s[..m] == f[i := b][..m] && s[m..n] == f[i := b][m..];
    ChangedSum(crc, f, m, i, b);
    Be32At(s, m, crc.Of(s[..m]));
    WrongRecordSum(reader, crc, s);
  }
}
