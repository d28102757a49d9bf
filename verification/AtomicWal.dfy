/**
 * The BDW4 atomic batch log: printing a batch as one framed record, and replaying a byte string
 * frame by frame with all-or-nothing batches.
 */
module AtomicWal {
  import opened Bytes
  import opened Options
  import opened Store

  const MAGIC: Bytes := [66, 68, 87, 52]  // "BDW4"
  const VERSION: nat := 4
  const FIXED_PREFIX: nat := 24
  const TRAILER: nat := 4
  const MAX_FRAME: nat := 0x800_0000
  const MAX_OPERATIONS: nat := 1_000_000

  datatype Batch = Batch(sequence: u64, ops: seq<Operation>)

  // ------------------------------------------------------------------ printing

  predicate ValidOp(op: Operation) {
    && 0 < |op.key| <= MAX_KEY && |op.value| <= MAX_VALUE
    && (op.kind == Delete ==> op.value == [])
  }

  function OpBytes(op: Operation): Bytes {
    [Tag(op.kind)] + Put32(|op.key|) + Put32(|op.value|) + op.key + op.value
  }

  function OpsBytes(ops: seq<Operation>): Bytes {
    if ops == [] then [] else OpBytes(ops[0]) + OpsBytes(ops[1..])
  }

  function FrameSize(ops: seq<Operation>): nat {
    FIXED_PREFIX + |OpsBytes(ops)| + TRAILER
  }

  /** What follows the length, up to the operations. */
  function BodyPrefix(sequence: u64, count: nat): (s: Bytes)
    ensures |s| == FIXED_PREFIX - 4
  {
    MAGIC + Put32(VERSION) + Put64(sequence) + Put32(count)
  }

  /** The frame without its trailing checksum. */
  function Head(sequence: u64, ops: seq<Operation>): Bytes {
    Put32(FrameSize(ops)) + (BodyPrefix(sequence, |ops|) + OpsBytes(ops))
  }

  function Frame(crc: Crc, b: Batch): Bytes {
    Head(b.sequence, b.ops) + Put32(crc.Of(Head(b.sequence, b.ops)))
  }

  /** All operations are valid. */
  predicate AllValid(ops: seq<Operation>) {
    forall i :: 0 <= i < |ops| ==> ValidOp(ops[i])
  }

  /** Operation lists that fit a frame. */
  predicate Encodable(ops: seq<Operation>) {
    && 0 < |ops| <= MAX_OPERATIONS
    && AllValid(ops)
    && FrameSize(ops) <= MAX_FRAME
  }

  datatype EncodeError = ZeroSequence | EmptyBatch | BatchTooLarge | InvalidSize | DeleteWithValue | FrameTooLarge

  lemma {:induction false} OpsBytesAppend(ops: seq<Operation>, op: Operation)
    ensures OpsBytes(ops + [op]) == OpsBytes(ops) + OpBytes(op)
  {
    if ops == [] {
      assert (ops + [op])[1..] == [];
    } else {
      assert (ops + [op])[1..] == ops[1..] + [op];
      OpsBytesAppend(ops[1..], op);
    }
  }

  lemma OpsBytesTake(ops: seq<Operation>, i: nat)
    requires i < |ops|
    ensures OpsBytes(ops[..i + 1]) == OpsBytes(ops[..i]) + OpBytes(ops[i])
  {
    OpsBytesAppend(ops[..i], ops[i]);
    assert ops[..i] + [ops[i]] == ops[..i + 1];
  }

  predicate SizesValid(op: Operation) {
    0 < |op.key| <= MAX_KEY && |op.value| <= MAX_VALUE
  }

  /** The first check that fails, in the order of the source: number, count, each operation in turn, whole size. */
  ghost predicate FirstError(sequence: u64, ops: seq<Operation>, e: EncodeError) {
    match e
    case ZeroSequence => sequence == 0
    case EmptyBatch => sequence != 0 && ops == []
    case BatchTooLarge => sequence != 0 && |ops| > MAX_OPERATIONS
    case InvalidSize =>
      sequence != 0 && |ops| <= MAX_OPERATIONS
      && exists i :: 0 <= i < |ops| && AllValid(ops[..i]) && !SizesValid(ops[i])
    case DeleteWithValue =>
      sequence != 0 && |ops| <= MAX_OPERATIONS
      && exists i :: 0 <= i < |ops| && AllValid(ops[..i]) && SizesValid(ops[i]) && !ValidOp(ops[i])
    case FrameTooLarge =>
      sequence != 0 && 0 < |ops| <= MAX_OPERATIONS && AllValid(ops) && FrameSize(ops) > MAX_FRAME
  }

  /** At most one check is the first to fail. */
  lemma FirstErrorUnique(sequence: u64, ops: seq<Operation>, e: EncodeError, f: EncodeError)
    requires FirstError(sequence, ops, e) && FirstError(sequence, ops, f)
    ensures e == f && !(sequence != 0 && Encodable(ops))
  {
    forall i | 0 <= i < |ops| && AllValid(ops[..i]) ensures forall k :: 0 <= k < i ==> ValidOp(ops[k]) {
      forall k | 0 <= k < i ensures ValidOp(ops[k]) {
        assert ops[..i][k] == ops[k];
      }
    }
  }

  /** Prints a batch, or says which check is the first to fail. */
  method EncodeBatch(crc: Crc, sequence: u64, ops: seq<Operation>) returns (r: Result<Bytes, EncodeError>)
    ensures r.Success? <==> sequence != 0 && Encodable(ops)
    ensures r.Success? ==> r.value == Frame(crc, Batch(sequence, ops))
    ensures r.Failure? ==> FirstError(sequence, ops, r.error)
  {
    hide OpBytes, OpsBytes, BodyPrefix, Put32;
    if sequence == 0 { return Failure(ZeroSequence); }
    if ops == [] { return Failure(EmptyBatch); }
    if |ops| > MAX_OPERATIONS { return Failure(BatchTooLarge); }
    var body := BodyPrefix(sequence, |ops|);
    NoOpsBytes();
    assert body == BodyPrefix(sequence, |ops|) + OpsBytes(ops[..0]);
    for i := 0 to |ops|
      invariant body == BodyPrefix(sequence, |ops|) + OpsBytes(ops[..i])
      invariant forall j :: 0 <= j < i ==> ValidOp(ops[j])
    {
      var op := ops[i];
      if op.key == [] || |op.key| > MAX_KEY || |op.value| > MAX_VALUE { return Failure(InvalidSize); }
      if op.kind == Delete && op.value != [] { return Failure(DeleteWithValue); }
      OpsBytesTake(ops, i);
      body := body + OpBytes(op);
    }
    assert ops[..|ops|] == ops;
    var totalSize := 4 + |body| + TRAILER;
    if totalSize > MAX_FRAME { return Failure(FrameTooLarge); }
    var frame := Put32(totalSize) + body;
    return Success(frame + Put32(crc.Of(frame)));
  }

  lemma NoOpsBytes()
    ensures OpsBytes([]) == []
  {
  }

  // ------------------------------------------------------------------ parsing operations

  datatype WalError =
    | TotalLengthInvalid | MagicMismatch | VersionUnsupported | CrcMismatch | SequenceGap | CountInvalid
    | OperationHeaderTruncated | OperationBoundsInvalid | OperationPayloadTruncated | OperationTypeInvalid
    | DeleteContainsValue | TrailingPayload

  datatype Parsed<T> = Parsed(value: T, used: nat)

  /** Reads one operation from the front of the remaining payload. */
  function ParseOp(s: Bytes): Result<Parsed<Operation>, WalError> {
    if |s| < 9 then Failure(OperationHeaderTruncated)
    else
      var tag, keyLen, valueLen := s[0], Be32(s, 1), Be32(s, 5);
      if keyLen == 0 || keyLen > MAX_KEY || valueLen > MAX_VALUE then Failure(OperationBoundsInvalid)
      else if 9 + keyLen + valueLen > |s| then Failure(OperationPayloadTruncated)
      else if tag != 1 && tag != 2 then Failure(OperationTypeInvalid)
      else if tag == 2 && valueLen != 0 then Failure(DeleteContainsValue)
      else
        var kind := if tag == 1 then Put else Delete;
        var end := 9 + keyLen + valueLen;
        Success(Parsed(Operation(kind, s[9..9 + keyLen], s[9 + keyLen..end]), end))
  }

  /** Reads count operations one after the other. */
  function ParseOps(s: Bytes, count: nat): Result<Parsed<seq<Operation>>, WalError> {
    if count == 0 then Success(Parsed([], 0))
    else match ParseOp(s)
      case Failure(e) => Failure(e)
      case Success(p) =>
        if p.used > |s| then Failure(OperationPayloadTruncated)
        else match ParseOps(s[p.used..], count - 1)
          case Failure(e) => Failure(e)
          case Success(q) => Success(Parsed([p.value] + q.value, p.used + q.used))
  }

  /** The bytes of one operation, field by field. */
  lemma OpLayout(s: Bytes, op: Operation)
    requires |op.key| <= MAX_KEY && |op.value| <= MAX_VALUE
    requires 9 + |op.key| + |op.value| <= |s|
    ensures s[..9 + |op.key| + |op.value|] == OpBytes(op) <==>
      && s[0] == Tag(op.kind) && Be32(s, 1) == |op.key| && Be32(s, 5) == |op.value|
      && s[9..9 + |op.key|] == op.key && s[9 + |op.key|..9 + |op.key| + |op.value|] == op.value
  {
    hide PutBE, GetBE, Put32, Be32;
    var n, k := 9 + |op.key| + |op.value|, |op.key|;
    OpFields(op);
    Be32At(s, 1, |op.key|);
    Be32At(s, 5, |op.value|);
    var t := s[..n];
    assert t == [t[0]] + t[1..5] + t[5..9] + t[9..9 + k] + t[9 + k..n];
    assert t[0] == s[0] && t[1..5] == s[1..5] && t[5..9] == s[5..9];
    assert t[9..9 + k] == s[9..9 + k] && t[9 + k..n] == s[9 + k..n];
    var u := OpBytes(op);
    assert |u| == n && u == [u[0]] + u[1..5] + u[5..9] + u[9..9 + k] + u[9 + k..n];
  }

  lemma OpFields(op: Operation)
    ensures var u, k := OpBytes(op), |op.key|;
      && |u| == 9 + k + |op.value| && u[0] == Tag(op.kind) == (if op.kind == Put then 1 else 2)
      && u[1..5] == Put32(|op.key|) && u[5..9] == Put32(|op.value|)
      && u[9..9 + k] == op.key && u[9 + k..|u|] == op.value
  {
    hide Put32;
  }

  /** An operation is read exactly when the bytes start with the print of a valid operation. */
  lemma ParseOpIff(s: Bytes, op: Operation, n: nat)
    ensures ParseOp(s) == Success(Parsed(op, n)) <==>
      ValidOp(op) && n == |OpBytes(op)| <= |s| && s[..n] == OpBytes(op)
  {
    hide PutBE, GetBE, Be32, Put32;
    if ValidOp(op) && 9 + |op.key| + |op.value| <= |s| {
      OpLayout(s, op);
    }
  }

  lemma SliceSplit(s: Bytes, i: nat, j: nat)
    requires i + j <= |s|
    ensures s[..i + j] == s[..i] + s[i..][..j]
  {
  }

  lemma PrefixSuffix(a: Bytes, b: Bytes)
    ensures (a + b)[..|a|] == a && (a + b)[|a|..] == b
  {
  }

  lemma OpsBytesFirst(op: Operation, ops: seq<Operation>)
    ensures OpsBytes([op] + ops) == OpBytes(op) + OpsBytes(ops)
  {
    assert ([op] + ops)[1..] == ops;
  }

  /** The first operation, then the others. */
  lemma ParseOpsFirst(s: Bytes, count: nat, p: Parsed<Operation>, q: Parsed<seq<Operation>>)
    requires count > 0 && ParseOp(s) == Success(p) && p.used <= |s|
    requires ParseOps(s[p.used..], count - 1) == Success(q)
    ensures ParseOps(s, count) == Success(Parsed([p.value] + q.value, p.used + q.used))
  {
    hide ParseOp;
  }

  lemma ParsePrintedFirst(op: Operation, ops: seq<Operation>, rest: Bytes)
    requires ValidOp(op)
    requires ParseOps(OpsBytes(ops) + rest, |ops|) == Success(Parsed(ops, |OpsBytes(ops)|))
    ensures ParseOps(OpsBytes([op] + ops) + rest, |ops| + 1) == Success(Parsed([op] + ops, |OpsBytes([op] + ops)|))
  {
    hide ParseOp, ParseOps, OpBytes, OpsBytes, ValidOp;
    var b, t := OpBytes(op), OpsBytes(ops) + rest;
    OpsBytesFirst(op, ops);
    assert OpsBytes([op] + ops) + rest == b + t;
    PrefixSuffix(b, t);
    ParseOpIff(b + t, op, |b|);
    ParseOpsFirst(b + t, |ops| + 1, Parsed(op, |b|), Parsed(ops, |OpsBytes(ops)|));
  }

  /** Reading operations undoes printing them, whatever follows. */
  lemma {:induction false} ParsePrintedOps(ops: seq<Operation>, rest: Bytes)
    requires AllValid(ops)
    ensures ParseOps(OpsBytes(ops) + rest, |ops|) == Success(Parsed(ops, |OpsBytes(ops)|))
    decreases |ops|
  {
    if ops == [] {
      NoOpsBytes();
    } else {
      hide ParseOp, ParseOps, OpBytes, OpsBytes, ValidOp;
      ParsePrintedOps(ops[1..], rest);
      ParsePrintedFirst(ops[0], ops[1..], rest);
      assert [ops[0]] + ops[1..] == ops;
    }
  }

  /** Whatever is read as operations is the print of valid operations. */
  lemma {:induction false} PrintParsedOps(s: Bytes, count: nat, p: Parsed<seq<Operation>>)
    requires ParseOps(s, count) == Success(p)
    ensures |p.value| == count && p.used == |OpsBytes(p.value)| <= |s| && s[..p.used] == OpsBytes(p.value)
    ensures AllValid(p.value)
    decreases count
  {
    if count > 0 {
      hide ParseOp, OpBytes, OpsBytes, ValidOp;
      var first := ParseOp(s).value;
      ParseOpIff(s, first.value, first.used);
      var others := ParseOps(s[first.used..], count - 1).value;
      PrintParsedOps(s[first.used..], count - 1, others);
      OpsBytesFirst(first.value, others.value);
      SliceSplit(s, first.used, others.used);
    }
  }

  // ------------------------------------------------------------------ sequences

  /** What replay knows about sequences: where it began, the last accepted, and the legacy allowance. */
  datatype Expect = Expect(initial: u64, last: u64, started: bool, duplicateUsed: bool) {
    /** A log replayed from 0 may repeat one accepted sequence, once. */
    predicate Repeats(sequence: u64) {
      initial == 0 && started && !duplicateUsed && sequence == last
    }

    predicate Admits(sequence: u64) {
      sequence == Succ(last) || Repeats(sequence)
    }

    function After(sequence: u64): Expect {
      Expect(initial, sequence, true, duplicateUsed || Repeats(sequence))
    }
  }

  function Start(initial: u64): Expect {
    Expect(initial, initial, false, false)
  }

  // ------------------------------------------------------------------ parsing one frame

  datatype Probe = Torn | Bad(error: WalError) | Good(batch: Batch, size: nat)

  /** Looks at the front of the remaining log: a torn tail, a corrupt frame, or one accepted batch. */
  function ReadFrame(crc: Crc, x: Expect, s: Bytes): (r: Probe)
    ensures r.Good? ==> FIXED_PREFIX + TRAILER <= r.size <= |s|
  {
    if |s| < 4 then Torn
    else
      var total := Be32(s, 0);
      if total < FIXED_PREFIX + TRAILER || total > MAX_FRAME then Bad(TotalLengthInvalid)
      else if |s| < total then Torn
      else if s[4..8] != MAGIC then Bad(MagicMismatch)
      else if Be32(s, 8) != VERSION then Bad(VersionUnsupported)
      else if Be32(s, total - 4) != crc.Of(s[..total - 4]) then Bad(CrcMismatch)
      else if !x.Admits(Be64(s, 12)) then Bad(SequenceGap)
      else if Be32(s, 20) == 0 || Be32(s, 20) > MAX_OPERATIONS then Bad(CountInvalid)
      else match ParseOps(s[24..total - 4], Be32(s, 20))
        case Failure(e) => Bad(e)
        case Success(p) =>
          if p.used != total - FIXED_PREFIX - TRAILER then Bad(TrailingPayload)
          else Good(Batch(Be64(s, 12), p.value), total)
  }

  /** Two byte strings of one length agree exactly when their fields do. */
  lemma FieldsAgree(a: Bytes, b: Bytes)
    requires |a| == |b| >= 24
    ensures a == b <==>
      && a[0..4] == b[0..4] && a[4..8] == b[4..8] && a[8..12] == b[8..12] && a[12..20] == b[12..20]
      && a[20..24] == b[20..24] && a[24..] == b[24..]
  {
    assert a == a[0..4] + a[4..8] + a[8..12] + a[12..20] + a[20..24] + a[24..];
    assert b == b[0..4] + b[4..8] + b[8..12] + b[12..20] + b[20..24] + b[24..];
  }

  lemma HeadFields(sequence: u64, ops: seq<Operation>)
    ensures |Head(sequence, ops)| == FrameSize(ops) - 4
    ensures var h := Head(sequence, ops);
      && h[0..4] == Put32(FrameSize(ops)) == Put32(28 + |OpsBytes(ops)|)
      && h[4..8] == MAGIC == [66, 68, 87, 52] && h[8..12] == Put32(VERSION) == Put32(4)
      && h[12..20] == Put64(sequence) && h[20..24] == Put32(|ops|) && h[24..] == OpsBytes(ops)
  {
    hide PutBE, Put32, Put64, OpsBytes;
    var h, p := Head(sequence, ops), BodyPrefix(sequence, |ops|);
    assert p[0..4] == MAGIC && p[4..8] == Put32(VERSION) && p[8..16] == Put64(sequence) && p[16..20] == Put32(|ops|);
    assert h[4..24] == p;
    assert h[4..24][0..4] == h[4..8] && h[4..24][4..8] == h[8..12];
    assert h[4..24][8..16] == h[12..20] && h[4..24][16..20] == h[20..24];
  }

  /** The head of a frame, field by field. */
  lemma HeadLayout(s: Bytes, b: Batch)
    requires FrameSize(b.ops) <= |s| && FrameSize(b.ops) <= MAX_FRAME && |b.ops| <= MAX_OPERATIONS
    ensures var m := FrameSize(b.ops) - 4; s[..m] == Head(b.sequence, b.ops) <==>
      && Be32(s, 0) == FrameSize(b.ops) && s[4..8] == MAGIC && Be32(s, 8) == VERSION
      && Be64(s, 12) == b.sequence && Be32(s, 20) == |b.ops| && s[24..m] == OpsBytes(b.ops)
  {
    hide Be32, Be64, Put32, Put64, OpsBytes, Head, FrameSize;
    FrameSizeBound(b.ops);
    var m := FrameSize(b.ops) - 4;
    HeadFields(b.sequence, b.ops);
    FieldsAgree(s[..m], Head(b.sequence, b.ops));
    Be32At(s, 0, FrameSize(b.ops));
    Be32At(s, 8, VERSION);
    Be64At(s, 12, b.sequence);
    Be32At(s, 20, |b.ops|);
    SameSlices(s, m);
  }

  lemma FrameSizeBound(ops: seq<Operation>)
    ensures FrameSize(ops) >= FIXED_PREFIX + TRAILER
  {
  }

  lemma SameSlices(s: Bytes, m: nat)
    requires 24 <= m <= |s|
    ensures var t := s[..m];
      && t[0..4] == s[0..4] && t[4..8] == s[4..8] && t[8..12] == s[8..12]
      && t[12..20] == s[12..20] && t[20..24] == s[20..24] && t[24..] == s[24..m]
  {
  }

  /** A whole frame: its head, then the checksum of its head. */
  lemma FrameLayout(crc: Crc, s: Bytes, b: Batch)
    requires FrameSize(b.ops) <= |s|
    ensures |Frame(crc, b)| == FrameSize(b.ops)
    ensures var n := FrameSize(b.ops);
      s[..n] == Frame(crc, b) <==> s[..n - 4] == Head(b.sequence, b.ops) && Be32(s, n - 4) == crc.Of(s[..n - 4])
  {
    hide Be32, Put32, OpsBytes, Head, Crc.Of;
    HeadFields(b.sequence, b.ops);
    var n, h := FrameSize(b.ops), Head(b.sequence, b.ops);
    var c := crc.Of(h);
    Be32At(s, n - 4, c);
    assert s[..n] == s[..n - 4] + s[n - 4..n];
    assert Frame(crc, b)[..n - 4] == h && Frame(crc, b)[n - 4..] == Put32(c);
  }

  /** A batch is accepted exactly when the log starts with the frame of an encodable batch in sequence. */
  lemma ReadFrameIff(crc: Crc, x: Expect, s: Bytes, b: Batch, n: nat)
    ensures ReadFrame(crc, x, s) == Good(b, n) <==>
      && Encodable(b.ops) && x.Admits(b.sequence) && n == |Frame(crc, b)| <= |s| && s[..n] == Frame(crc, b)
  {
    hide Be32, Be64, Put32, Put64, OpsBytes, Head, Frame, Crc.Of, ParseOps, Expect.Admits, ValidOp;
    FrameLength(crc, b);
    if ReadFrame(crc, x, s) == Good(b, n) {
      PrintParsedOps(s[24..n - 4], Be32(s, 20), Parsed(b.ops, n - 28));
    }
    if Encodable(b.ops) && FrameSize(b.ops) <= |s| {
      FrameLayout(crc, s, b);
      HeadLayout(s, b);
      ParsePrintedOps(b.ops, []);
      assert OpsBytes(b.ops) + [] == OpsBytes(b.ops);
    }
  }

  lemma FrameLength(crc: Crc, b: Batch)
    ensures |Frame(crc, b)| == FrameSize(b.ops) >= FIXED_PREFIX + TRAILER
  {
    hide Put32;
  }

  // ------------------------------------------------------------------ torn and damaged frames

  /** The tail is torn exactly when it is shorter than its length field, or than an admissible length given there. */
  lemma FrameTornIff(crc: Crc, x: Expect, s: Bytes)
    ensures ReadFrame(crc, x, s) == Torn <==> |s| < 4 || (28 <= Be32(s, 0) <= 0x800_0000 && |s| < Be32(s, 0))
  {
    hide Be32, Be64, Crc.Of, ParseOps, Expect.Admits;
  }

  /** A whole frame whose last four bytes are not the checksum of the others is refused. */
  lemma WrongFrameSum(crc: Crc, x: Expect, s: Bytes)
    requires |s| >= 8 && FIXED_PREFIX + TRAILER <= Be32(s, 0) <= MAX_FRAME && Be32(s, 0) <= |s|
    requires Be32(s, Be32(s, 0) - 4) != crc.Of(s[..Be32(s, 0) - 4])
    ensures ReadFrame(crc, x, s) == Bad(
      if s[4..8] != MAGIC then MagicMismatch else if Be32(s, 8) != VERSION then VersionUnsupported else CrcMismatch)
  {
    hide Be32, Be64, Crc.Of, ParseOps, Expect.Admits;
  }

  /** With a checksum like CRC-32, a frame with one byte changed behind its length is corrupt, not torn. */
  lemma DamagedFrame(crc: Crc, x: Expect, batch: Batch, rest: Bytes, i: nat, b: byte)
    requires crc.Sharp() && Encodable(batch.ops)
    requires 4 <= i < |Frame(crc, batch)| && Frame(crc, batch)[i] != b
    ensures ReadFrame(crc, x, Frame(crc, batch)[i := b] + rest).Bad?
  {
    hide Be32, Frame, Head, Put32, OpsBytes, Crc.Of, Crc.Sharp, ReadFrame, FrameSize;
    var f, n := Frame(crc, batch), FrameSize(batch.ops);
    FrameLength(crc, batch);
    FrameParts(crc, batch);
    var s, m := f[i := b] + rest, n - 4;
    assert s[0..4] == f[0..4];
    Be32At(s, 0, n);
    assert s[..m] == f[i := b][..m] && s[m..n] == f[i := b][m..];
    ChangedSum(crc, f, m, i, b);
    Be32At(s, m, crc.Of(s[..m]));
    WrongFrameSum(crc, x, s);
  }

  lemma FrameParts(crc: Crc, b: Batch)
    ensures var f, n := Frame(crc, b), FrameSize(b.ops);
      |f| == n >= 28 && f[0..4] == Put32(n) && f[n - 4..] == Put32(crc.Of(f[..n - 4]))
  {
    hide Put32, OpsBytes, Head, Crc.Of, FrameSize;
    HeadFields(b.sequence, b.ops);
    FrameLength(crc, b);
    var h := Head(b.sequence, b.ops);
    assert Frame(crc, b)[..|h|] == h && h[0..4] == Frame(crc, b)[0..4];
  }

  /** A printed frame whose number is not the one expected is refused for that reason. */
  lemma WrongNumber(crc: Crc, x: Expect, b: Batch, rest: Bytes)
    requires Encodable(b.ops) && !x.Admits(b.sequence)
    ensures ReadFrame(crc, x, Frame(crc, b) + rest) == Bad(SequenceGap)
  {
    hide Be32, Be64, Put32, Put64, OpsBytes, Head, Frame, Crc.Of, ParseOps, Expect.Admits, ValidOp;
    var s := Frame(crc, b) + rest;
    FrameLength(crc, b);
    assert s[..FrameSize(b.ops)] == Frame(crc, b);
    FrameLayout(crc, s, b);
    HeadLayout(s, b);
  }
}
