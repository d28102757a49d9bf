/** The BDW4 replay loop, and the order of the sequences it accepts. */
module AtomicRecovery {
  import opened Bytes
  import opened KeyOrder
  import opened Options
  import opened Store
  import opened AtomicWal
  import opened AtomicReplay

  // ------------------------------------------------------------------ the loop

  datatype ReplayResult = ReplayResult(
    lastGood: nat, tornTail: bool, lastSequence: u64, committedBatches: nat, replayedOperations: nat)

  /** A parse result after operations that were read before it. */
  function Resumed(done: seq<Operation>, used: nat, r: Result<Parsed<seq<Operation>>, WalError>)
    : Result<Parsed<seq<Operation>>, WalError>
  {
    match r
    case Failure(e) => Failure(e)
    case Success(q) => Success(Parsed(done + q.value, used + q.used))
  }

  lemma ResumedStart(r: Result<Parsed<seq<Operation>>, WalError>)
    ensures Resumed([], 0, r) == r
  {
    if r.Success? { assert [] + r.value.value == r.value.value; }
  }

  lemma ResumedStep(done: seq<Operation>, used: nat, p: Parsed<Operation>, r: Result<Parsed<seq<Operation>>, WalError>)
    ensures Resumed(done, used, Resumed([p.value], p.used, r)) == Resumed(done + [p.value], used + p.used, r)
  {
    if r.Success? { assert done + ([p.value] + r.value.value) == done + [p.value] + r.value.value; }
  }

  /** Reads count operations from a payload. */
  method DecodeOps(s: Bytes, count: nat) returns (r: Result<Parsed<seq<Operation>>, WalError>)
    ensures r == ParseOps(s, count)
  {
    hide ParseOp;
    var decoded: seq<Operation> := [];
    var cursor: nat := 0;
    assert s[0..] == s;
    ResumedStart(ParseOps(s, count));
    for i := 0 to count
      invariant cursor <= |s|
      invariant ParseOps(s, count) == Resumed(decoded, cursor, ParseOps(s[cursor..], count - i))
    {
      var p := ParseOp(s[cursor..]);
      if p.Failure? { return Failure(p.error); }
      ParseOpIff(s[cursor..], p.value.value, p.value.used);
      assert s[cursor..][p.value.used..] == s[cursor + p.value.used..];
      ResumedStep(decoded, cursor, p.value, ParseOps(s[cursor + p.value.used..], count - i - 1));
      decoded := decoded + [p.value.value];
      cursor := cursor + p.value.used;
    }
    assert decoded + [] == decoded;
    return Success(Parsed(decoded, cursor));
  }

  /** Applies the operations of a validated batch one by one. */
  method ApplyOps(m: Map, ops: seq<Operation>) returns (m': Map)
    ensures m' == Apply(m, ops)
  {
    m' := m;
    assert ops[..0] == [];
    for i := 0 to |ops|
      invariant m' == Apply(m, ops[..i])
    {
      if ops[i].kind == Put { m' := m'[ops[i].key := ops[i].value]; } else { m' := m' - {ops[i].key}; }
      assert ops[..i + 1][..i] == ops[..i];
    }
    assert ops[..|ops|] == ops;
  }

  /** A scan result after frames that were accepted before it. */
  function Continued(done: seq<Batch>, used: nat, r: Scanned): Scanned {
    Scanned(done + r.batches, used + r.used, r.torn, r.error)
  }

  lemma ScanStep(crc: Crc, x: Expect, bytes: Bytes, pos: nat, done: seq<Batch>)
    requires pos < |bytes| && ReadFrame(crc, x, bytes[pos..]).Good?
    ensures var p := ReadFrame(crc, x, bytes[pos..]);
      && pos + p.size <= |bytes|
      && Continued(done, pos, Scan(crc, x, bytes[pos..]))
        == Continued(done + [p.batch], pos + p.size, Scan(crc, x.After(p.batch.sequence), bytes[pos + p.size..]))
  {
    hide ReadFrame, Expect.Admits, Expect.After;
    var p := ReadFrame(crc, x, bytes[pos..]);
    assert bytes[pos..][p.size..] == bytes[pos + p.size..];
  }

  lemma AcceptOne(x: Expect, m: Map, done: seq<Batch>, b: Batch)
    ensures AfterAll(x, done + [b]) == AfterAll(x, done).After(b.sequence)
    ensures ApplyBatches(m, done + [b]) == Apply(ApplyBatches(m, done), b.ops)
    ensures OperationCount(done + [b]) == OperationCount(done) + |b.ops|
  {
    AdmissibleConcat(x, done, [b]);
    AdmissibleSingle(AfterAll(x, done), b);
    assert (done + [b])[..|done|] == done;
  }

  /**
   * Replays a log into a map. Every accepted batch is applied whole; when a later frame is corrupt,
   * the map still holds exactly the batches accepted before it.
   */
  method Replay(crc: Crc, bytes: Bytes, state: Map, initial: u64)
    returns (result: ReplayResult, state': Map, error: Option<WalError>)
    ensures var r := Scan(crc, Start(initial), bytes);
      && error == r.error && state' == ApplyBatches(state, r.batches)
      && result == ReplayResult(r.used, r.torn, AfterAll(Start(initial), r.batches).last,
                                |r.batches|, OperationCount(r.batches))
  {
    hide ReadFrame, Expect.Admits, Expect.After, Scan, AfterAll, ApplyBatches, OperationCount;
    var x := Start(initial);
    var pos := 0;
    var committed, operations, torn := 0, 0, false;
    ghost var done: seq<Batch> := [];
    state' := state;
    error := None;
    NothingDone(x, state);
    assert bytes[0..] == bytes;
    while pos < |bytes| && !torn && error == None
      invariant pos <= |bytes| && committed == |done| && operations == OperationCount(done)
      invariant x == AfterAll(Start(initial), done) && state' == ApplyBatches(state, done)
      invariant !torn && error == None ==>
        Scan(crc, Start(initial), bytes) == Continued(done, pos, Scan(crc, x, bytes[pos..]))
      invariant torn || error != None ==> Scan(crc, Start(initial), bytes) == Scanned(done, pos, torn, error)
      decreases |bytes| - pos, !torn && error == None
    {
      var p := ReadFrameAt(crc, x, bytes, pos);
      ScanHere(crc, x, bytes[pos..]);
      assert done + [] == done;
      match p {
        case Torn => torn := true;
        case Bad(e) => error := Some(e);
        case Good(b, n) =>
          ScanStep(crc, x, bytes, pos, done);
          AcceptOne(Start(initial), state, done, b);
          state' := ApplyOps(state', b.ops);
          x := x.After(b.sequence);
          committed := committed + 1;
          operations := operations + |b.ops|;
          pos := pos + n;
          done := done + [b];
      }
    }
    assert done + [] == done;
    if !torn && error == None { ScanHere(crc, x, bytes[pos..]); }
    result := ReplayResult(pos, torn, x.last, committed, operations);
  }

  lemma NothingDone(x: Expect, m: Map)
    ensures AfterAll(x, []) == x && ApplyBatches(m, []) == m && OperationCount([]) == 0
  {
  }

  /** Where a scan stops at once. */
  lemma ScanHere(crc: Crc, x: Expect, s: Bytes)
    ensures s == [] ==> Scan(crc, x, s) == Scanned([], 0, false, None)
    ensures s != [] && ReadFrame(crc, x, s).Torn? ==> Scan(crc, x, s) == Scanned([], 0, true, None)
    ensures s != [] && ReadFrame(crc, x, s).Bad? ==>
      Scan(crc, x, s) == Scanned([], 0, false, Some(ReadFrame(crc, x, s).error))
  {
    hide ReadFrame;
  }

  /** The checks of one frame, in the order the source makes them. */
  method ReadFrameAt(crc: Crc, x: Expect, bytes: Bytes, pos: nat) returns (r: Probe)
    requires pos < |bytes|
    ensures r == ReadFrame(crc, x, bytes[pos..])
  {
    hide ParseOps;
    var frame := bytes[pos..];
    if |bytes| - pos < 4 { return Torn; }
    var total := Be32(frame, 0);
    if total < FIXED_PREFIX + TRAILER || total > MAX_FRAME { return Bad(TotalLengthInvalid); }
    if |bytes| - pos < total { return Torn; }
    if frame[4..8] != MAGIC { return Bad(MagicMismatch); }
    if Be32(frame, 8) != VERSION { return Bad(VersionUnsupported); }
    var expectedCrc := Be32(frame, total - 4);
    var actualCrc := crc.Of(frame[..total - 4]);
    if expectedCrc != actualCrc { return Bad(CrcMismatch); }
    var sequence, count := Be64(frame, 12), Be32(frame, 20);
    if !x.Admits(sequence) { return Bad(SequenceGap); }
    if count == 0 || count > MAX_OPERATIONS { return Bad(CountInvalid); }
    var decoded := DecodeOps(frame[24..total - 4], count);
    if decoded.Failure? { return Bad(decoded.error); }
    if decoded.value.used != total - FIXED_PREFIX - TRAILER { return Bad(TrailingPayload); }
    return Good(Batch(sequence, decoded.value.value), total);
  }

  // ------------------------------------------------------------------ sequence order

  /** The sequence i steps after q, on the 64-bit circle. */
  function Nth(q: u64, i: nat): u64 {
    (q + i) % 0x1_0000_0000_0000_0000
  }

  /** The sequences run q+1, q+2, ..., except that the batch at d, if there is one, repeats its predecessor's. */
  ghost predicate InOrder(q: u64, bs: seq<Batch>, d: nat) {
    forall i :: 0 <= i < |bs| ==> bs[i].sequence == Nth(q, if i < d then i + 1 else i)
  }

  ghost predicate AllEncodable(bs: seq<Batch>) {
    forall i :: 0 <= i < |bs| ==> Encodable(bs[i].ops)
  }

  /** Where replay stands after batches with a repeat at d, or with none when d is past the end. */
  ghost predicate StandsAt(q: u64, bs: seq<Batch>, d: nat, x: Expect) {
    && x.initial == q && x.started == (bs != []) && x.duplicateUsed == (d < |bs|)
    && x.last == Nth(q, if d < |bs| then |bs| - 1 else |bs|)
  }

  /** A repeat position allowed for a log replayed from q. */
  ghost predicate RepeatAt(q: u64, n: nat, d: nat) {
    d == n || (q == 0 && 1 <= d < n)
  }

  lemma NthSucc(q: u64, i: nat)
    ensures Succ(Nth(q, i)) == Nth(q, i + 1) != Nth(q, i)
    ensures Nth(q, 0) == q
  {
  }

  /** The repeat position once b follows. */
  function RepeatAfter(q: u64, n: nat, d: nat, b: Batch): nat {
    if d < n then d else if b.sequence == Nth(q, n + 1) then n + 1 else n
  }

  /** One more batch: it is admitted exactly when it continues the order or is the one allowed repeat. */
  lemma OrderStep(q: u64, bs: seq<Batch>, d: nat, x: Expect, b: Batch)
    requires RepeatAt(q, |bs|, d) && InOrder(q, bs, d) && StandsAt(q, bs, d, x)
    ensures var d' := RepeatAfter(q, |bs|, d, b);
      && (x.Admits(b.sequence) <==>
        RepeatAt(q, |bs| + 1, d') && b.sequence == Nth(q, if |bs| < d' then |bs| + 1 else |bs|))
      && (x.Admits(b.sequence) ==> InOrder(q, bs + [b], d') && StandsAt(q, bs + [b], d', x.After(b.sequence)))
  {
    NthSucc(q, |bs|);
    if |bs| > 0 { NthSucc(q, |bs| - 1); }
    hide Succ, Nth;
  }

  lemma {:induction false} OrderFromAdmissible(q: u64, bs: seq<Batch>) returns (d: nat)
    requires Admissible(Start(q), bs)
    ensures RepeatAt(q, |bs|, d) && InOrder(q, bs, d) && AllEncodable(bs)
    ensures StandsAt(q, bs, d, AfterAll(Start(q), bs))
    decreases |bs|
  {
    if bs == [] {
      NthSucc(q, 0);
      d := 0;
    } else {
      hide Encodable, Expect.Admits, Expect.After, Nth, InOrder, StandsAt, RepeatAt, Admissible, AfterAll;
      var n, b := |bs| - 1, bs[|bs| - 1];
      LastAdmissible(q, bs);
      var d' := OrderFromAdmissible(q, bs[..n]);
      OrderStep(q, bs[..n], d', AfterAll(Start(q), bs[..n]), b);
      assert bs == bs[..n] + [b];
      d := RepeatAfter(q, n, d', b);
    }
  }

  lemma {:induction false} AdmissibleFromOrder(q: u64, bs: seq<Batch>, d: nat)
    requires RepeatAt(q, |bs|, d) && InOrder(q, bs, d) && AllEncodable(bs)
    ensures Admissible(Start(q), bs) && StandsAt(q, bs, d, AfterAll(Start(q), bs))
    decreases |bs|
  {
    if bs == [] {
      NthSucc(q, 0);
    } else {
      var n, b := |bs| - 1, bs[|bs| - 1];
      var d' := if d < n then d else n;
      assert forall i :: 0 <= i < n ==> bs[i] == bs[..n][i];
      assert AllEncodable(bs[..n]);
      NthSucc(q, n);
      assert d == RepeatAfter(q, n, d', b);
      hide Encodable, Expect.Admits, Expect.After, Nth, StandsAt, Admissible, AfterAll, Succ;
      AdmissibleFromOrder(q, bs[..n], d');
      LastAdmissible(q, bs);
      OrderStep(q, bs[..n], d', AfterAll(Start(q), bs[..n]), b);
      assert bs == bs[..n] + [b];
    }
  }

  lemma LastAdmissible(q: u64, bs: seq<Batch>)
    requires bs != []
    ensures var n := |bs| - 1; var x := AfterAll(Start(q), bs[..n]);
      && (Admissible(Start(q), bs) <==>
        Admissible(Start(q), bs[..n]) && Encodable(bs[n].ops) && x.Admits(bs[n].sequence))
      && AfterAll(Start(q), bs) == x.After(bs[n].sequence)
  {
    hide Encodable, Expect.Admits, Expect.After;
    var n := |bs| - 1;
    assert bs == bs[..n] + [bs[n]];
    AdmissibleConcat(Start(q), bs[..n], [bs[n]]);
    AdmissibleSingle(AfterAll(Start(q), bs[..n]), bs[n]);
  }

  /**
   * The sequences of an accepted log: q+1, q+2, ... in order, with at most one adjacent repeat,
   * and that only when replay began at 0. The repeat may stand anywhere after the first batch.
   */
  lemma SequenceDiscipline(q: u64, bs: seq<Batch>)
    ensures Admissible(Start(q), bs) <==>
      AllEncodable(bs) && exists d :: RepeatAt(q, |bs|, d) && InOrder(q, bs, d)
  {
    if Admissible(Start(q), bs) {
      var d := OrderFromAdmissible(q, bs);
    } else if AllEncodable(bs) && exists d :: RepeatAt(q, |bs|, d) && InOrder(q, bs, d) {
      var d :| RepeatAt(q, |bs|, d) && InOrder(q, bs, d);
      AdmissibleFromOrder(q, bs, d);
    }
  }

  /** Without wrap-around, the number of accepted batches is last - q, or one more after a repeat. */
  lemma CommittedBatches(q: u64, bs: seq<Batch>)
    requires Admissible(Start(q), bs) && q + |bs| <= U64_MAX
    ensures var x := AfterAll(Start(q), bs);
      && |bs| == x.last - q + (if x.duplicateUsed then 1 else 0)
      && (x.duplicateUsed ==> q == 0 && |bs| >= 2)
  {
    var d := OrderFromAdmissible(q, bs);
  }

  /** The repeat need not be at the head of the log: 1, 2, 2 is accepted. */
  lemma LaterDuplicateAccepted(a: seq<Operation>, b: seq<Operation>, c: seq<Operation>)
    requires Encodable(a) && Encodable(b) && Encodable(c)
    ensures Admissible(Start(0), [Batch(1, a), Batch(2, b), Batch(2, c)])
    ensures !Admissible(Start(0), [Batch(1, a), Batch(2, b), Batch(2, c), Batch(2, c)])
  {
    hide Encodable;
    var bs := [Batch(1, a), Batch(2, b), Batch(2, c)];
    AdmissibleFromOrder(0, bs, 2);
    var more := bs + [Batch(2, c)];
    assert more[..3] == bs;
    LastAdmissible(0, more);
    assert more == [Batch(1, a), Batch(2, b), Batch(2, c), Batch(2, c)];
  }
}
