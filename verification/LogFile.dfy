/** The BDW4 log file: appending a batch, recovering and repairing, and one commit with its crash points. */
module LogFile {
  import opened Bytes
  import opened KeyOrder
  import opened Options
  import opened Store
  import opened AtomicWal
  import opened AtomicReplay
  import opened AtomicRecovery

  /**
   * A file as the operating system sees it. Its first synced bytes survive any crash that leaves its directory
   * entry, and the entry is sure to survive only once it is on disk.
   */
  class File {
    var exists_: bool
    var entered: bool
    var bytes: Bytes
    var synced: nat

    ghost predicate Valid()
      reads this
    {
      synced <= |bytes| && (!exists_ ==> bytes == []) && (entered ==> exists_)
    }

    /** The file, or the missing file, as it is found on disk. */
    constructor (exists_: bool, bytes: Bytes)
      requires !exists_ ==> bytes == []
      ensures Valid() && this.exists_ == entered == exists_ && this.bytes == bytes && synced == |bytes|
    {
      this.exists_, entered, this.bytes, synced := exists_, exists_, bytes, |bytes|;
    }

    /** Opens for append, creating the file if needed, and writes; nothing syncs the entry of a new file. */
    method Write(data: Bytes)
      requires Valid()
      modifies this`exists_, this`bytes
      ensures Valid() && exists_ && bytes == old(bytes) + data && synced == old(synced)
    {
      exists_, bytes := true, bytes + data;
    }

    method Fdatasync()
      requires Valid()
      modifies this`synced
      ensures Valid() && synced == |bytes|
    {
      synced := |bytes|;
    }

    method Resize(n: nat)
      requires Valid() && n <= |bytes|
      modifies this`bytes, this`synced
      ensures Valid() && bytes == old(bytes)[..n] && synced == if old(synced) <= n then old(synced) else n
    {
      bytes := bytes[..n];
      if synced > n { synced := n; }
    }
  }

  /** Appends one batch; a batch that cannot be printed leaves the file alone. */
  method AppendBatch(crc: Crc, f: File, sequence: u64, ops: seq<Operation>, durable: bool)
    returns (error: Option<EncodeError>)
    requires f.Valid()
    modifies f`exists_, f`bytes, f`synced
    ensures f.Valid()
    ensures error.None? <==> sequence != 0 && Encodable(ops)
    ensures error.None? ==> f.exists_ && f.bytes == old(f.bytes) + Frame(crc, Batch(sequence, ops))
    ensures error.None? ==> f.synced == if durable then |f.bytes| else old(f.synced)
    ensures error.Some? ==> f.exists_ == old(f.exists_) && f.bytes == old(f.bytes) && f.synced == old(f.synced)
  {
    var r := EncodeBatch(crc, sequence, ops);
    if r.Failure? { return Some(r.error); }
    f.Write(r.value);
    if durable { f.Fdatasync(); }
    return None;
  }

  datatype FileReplayResult = FileReplayResult(
    lastSequence: u64, committedBatches: nat, lastGood: nat, repairedTornTail: bool, bytesRead: nat,
    replayedOperations: nat)

  /**
   * Replays the file into a map and cuts off a torn tail. On corruption the file is left alone and
   * the map holds the batches before the corrupt frame.
   */
  method RecoverFile(crc: Crc, f: File, state: Map, initial: u64, repair: bool)
    returns (result: FileReplayResult, state': Map, error: Option<WalError>)
    requires f.Valid()
    modifies f`bytes, f`synced
    ensures f.Valid()
    ensures var r := Scan(crc, Start(initial), old(f.bytes));
      && error == r.error && state' == ApplyBatches(state, r.batches)
      && f.bytes == (if error.None? && repair && r.torn then old(f.bytes)[..r.used] else old(f.bytes))
      && f.synced == (if old(f.synced) <= |f.bytes| then old(f.synced) else |f.bytes|)
      && (error.None? ==> result == FileReplayResult(
        AfterAll(Start(initial), r.batches).last, |r.batches|, r.used, r.torn && repair, |old(f.bytes)|,
        OperationCount(r.batches)))
  {
    if !f.exists_ {
      EmptyScan(crc, Start(initial), state);
      return FileReplayResult(initial, 0, 0, false, 0, 0), state, None;
    }
    var bytes := f.bytes;
    var replay;
    replay, state', error := Replay(crc, bytes, state, initial);
    var repaired := false;
    if error.None? && replay.tornTail && repair {
      f.Resize(replay.lastGood);
      repaired := true;
    }
    result := FileReplayResult(replay.lastSequence, replay.committedBatches, replay.lastGood, repaired,
                               |bytes|, replay.replayedOperations);
  }

  lemma EmptyScan(crc: Crc, x: Expect, m: Map)
    ensures Scan(crc, x, []) == Scanned([], 0, false, None)
    ensures AfterAll(x, []) == x && ApplyBatches(m, []) == m && OperationCount([]) == 0
  {
  }

  /** Recovering a repaired file finds the same batches, no torn tail, and changes nothing: repair is idempotent. */
  lemma RepairIdempotent(crc: Crc, q: u64, s: Bytes)
    requires Scan(crc, Start(q), s).error == None
    ensures var r := Scan(crc, Start(q), s); var kept := s[..r.used];
      Scan(crc, Start(q), kept) == r.(torn := false) && kept[..Scan(crc, Start(q), kept).used] == kept
  {
    hide Scan, Log, Admissible;
    var r := Scan(crc, Start(q), s);
    CleanLog(crc, Start(q), s);
    assert s[..r.used] == Log(crc, r.batches);
    RoundTrip(crc, Start(q), r.batches);
  }

  // ------------------------------------------------------------------ one commit and its crash points

  datatype FailPoint = NoFailure | BeforeAppend | MidAppend | AfterAppendBeforeSync | AfterSyncBeforeAck | AfterAck

  datatype CommitOutcome = Rejected(error: EncodeError) | Crashed | Acknowledged(sequence: u64)

  /** How many bytes a crash in the middle of the append has written. */
  function MidBytes(requested: nat, size: nat): nat
    requires size > 0
  {
    var n := if requested != 0 then requested else size / 2;
    if n < size - 1 then n else size - 1
  }

  /** Appends, syncs and acknowledges one batch, or stops at the given point. */
  method CommitBatch(crc: Crc, f: File, sequence: u64, ops: seq<Operation>, failpoint: FailPoint, midBytes: nat)
    returns (outcome: CommitOutcome)
    requires f.Valid()
    modifies f`exists_, f`bytes, f`synced
    ensures f.Valid()
    ensures outcome.Rejected? <==> failpoint != BeforeAppend && !(sequence != 0 && Encodable(ops))
    ensures outcome.Acknowledged? <==> failpoint == NoFailure && sequence != 0 && Encodable(ops)
    ensures outcome.Acknowledged? ==> outcome.sequence == sequence
    ensures failpoint == BeforeAppend || outcome.Rejected? ==> f.bytes == old(f.bytes) && f.synced == old(f.synced)
    ensures failpoint == MidAppend && !outcome.Rejected? ==>
      var size := |Frame(crc, Batch(sequence, ops))|; var part := |f.bytes| - |old(f.bytes)|;
      if 0 < midBytes < size then part == midBytes
      else if midBytes >= size then part == size - 1
      else size - 1 <= 2 * part <= size
    ensures failpoint != BeforeAppend && !outcome.Rejected? ==>
      var frame := Frame(crc, Batch(sequence, ops));
      if failpoint == MidAppend then
        f.synced == old(f.synced) && old(f.bytes) <= f.bytes && |f.bytes| < |old(f.bytes)| + |frame|
        && f.bytes == (old(f.bytes) + frame)[..|f.bytes|]
      else
        f.bytes == old(f.bytes) + frame
        && f.synced == if failpoint == AfterAppendBeforeSync then old(f.synced) else |f.bytes|
  {
    if failpoint == BeforeAppend { return Crashed; }
    var r := EncodeBatch(crc, sequence, ops);
    if r.Failure? { return Rejected(r.error); }
    FrameLength(crc, Batch(sequence, ops));
    if failpoint == MidAppend {
      var n := MidBytes(midBytes, |r.value|);
      f.Write(r.value[..n]);
      assert (old(f.bytes) + r.value)[..|f.bytes|] == old(f.bytes) + r.value[..n];
      return Crashed;
    }
    f.Write(r.value);
    if failpoint == AfterAppendBeforeSync { return Crashed; }
    f.Fdatasync();
    if failpoint == AfterSyncBeforeAck || failpoint == AfterAck { return Crashed; }
    return Acknowledged(sequence);
  }

  /**
   * Whatever part of an interrupted commit survives, recovery finds the earlier batches or the earlier
   * batches and the new one: all of them and the new one exactly when the whole frame survived.
   */
  lemma CommitAllOrNothing(crc: Crc, q: u64, bs: seq<Batch>, b: Batch, cut: nat)
    requires Admissible(Start(q), bs + [b])
    requires |Log(crc, bs)| <= cut <= |Log(crc, bs) + Frame(crc, b)|
    ensures var whole := Log(crc, bs) + Frame(crc, b); var r := Scan(crc, Start(q), whole[..cut]);
      && r.error == None
      && r.batches == (if cut == |whole| then bs + [b] else bs)
      && r.used == (if cut == |whole| then cut else |Log(crc, bs)|)
  {
    hide Frame, Log, Admissible, Scan, WholeFrames;
    LogConcat(crc, bs, [b]);
    LogSingle(crc, b);
    var all := bs + [b];
    var whole := Log(crc, all);
    assert whole == Log(crc, bs) + Frame(crc, b);
    assert (whole + [])[..cut] == whole[..cut];
    TruncatedLog(crc, Start(q), all, [], cut);
    WholeFramesFit(crc, all, cut);
    var k := WholeFrames(crc, all, cut);
    FrameLength(crc, b);
    if k <= |bs| {
      assert all[..k] == bs[..k] && bs[..|bs|] == bs;
      assert all[k] == if k < |bs| then bs[k] else b;
      LogSplit(crc, bs, k);
    } else {
      assert all[..k] == all;
    }
  }
}
