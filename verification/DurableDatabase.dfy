/** The durable database object over its log file. */
module DurableDatabase {
  import opened Bytes
  import opened KeyOrder
  import opened Options
  import opened Store
  import opened AtomicWal
  import opened AtomicReplay
  import opened AtomicRecovery
  import opened LogFile
  import opened DurableModel

  datatype BatchResult = BatchResult(sequence: u64, operations: nat, durable: bool)

  ghost function EntryOf(f: File): Entry
    reads f
  {
    if !f.exists_ then Absent else if f.entered then OnDisk else Unsynced
  }

  class Database {
    const crc: Crc
    const legacy: Legacy
    const wal: File
    var state: Map
    var lastSequence: u64
    var durableSequence: u64

    ghost function Value(): Db
      reads this, wal
    {
      Db(wal.bytes, wal.synced, EntryOf(wal), state, lastSequence, durableSequence)
    }

    ghost predicate Valid()
      reads this, wal
    {
      wal.Valid() && KeysValid(legacy.values) && Consistent(crc, legacy, Value())
    }

    /**
     * Recovers from the legacy state and the log; a corrupt log is refused and left alone. What was read counts as
     * durable whether or not it is synced.
     */
    static method Open(crc: Crc, legacy: Legacy, wal: File) returns (error: Option<WalError>, db: Database?)
      requires wal.Valid() && KeysValid(legacy.values)
      modifies wal`bytes, wal`synced
      ensures error == Scan(crc, Start(legacy.sequence), old(wal.bytes)).error
      ensures error.Some? ==> db == null && wal.bytes == old(wal.bytes)
      ensures error.None? ==> db != null && fresh(db) && db.crc == crc && db.legacy == legacy && db.wal == wal
      ensures error.None? ==> var o := Opened(crc, legacy, EntryOf(wal), old(wal.bytes));
        && db.Value() == o.(synced := if old(wal.synced) <= o.synced then old(wal.synced) else o.synced)
        && db.Valid()
    {
      hide Scan, AfterAll, ApplyBatches, Inv, OperationCount;
      var bytes := wal.bytes;
      var result, state;
      result, state, error := RecoverFile(crc, wal, legacy.values, legacy.sequence, true);
      db := null;
      if error.None? {
        OpenedClean(crc, legacy, EntryOf(wal), bytes);
        CleanUsed(crc, Start(legacy.sequence), bytes);
        AnySynced(crc, legacy, EntryOf(wal), bytes, wal.synced);
        db := new Database(crc, legacy, wal, state, result.lastSequence);
      }
    }

    constructor (crc: Crc, legacy: Legacy, wal: File, state: Map, last: u64)
      ensures this.crc == crc && this.legacy == legacy && this.wal == wal
      ensures this.state == state && lastSequence == last && durableSequence == last
    {
      this.crc, this.legacy, this.wal := crc, legacy, wal;
      this.state, lastSequence, durableSequence := state, last, last;
    }

    /** Logs one batch and then applies it; a batch that cannot be logged changes nothing. */
    method WriteBatch(ops: seq<Operation>, mode: Mode) returns (r: Option<BatchResult>)
      requires Valid()
      modifies this`state, this`lastSequence, this`durableSequence, wal`exists_, wal`bytes, wal`synced
      ensures Valid() && Value() == Written(crc, old(Value()), ops, mode != Async)
      ensures r.Some? <==> Accepts(old(Value()), ops)
      ensures r.Some? ==> r.value == BatchResult(lastSequence, |ops|, mode != Async)
    {
      hide Encodable, Frame, Consistent, Apply;
      ghost var before := Value();
      WrittenConsistent(crc, legacy, before, ops, mode);
      var sequence := Succ(lastSequence);
      var syncNow := mode != Async;
      var error := AppendBatch(crc, wal, sequence, ops, syncNow);
      if error.Some? {
        assert Value() == before;
        return None;
      }
      state := ApplyOps(state, ops);
      lastSequence := sequence;
      if syncNow { durableSequence := sequence; }
      assert Value() == Written(crc, before, ops, syncNow);
      return Some(BatchResult(sequence, |ops|, syncNow));
    }

    /** Logs one batch that deletes every key; nothing is logged when there is none. */
    method Clear(mode: Mode) returns (r: Option<BatchResult>)
      requires Valid()
      modifies this`state, this`lastSequence, this`durableSequence, wal`exists_, wal`bytes, wal`synced
      ensures Valid() && Value() == Cleared(crc, old(Value()), mode != Async)
      ensures old(state) == map[] ==> r == Some(BatchResult(lastSequence, 0, durableSequence == lastSequence))
      ensures r.Some? ==> state == map[]
      ensures old(state) != map[] && r.Some? ==>
        r.value == BatchResult(old(lastSequence) + 1, |old(state)|, mode != Async)
      ensures old(state) != map[] ==> (r.Some? <==> old(lastSequence) != U64_MAX && ClearableSize(old(state)))
    {
      hide Encodable, Frame, Consistent, Apply, Listing, Lists, ClearableSize, Deletes;
      if state == map[] {
        return Some(BatchResult(lastSequence, 0, durableSequence == lastSequence));
      }
      ghost var before := Value();
      var items := SortedItems(state);
      ClearFacts(crc, legacy, before, items);
      WrittenConsistent(crc, legacy, before, Deletes(items), mode);
      var operations := Deletes(items);
      var sequence := Succ(lastSequence);
      var syncNow := mode != Async;
      var error := AppendBatch(crc, wal, sequence, operations, syncNow);
      if error.Some? {
        assert Value() == before;
        return None;
      }
      state := map[];
      lastSequence := sequence;
      if syncNow { durableSequence := sequence; }
      assert Value() == Written(crc, before, operations, syncNow);
      return Some(BatchResult(sequence, |operations|, syncNow));
    }

    /** Makes everything written so far durable; when it is already, nothing is done. */
    method Sync()
      requires Valid()
      modifies this`durableSequence, wal`synced
      ensures Valid() && Value() == Synced(old(Value()))
      ensures durableSequence == lastSequence
    {
      hide Consistent;
      ghost var before := Value();
      if lastSequence == durableSequence { return; }
      SyncedConsistent(crc, legacy, before);
      if !wal.exists_ {
        durableSequence := lastSequence;
        assert Value() == Synced(before);
        return;
      }
      wal.Fdatasync();
      durableSequence := lastSequence;
      assert Value() == Synced(before);
    }

    /** Looks a key up: the answer is what anyone finds who replays the log after the legacy state. */
    method Get(k: Bytes) returns (r: Option<Bytes>)
      requires Valid()
      ensures var found := ApplyBatches(legacy.values, Scan(crc, Start(legacy.sequence), wal.bytes).batches);
        r == if k in found then Some(found[k]) else None
    {
      hide Consistent, Scan, ApplyBatches;
      StateIsReplay(crc, legacy, Value());
      if k !in state { return None; }
      return Some(state[k]);
    }
  }

  /** The map in memory is the one that a replay of the log finds. */
  lemma StateIsReplay(crc: Crc, legacy: Legacy, db: Db)
    requires Consistent(crc, legacy, db)
    ensures db.state == ApplyBatches(legacy.values, Scan(crc, Start(legacy.sequence), db.bytes).batches)
  {
    hide Scan, Log, Admissible, ApplyBatches, AfterAll;
    var log, d :| Inv(crc, legacy, db, log, d);
    RoundTrip(crc, Start(legacy.sequence), log);
  }

  /** Opening a file is consistent whatever part of it is synced. */
  lemma AnySynced(crc: Crc, legacy: Legacy, entry: Entry, bytes: Bytes, n: nat)
    requires Scan(crc, Start(legacy.sequence), bytes).error == None && (entry == Absent ==> bytes == [])
    ensures var o := Opened(crc, legacy, entry, bytes);
      n <= |o.bytes| ==> Consistent(crc, legacy, o.(synced := n))
  {
    hide Scan, Admissible, Log, AfterAll, ApplyBatches;
    OpenedClean(crc, legacy, entry, bytes);
    var log, o := Scan(crc, Start(legacy.sequence), bytes).batches, Opened(crc, legacy, entry, bytes);
    assert n <= |o.bytes| ==> Inv(crc, legacy, o.(synced := n), log, |log|);
  }

  lemma CleanUsed(crc: Crc, x: Expect, s: Bytes)
    requires Scan(crc, x, s).error == None
    ensures var r := Scan(crc, x, s); r.used <= |s| && (r.torn ==> r.used < |s|) && (!r.torn ==> s[..r.used] == s)
  {
    hide Scan, Log, Admissible;
    CleanLog(crc, x, s);
  }
}
