/** The Python engine as an object: put, delete, rotation, checkpoint and reopening as sequences of file steps. */
module PythonEngine {
  import opened Bytes
  import opened KeyOrder
  import opened Options
  import opened Store
  import W = SegmentWal
  import opened SegmentReplay
  import opened DirectoryRecovery
  import opened DiskModel
  import opened SegmentNames
  import opened PythonWal
  import PS = PythonSnapshot
  import opened PythonModel
  import opened PythonCrash

  lemma {:induction false} RunMore(crc: Crc, s: Py, es: seq<Step>, e: Step)
    ensures Run(crc, s, es + [e]) == Next(crc, Run(crc, s, es), e)
    decreases |es|
  {
    hide Next;
    if es == [] {
      assert (es + [e])[1..] == [];
    } else {
      assert (es + [e])[1..] == es[1..] + [e];
      RunMore(crc, Next(crc, s, es[0]), es[1..], e);
    }
  }

  lemma NextSteps(crc: Crc, s: Py, op: Operation, n: nat, id: u64)
    ensures Next(crc, s, Appended(op)) == Append(crc, s, op) && Next(crc, s, Fsynced) == Fsync(s)
    ensures Next(crc, s, OpenedNext) == OpenNext(s) && Next(crc, s, Step.WroteTmp(n)) == WriteTmp(crc, s, n)
    ensures Next(crc, s, SyncedTmp) == SyncTmp(s) && Next(crc, s, ReplacedSnapshot) == Replace(crc, s)
    ensures Next(crc, s, Retired(id)) == Retire(s, id) && Next(crc, s, FsyncedDir) == FsyncDir(s)
    ensures Next(crc, s, Rejected) == Reject(s) && Next(crc, s, Reopened) == Reopen(s)
  {
    hide Append, Reject, Fsync, OpenNext, WriteTmp, SyncTmp, Replace, Retire, FsyncDir, Reopen;
  }

  /** Loads a directory: the snapshot, then every segment in name order. */
  method LoadDirectory(crc: Crc, image: Image) returns (r: Result<Cursor, LoadError>)
    ensures r == Load(crc, image)
  {
    hide PS.ReadSnapshot, LoadFile;
    var c := Cursor(map[], 0, 1);
    if image.snapshot.Some? {
      var l := PS.LoadSnapshot(crc, image.snapshot.value);
      if l.Failure? { return Failure(l.error); }
      c := Cursor(l.value.values, l.value.sequence, Succ(l.value.sequence));
    }
    assert image.wals[0..] == image.wals;
    for i := 0 to |image.wals|
      invariant Load(crc, image) == LoadFiles(crc, c, image.wals[i..])
    {
      assert image.wals[i..][1..] == image.wals[i + 1..];
      var f := ReplayFile(crc, c, image.wals[i]);
      if f.Failure? { return Failure(f.error); }
      c := f.value;
    }
    return Success(c);
  }

  datatype PutError = StructError

  const NO_OP := Operation(OpType.Delete, [], [])

  class PersistentBDR {
    const crc: Crc
    const segmentOps: nat
    const groupCommitOps: nat
    var state: Map
    var sequence: nat
    var segmentIndex: u64
    var segmentCount: nat
    var pendingSinceFsync: nat
    var tmp: File
    var disk: Disk
    ghost var slots: Slots
    ghost var durable: nat
    ghost var installed: nat
    ghost var stage: Stage
    ghost var segments: seq<Seg>
    ghost var steps: seq<Step>

    ghost function View(): Py
      reads this
    {
      Py(slots, durable, installed, segmentIndex, stage, tmp, disk)
    }

    /** The files are what the steps so far made of an empty directory, and the counters agree with them. */
    ghost predicate Files()
      reads this
    {
      && View() == Run(crc, FRESH, steps) && PyInv(crc, View(), segments)
      && segments != [] && sequence == |slots| < U64_MAX
      && Counts(slots, durable, segments[|segments| - 1].base, pendingSinceFsync, segmentCount)
    }

    /** Between calls: no step is half done, the state is the fold, and fewer operations than a group are unsynced. */
    ghost predicate Valid()
      reads this
    {
      && Files() && stage == Ready && state == StateAt(slots, |slots|)
      && pendingSinceFsync < groupCommitOps && segmentCount < segmentOps
    }

    /** Opens an empty directory. */
    constructor (crc: Crc, segmentOps: nat, groupCommitOps: nat)
      requires segmentOps > 0 && groupCommitOps > 0
      ensures Valid() && this.crc == crc && slots == [] && steps == []
      ensures this.segmentOps == segmentOps && this.groupCommitOps == groupCommitOps
    {
      this.crc, this.segmentOps, this.groupCommitOps := crc, segmentOps, groupCommitOps;
      state, sequence, segmentIndex, segmentCount, pendingSinceFsync := map[], 0, 0, 0, 0;
      tmp, disk := FRESH.tmp, FRESH.disk;
      slots, durable, installed, stage, segments, steps := [], 0, 0, Ready, [Seg(0, 0, 0)], [];
      FreshInv(crc);
    }

    // ---------------------------------------------------------------- file steps

    /** A number is taken and its record written. */
    method Write(op: Operation)
      requires Files() && stage == Ready && Storable(op) && sequence + 1 < U64_MAX
      modifies this`sequence, this`disk, this`slots, this`steps, this`segments, this`segmentCount,
               this`pendingSinceFsync
      ensures Files() && stage == Ready && slots == old(slots) + [Some(op)]
      ensures segmentCount == old(segmentCount) + 1 && pendingSinceFsync == old(pendingSinceFsync) + 1
      ensures old(steps) <= steps
    {
      hide FRESH, PyInv, FilesOk, NamesOk, Run, Next, Print, Storable, Append, Longer, Counts;
      ghost var before := View();
      Facts(crc, before, segments);
      WriteStep(crc, before, steps, op, segments);
      CountsMore(slots, durable, segments[|segments| - 1].base, pendingSinceFsync, segmentCount, op);
      sequence := sequence + 1;
      var b := Encode(crc, sequence, op.kind, op.key, op.value);
      var f := disk.files[segmentIndex];
      disk := disk.(files := disk.files[segmentIndex := f.(bytes := f.bytes + b)]);
      segmentCount, pendingSinceFsync := segmentCount + 1, pendingSinceFsync + 1;
      slots := slots + [Some(op)];
      steps, segments := steps + [Appended(op)], Longer(before, segments);
      assert View() == Append(crc, before, op);
    }

    /** The packing of a record fails after its number was taken. */
    method TakeNumber()
      requires Files() && stage == Ready && sequence + 1 < U64_MAX
      modifies this`sequence, this`slots, this`durable, this`steps, this`segments
      ensures Files() && stage == Ready && slots == old(slots) + [None] && sequence == old(sequence) + 1
      ensures old(steps) <= steps
    {
      hide FRESH, PyInv, FilesOk, NamesOk, Run, Next, Reject, Longer, Counts;
      ghost var before := View();
      Facts(crc, before, segments);
      RejectStep(crc, before, steps, segments);
      CountsNone(slots, durable, segments[|segments| - 1].base, pendingSinceFsync, segmentCount);
      sequence := sequence + 1;
      durable := if durable == |slots| then durable + 1 else durable;
      slots := slots + [None];
      steps, segments := steps + [Rejected], Longer(before, segments);
      assert View() == Reject(before);
    }

    /** os.fsync of the active segment. */
    method Sync()
      requires Files() && stage == Ready
      modifies this`disk, this`durable, this`steps, this`pendingSinceFsync
      ensures Files() && stage == Ready && durable == |slots| && pendingSinceFsync == 0
      ensures old(steps) <= steps
    {
      hide FRESH, PyInv, FilesOk, NamesOk, Run, Next, Fsync, Counts;
      ghost var before := View();
      Facts(crc, before, segments);
      SyncStep(crc, before, steps, segments);
      CountsSynced(slots, durable, segments[|segments| - 1].base, pendingSinceFsync, segmentCount);
      var f := disk.files[segmentIndex];
      disk := disk.(files := disk.files[segmentIndex := f.(synced := |f.bytes|)]);
      durable := |slots|;
      pendingSinceFsync := 0;
      steps := steps + [Fsynced];
      assert View() == Fsync(before);
    }

    /** flush(durable=True): an fsync when something is pending. */
    method Flush()
      requires Files() && stage == Ready
      modifies this`disk, this`durable, this`steps, this`pendingSinceFsync
      ensures Files() && stage == Ready && durable == |slots| && pendingSinceFsync == 0
      ensures old(steps) <= steps
    {
      hide FRESH, PyInv, FilesOk, NamesOk, Run, Next, Counts;
      CountsMean();
      if pendingSinceFsync != 0 { Sync(); }
    }

    /** Nothing is pending exactly when everything is synced; the count is that of the active segment's records. */
    lemma CountsMean()
      requires Files()
      ensures pendingSinceFsync == 0 <==> durable == |slots|
      ensures var base := segments[|segments| - 1].base;
        base <= |slots| <= U64_MAX && segmentCount == |Logged(slots, base, |slots|)|
    {
      hide FRESH, PyInv, FilesOk, NamesOk, Run, Next;
    }

    /** Opens the file of the next segment. */
    method OpenSegment()
      requires Files() && durable == |slots| && segmentIndex < U64_MAX
      requires stage == Installed || (stage == Ready && slots != [] && slots[|slots| - 1].Some?)
      modifies this`disk, this`segmentIndex, this`segmentCount, this`stage, this`steps, this`segments
      ensures Files() && stage == (if old(stage) == Ready then Rotating else Started)
      ensures segmentIndex == old(segmentIndex) + 1 && segmentCount == 0
      ensures old(steps) <= steps
    {
      hide FRESH, PyInv, FilesOk, NamesOk, Run, Next, OpenNext, Counts;
      ghost var before := View();
      Facts(crc, before, segments);
      OpenStep(crc, before, steps, segments);
      CountsOpened(slots, durable, segments[|segments| - 1].base, pendingSinceFsync, segmentCount);
      segmentIndex := segmentIndex + 1;
      segmentCount := 0;
      disk := disk.(files := disk.files[segmentIndex := File([], 0)], pending := disk.pending + [AddWal(segmentIndex)]);
      stage := if stage == Ready then Rotating else Started;
      steps, segments := steps + [OpenedNext], segments + [NextSeg(before)];
      assert View() == OpenNext(before);
    }

    /** fsync of the directory. */
    method SyncDirectory()
      requires Files()
      requires stage in {Rotating, Replaced, Started} || (stage == Retiring && Live(disk).wals == [segmentIndex])
      modifies this`disk, this`stage, this`installed, this`steps, this`segments
      ensures Files() && durable == |slots|
      ensures stage == match old(stage) case Replaced => Installed case Started => Retiring case _ => Ready
      ensures installed == if old(stage) == Replaced then |slots| else old(installed)
      ensures disk.names == Live(old(disk)) && disk.pending == []
      ensures old(steps) <= steps
    {
      hide FRESH, PyInv, FilesOk, NamesOk, Run, Next, Live, FsyncDir, Counts;
      ghost var before := View();
      Facts(crc, before, segments);
      var gs := DirStep(crc, before, steps, segments);
      disk := disk.(names := Live(disk), pending := []);
      installed := if stage == Replaced then |slots| else installed;
      stage := match stage case Replaced => Installed case Started => Retiring case _ => Ready;
      steps, segments := steps + [FsyncedDir], gs;
      assert View() == FsyncDir(before);
    }

    // ---------------------------------------------------------------- put and delete

    method RotateSegment()
      requires Files() && stage == Ready && segmentIndex < U64_MAX && slots != [] && slots[|slots| - 1].Some?
      modifies this`disk, this`durable, this`installed, this`pendingSinceFsync, this`segmentIndex, this`segmentCount,
               this`stage, this`steps, this`segments
      ensures Files() && stage == Ready && durable == |slots| && pendingSinceFsync == 0 && segmentCount == 0
      ensures installed == old(installed) && segmentIndex == old(segmentIndex) + 1
      ensures old(steps) <= steps
    {
      hide FRESH, PyInv, FilesOk, NamesOk, Run, Next, Live, Counts;
      Flush();
      OpenSegment();
      SyncDirectory();
      CountsMean();
    }

    /** Writes one record, syncs it when asked or when a group is full, and rotates when the segment is full. */
    method AppendRecord(op: Operation, sync: bool)
      requires Files() && stage == Ready && Storable(op) && sequence + 1 < U64_MAX && segmentIndex < U64_MAX
      requires segmentOps > 0 && groupCommitOps > 0
      modifies this`sequence, this`disk, this`slots, this`durable, this`installed, this`pendingSinceFsync,
               this`segmentIndex, this`segmentCount, this`stage, this`steps, this`segments
      ensures Files() && stage == Ready && slots == old(slots) + [Some(op)] && installed == old(installed)
      ensures pendingSinceFsync < groupCommitOps && segmentCount < segmentOps
      ensures var full := old(segmentCount) + 1 >= segmentOps;
        && segmentIndex == (if full then old(segmentIndex) + 1 else old(segmentIndex))
        && segmentCount == (if full then 0 else old(segmentCount) + 1)
        && pendingSinceFsync ==
          if full || sync || old(pendingSinceFsync) + 1 >= groupCommitOps then 0 else old(pendingSinceFsync) + 1
      ensures sync ==> durable == |slots|
      ensures old(steps) <= steps
    {
      hide FRESH, PyInv, FilesOk, NamesOk, Run, Next, Storable, Counts;
      Write(op);
      if sync || pendingSinceFsync >= groupCommitOps { Sync(); }
      if segmentCount >= segmentOps { RotateSegment(); }
    }

    /**
     * Stores a value. A value or key the record cannot hold raises after the sequence number was taken: nothing is
     * written, and the engine goes on.
     */
    method Put(key: Bytes, value: int, sync: bool) returns (r: Result<nat, PutError>)
      requires Valid() && sequence + 1 < U64_MAX && segmentIndex < U64_MAX
      modifies this
      ensures Valid() && installed == old(installed) && old(steps) <= steps
      ensures r.Success? <==> 0 <= value < 0x1_0000_0000_0000_0000 && |key| < 0x1_0000_0000
      ensures r.Success? ==>
        && r.value == |slots| && slots == old(slots) + [Some(Operation(OpType.Put, key, Put64(value)))]
        && state == old(state)[key := Put64(value)] && (sync ==> durable == |slots|)
      ensures r.Failure? ==> slots == old(slots) + [None] && state == old(state) && disk == old(disk)
    {
      hide FRESH, PyInv, FilesOk, NamesOk, Run, Next, StateAt, Counts;
      if !(0 <= value < 0x1_0000_0000_0000_0000) || |key| >= 0x1_0000_0000 {
        StateMore(slots, None);
        TakeNumber();
        return Failure(StructError);
      }
      var op := Operation(OpType.Put, key, Put64(value));
      StateMore(slots, Some(op));
      AppendRecord(op, sync);
      state := state[key := Put64(value)];
      return Success(sequence);
    }

    /** Removes a key; the record is written whether or not the key is there. */
    method Delete(key: Bytes, sync: bool) returns (r: Result<nat, PutError>)
      requires Valid() && sequence + 1 < U64_MAX && segmentIndex < U64_MAX
      modifies this
      ensures Valid() && installed == old(installed) && old(steps) <= steps
      ensures r.Success? <==> |key| < 0x1_0000_0000
      ensures r.Success? ==>
        && r.value == |slots| && slots == old(slots) + [Some(Operation(OpType.Delete, key, Put64(0)))]
        && state == old(state) - {key} && (sync ==> durable == |slots|)
      ensures r.Failure? ==> slots == old(slots) + [None] && state == old(state) && disk == old(disk)
    {
      hide FRESH, PyInv, FilesOk, NamesOk, Run, Next, StateAt, Counts;
      if |key| >= 0x1_0000_0000 {
        StateMore(slots, None);
        TakeNumber();
        return Failure(StructError);
      }
      var op := Operation(OpType.Delete, key, Put64(0));
      StateMore(slots, Some(op));
      AppendRecord(op, sync);
      state := state - {key};
      return Success(sequence);
    }

    /** Looks a key up: the number that the last operation on the key stored, or none. */
    method Get(key: Bytes) returns (r: Option<u64>)
      requires Valid()
      ensures var m := StateAt(slots, |slots|);
        (r.Some? <==> key in m) && (r.Some? ==> Put64(r.value) == m[key])
    {
      hide FRESH, PyInv, FilesOk, NamesOk, Run, Next, StateAt, Be64, Counts;
      if key !in state { return None; }
      ValuesEight(crc, View(), segments);
      var v := Be64(state[key], 0);
      Be64At(state[key], 0, v);
      assert state[key][0..8] == state[key];
      return Some(v);
    }

    // ---------------------------------------------------------------- checkpoint

    /** Writes and syncs the temporary snapshot file. */
    method WriteTmpFile(data: Bytes)
      requires Files() && stage == Ready && data == SnapAt(crc, slots, |slots|)
      modifies this`tmp, this`steps
      ensures Files() && tmp == File(data, |data|)
      ensures old(steps) <= steps
    {
      hide FRESH, PyInv, FilesOk, NamesOk, Run, Next, SnapAt, Counts;
      ghost var before := View();
      assert data[..|data|] == data;
      NextSteps(crc, before, NO_OP, |data|, 0);
      RunMore(crc, FRESH, steps, Step.WroteTmp(|data|));
      TmpKeepsNames(crc, before, before.(tmp := File(data, 0)), segments);
      tmp := File(data, 0);
      steps := steps + [Step.WroteTmp(|data|)];
      ghost var written := View();
      assert written == WriteTmp(crc, before, |data|);
      NextSteps(crc, written, NO_OP, 0, 0);
      RunMore(crc, FRESH, steps, SyncedTmp);
      TmpKeepsNames(crc, written, written.(tmp := File(data, |data|)), segments);
      tmp := tmp.(synced := |data|);
      steps := steps + [SyncedTmp];
      assert View() == SyncTmp(written);
    }

    /** os.replace of the snapshot. */
    method ReplaceSnapshot()
      requires Files() && stage == Ready && durable == |slots| && |StateAt(slots, |slots|)| < 0x1_0000_0000
      requires tmp == File(SnapAt(crc, slots, |slots|), |SnapAt(crc, slots, |slots|)|)
      modifies this`disk, this`stage, this`steps
      ensures Files() && stage == Replaced
      ensures old(steps) <= steps
    {
      hide FRESH, PyInv, FilesOk, NamesOk, Run, Next, SnapAt, StateAt, Counts;
      ghost var before := View();
      NextSteps(crc, before, NO_OP, 0, 0);
      RunMore(crc, FRESH, steps, ReplacedSnapshot);
      ReplaceKeeps(crc, before, segments);
      stage := Replaced;
      disk := disk.(pending := disk.pending + [SetSnapshot(tmp.bytes[..tmp.synced])]);
      steps := steps + [ReplacedSnapshot];
      assert View() == Replace(crc, before);
    }

    /** Unlinks every segment but the active one. */
    method RemoveOld()
      requires Files() && stage == Retiring
      modifies this`disk, this`steps
      ensures Files() && Live(disk).wals == [segmentIndex]
      ensures old(steps) <= steps
    {
      hide FRESH, PyInv, FilesOk, NamesOk, Run, Next, Live, Ids, Retire, Counts;
      while Live(disk).wals != [segmentIndex]
        invariant Files() && old(steps) <= steps
        decreases |Live(disk).wals|
      {
        ghost var before := View();
        var r := RetiringSegments(crc, before, segments);
        assert |r| == 1 ==> Ids(r) == [segmentIndex];
        assert Ids(r)[0] == r[0].id && r[0].id < r[|r| - 1].id;
        var id := Live(disk).wals[0];
        RetireKeeps(crc, before, id, segments);
        RetireIs(before, id);
        NextSteps(crc, before, NO_OP, 0, id);
        RunMore(crc, FRESH, steps, Retired(id));
        disk := disk.(pending := disk.pending + [RemoveWal(id)]);
        steps := steps + [Retired(id)];
        assert View() == Retire(before, id);
      }
    }

    /** Writes the snapshot of the current state and puts it in place, durably. */
    method InstallSnapshot()
      requires Files() && stage == Ready && durable == |slots| && state == StateAt(slots, |slots|)
      requires |state| < 0x1_0000_0000
      modifies this`tmp, this`disk, this`stage, this`installed, this`steps, this`segments
      ensures Files() && stage == Installed && durable == installed == |slots|
      ensures old(steps) <= steps
    {
      hide FRESH, PyInv, FilesOk, NamesOk, Run, Next, StateAt, SnapAt, Live, Lists, Listing, Counts;
      var items := SortedItems(state);
      ListingLists(state);
      ListingUnique(items, Listing(state), state);
      var data := PS.EncodeSnapshot(crc, sequence, items);
      SnapAtIs(crc, slots);
      WriteTmpFile(data);
      ReplaceSnapshot();
      SyncDirectory();
    }

    /** Starts a new segment and removes the covered ones. */
    method RetireLog()
      requires Files() && stage == Installed && durable == installed == |slots| && segmentIndex < U64_MAX
      modifies this`disk, this`segmentIndex, this`segmentCount, this`stage, this`installed, this`steps, this`segments
      ensures Files() && stage == Ready && durable == installed == |slots| && segmentCount == 0
      ensures disk.pending == [] && disk.names.wals == [segmentIndex]
      ensures SnapshotOk(crc, slots, disk.names.snapshot, |slots|)
      ensures old(steps) <= steps
    {
      hide FRESH, PyInv, FilesOk, NamesOk, Run, Next, StateAt, SnapAt, Live, SnapshotOk, Counts;
      OpenSegment();
      SyncDirectory();
      RemoveOld();
      SnapshotThere(crc, View(), segments);
      SyncDirectory();
    }

    /**
     * Persists the current state and retires the log that it covers; a map too large for the count field raises
     * after the flush. Numbers skipped by rejected calls are covered too: every crash now loads.
     */
    method Checkpoint() returns (done: bool)
      requires Valid() && segmentIndex < U64_MAX
      modifies this
      ensures Valid() && slots == old(slots) && state == old(state) && durable == |slots|
      ensures done <==> |state| < 0x1_0000_0000
      ensures done ==> disk.pending == [] && disk.names.wals == [segmentIndex] && segmentCount == 0
      ensures done ==> installed == |slots| && CrashProof(View())
      ensures done ==> SnapshotOk(crc, slots, disk.names.snapshot, |slots|)
      ensures old(steps) <= steps
    {
      hide FRESH, PyInv, FilesOk, NamesOk, Run, Next, StateAt, SnapAt, Live, SnapshotOk, Counts;
      Flush();
      if |state| >= 0x1_0000_0000 {
        CountsMean();
        return false;
      }
      InstallSnapshot();
      RetireLog();
      CountsMean();
      return true;
    }

    // ---------------------------------------------------------------- close and reopen

    /** The number of records in a file, as the reader counts them. */
    method CountRecords(file: Bytes, ghost rs: seq<W.Record>) returns (n: nat)
      requires AllStorable(rs) && file == PrintAll(crc, rs)
      ensures n == |rs|
    {
      hide Print, Look, Storable;
      var pos := 0;
      n := 0;
      assert file[0..] == file && rs[0..] == rs;
      while pos < |file|
        invariant pos <= |file| && n <= |rs| && file[pos..] == PrintAll(crc, rs[n..])
        decreases |file| - pos
      {
        LookFirst(crc, rs[n..]);
        var p := Look(crc, file[pos..]);
        assert rs[n..][1..] == rs[n + 1..];
        assert file[pos..][FRAME + |p.key|..] == file[pos + FRAME + |p.key|..];
        pos, n := pos + FRAME + |p.key|, n + 1;
      }
      AllRead(crc, rs[n..]);
    }

    /**
     * close() and a new engine on the same directory. It starts exactly when no operation was logged after a
     * rejected one since the last installed snapshot, and then with the same map; the counters are counted anew.
     */
    method CloseAndReopen() returns (started: bool)
      requires Valid()
      modifies this
      ensures started <==> Gapless(old(slots), old(installed), |old(slots)|)
      ensures started ==>
        && Valid() && state == old(state) && slots == Trim(old(slots), old(installed)) && installed == old(installed)
      ensures durable == |slots| && old(steps) <= steps
    {
      hide FRESH, PyInv, FilesOk, NamesOk, Run, Next, StateAt, Load, Trim, Gapless, Counts, CrashLeaves;
      Flush();
      Facts(crc, View(), segments);
      ClosedDirectory(crc, View(), segments);
      ClosedImage(View());
      var loaded := LoadDirectory(crc, LiveImage(disk));
      if loaded.Failure? { return false; }
      StartAgain(loaded.value);
      return true;
    }

    /** The new engine takes over what was loaded and counts the records of the active segment. */
    method StartAgain(c: Cursor)
      requires Files() && stage == Ready && durable == |slots| && pendingSinceFsync == 0 && installed <= |slots|
      requires Gapless(slots, installed, |slots|)
      requires c.values == state == StateAt(slots, |slots|) && c.sequence == |Trim(slots, installed)|
      requires segmentCount < segmentOps && groupCommitOps > 0
      modifies this`state, this`sequence, this`segmentCount, this`slots, this`durable, this`steps, this`segments
      ensures Valid() && state == old(state) && slots == Trim(old(slots), installed) && durable == |slots|
      ensures old(steps) <= steps
    {
      hide FRESH, PyInv, FilesOk, NamesOk, Run, Next, StateAt, Reopen, Trim, Gapless, Shorter, Counts, Logged;
      ghost var before := View();
      CountsMean();
      Facts(crc, before, segments);
      ReopenStep(crc, before, steps, segments);
      ghost var rs := ActiveRecords(crc, before, segments);
      TrimState(slots, installed);
      segmentCount := CountRecords(disk.files[segmentIndex].bytes, rs);
      CountsReopened(slots, installed, segments[|segments| - 1].base, segmentCount);
      state, sequence := c.values, c.sequence;
      slots := Trim(slots, installed);
      durable := |slots|;
      steps, segments := steps + [Reopened], Shorter(before, segments);
      assert View() == Reopen(before);
    }
  }

  lemma TrimState(slots: Slots, lo: nat)
    requires |slots| <= U64_MAX
    ensures |Trim(slots, lo)| <= |slots|
    ensures StateAt(slots, |slots|) == StateAt(Trim(slots, lo), |Trim(slots, lo)|)
  {
    TrimTrims(slots, lo);
    hide Trim, StateAt, Logged;
  }

  // ------------------------------------------------------------------ counters

  /** How many records are not synced, and how many the active segment holds. */
  ghost predicate Counts(slots: Slots, durable: nat, base: nat, pending: nat, count: nat) {
    && durable <= |slots| < U64_MAX && base <= |slots|
    && |Logged(slots, durable, |slots|)| == pending && (pending == 0 <==> durable == |slots|)
    && |Logged(slots, base, |slots|)| == count
  }

  lemma CountsMore(slots: Slots, durable: nat, base: nat, pending: nat, count: nat, op: Operation)
    requires Counts(slots, durable, base, pending, count) && |slots| + 1 < U64_MAX
    ensures Counts(slots + [Some(op)], durable, base, pending + 1, count + 1)
  {
    var t := slots + [Some(op)];
    assert t[..|slots|] == slots[..|slots|];
    LoggedPrefix(t, slots, durable, |slots|);
    LoggedPrefix(t, slots, base, |slots|);
  }

  lemma CountsNone(slots: Slots, durable: nat, base: nat, pending: nat, count: nat)
    requires Counts(slots, durable, base, pending, count) && |slots| + 1 < U64_MAX
    ensures Counts(slots + [None], if durable == |slots| then durable + 1 else durable, base, pending, count)
  {
    var t := slots + [None];
    assert t[..|slots|] == slots[..|slots|];
    LoggedPrefix(t, slots, durable, |slots|);
    LoggedPrefix(t, slots, base, |slots|);
  }

  lemma CountsSynced(slots: Slots, durable: nat, base: nat, pending: nat, count: nat)
    requires Counts(slots, durable, base, pending, count)
    ensures Counts(slots, |slots|, base, 0, count)
  {
  }

  lemma CountsOpened(slots: Slots, durable: nat, base: nat, pending: nat, count: nat)
    requires Counts(slots, durable, base, pending, count)
    ensures Counts(slots, durable, |slots|, pending, 0)
  {
  }

  lemma CountsReopened(slots: Slots, installed: nat, base: nat, count: nat)
    requires base <= |Trim(slots, installed)| <= |slots| < U64_MAX && |Logged(slots, base, |slots|)| == count
    ensures Counts(Trim(slots, installed), |Trim(slots, installed)|, base, 0, count)
  {
    TrimTrims(slots, installed);
    hide Trim, StateAt;
  }

  // ------------------------------------------------------------------ reopening

  lemma LookFirst(crc: Crc, rs: seq<W.Record>)
    requires AllStorable(rs) && PrintAll(crc, rs) != []
    ensures rs != [] && var p := Look(crc, PrintAll(crc, rs));
      p.Found? && PrintAll(crc, rs)[FRAME + |p.key|..] == PrintAll(crc, rs[1..])
  {
    hide Print, Look, Storable;
    PrintedFound(crc, rs[0], PrintAll(crc, rs[1..]));
  }

  lemma AllRead(crc: Crc, rs: seq<W.Record>)
    requires AllStorable(rs) && PrintAll(crc, rs) == []
    ensures rs == []
  {
    hide Print;
    if rs != [] { PrintLength(crc, rs[0]); }
  }

  /** What a closed directory loads as: the whole map, unless an operation follows a number without one. */
  lemma ClosedDirectory(crc: Crc, s: Py, gs: seq<Seg>)
    requires PyInv(crc, s, gs) && s.stage == Ready && s.durable == |s.slots|
    ensures s.installed <= |s.slots| < U64_MAX && s.index in s.disk.files
    ensures var t := Trim(s.slots, s.installed);
      |t| <= |s.slots| && StateAt(s.slots, |s.slots|) == StateAt(t, |t|) &&
      Load(crc, CrashLeaves(s, _ => true, |s.disk.files[s.index].bytes|)) ==
        if Gapless(s.slots, s.installed, |s.slots|) then Success(Cursor(StateAt(s.slots, |s.slots|), |t|, |t| + 1))
        else Failure(Gap)
  {
    hide PyInv, FilesOk, Load, Trim, Gapless, FirstKept, OnlyFirst, SnapshotOk, SnapAt, Ids;
    NonEmpty(crc, s, gs);
    ActiveThere(crc, s, gs);
    var cut := |s.disk.files[s.index].bytes|;
    var at, e := KeptAll(crc, s, gs, cut);
    TrimTrims(s.slots, s.installed);
    TrimReach(s.slots, s.installed);
    ReachLast(s.slots, s.installed, |s.slots|);
    StateRest(s.slots, Reach(s.slots, s.installed, |s.slots|), |s.slots|);
  }

  lemma KeptAll(crc: Crc, s: Py, gs: seq<Seg>, cut: nat) returns (at: nat, e: nat)
    requires PyInv(crc, s, gs) && s.stage == Ready && s.index in s.disk.files
    requires cut == |s.disk.files[s.index].bytes| >= s.disk.files[s.index].synced
    ensures LoadsTo(crc, s, _ => true, cut, at, e) && at == s.installed && e == |s.slots|
  {
    hide Load, FilesOk, StateAt, Gapless, SnapshotOk, Ids, SnapAt;
    NonEmpty(crc, s, gs);
    at, e := KeptLoads(crc, s, gs, i => i < |First(s)|, cut);
    KeptSame(s.disk.names, First(s));
    assert s.disk.pending == First(s);
    assert CrashLeaves(s, _ => true, cut) == CrashLeaves(s, i => i < |First(s)|, cut);
  }

  /** When the first entry is all that is pending, keeping it is keeping everything. */
  lemma KeptSame(n: Names, first: seq<Change>)
    requires |first| <= 1
    ensures Kept(n, first, _ => true) == Kept(n, first, i => i < |first|)
  {
    if first != [] {
      assert first[..|first| - 1] == [];
    }
  }

  /** What is kept after a reopening ends where reading ended. */
  lemma {:induction false} TrimReach(slots: Slots, lo: nat)
    requires lo <= |slots|
    ensures |Trim(slots, lo)| == Reach(slots, lo, |slots|)
    decreases |slots|
  {
    var n := |slots|;
    if n > lo && slots[n - 1].None? {
      TrimReach(slots[..n - 1], lo);
      ReachPrefix(slots, slots[..n - 1], lo, n - 1);
    }
  }

  lemma {:induction false} ReachPrefix(s: Slots, t: Slots, k: nat, b: nat)
    requires b <= |s| && b <= |t| && s[..b] == t[..b]
    ensures Reach(s, k, b) == Reach(t, k, b)
    decreases b
  {
    if b > k {
      assert s[b - 1] == s[..b][b - 1] == t[..b][b - 1];
      assert s[..b - 1] == s[..b][..b - 1] == t[..b - 1];
      if s[b - 1].None? { ReachPrefix(s, t, k, b - 1); }
    }
  }

  /** The directory as the next start finds it. */
  function LiveImage(d: Disk): Image {
    var names := Live(d);
    Image(names.snapshot, seq(|names.wals|, i requires 0 <= i < |names.wals| =>
      if names.wals[i] in d.files then d.files[names.wals[i]].bytes else []))
  }

  lemma ClosedImage(s: Py)
    requires s.index in s.disk.files
    ensures CrashLeaves(s, _ => true, |s.disk.files[s.index].bytes|) == LiveImage(s.disk)
  {
    hide Kept;
    var f := s.disk.files[s.index];
    assert f.bytes[..|f.bytes|] == f.bytes;
  }

  /** The reopening as a step after the steps so far. */
  lemma ReopenStep(crc: Crc, s: Py, steps: seq<Step>, gs: seq<Seg>)
    requires s == Run(crc, FRESH, steps) && PyInv(crc, s, gs) && gs != []
    requires s.stage == Ready && s.durable == |s.slots| && s.installed <= |s.slots|
    requires Gapless(s.slots, s.installed, |s.slots|)
    ensures var t := Reopen(s);
      && t == s.(slots := Trim(s.slots, s.installed), durable := |Trim(s.slots, s.installed)|)
      && t == Run(crc, FRESH, steps + [Reopened]) && PyInv(crc, t, Shorter(s, gs))
    ensures Shorter(s, gs) != [] && Shorter(s, gs)[|Shorter(s, gs)| - 1].base == gs[|gs| - 1].base
    ensures gs[|gs| - 1].base <= |Trim(s.slots, s.installed)| <= |s.slots| < U64_MAX
  {
    hide FRESH, PyInv, FilesOk, NamesOk, Run, Next, Trim, Gapless, Logged;
    NextSteps(crc, s, NO_OP, 0, 0);
    RunMore(crc, FRESH, steps, Reopened);
    NonEmpty(crc, s, gs);
    TrimTrims(s.slots, s.installed);
    ActiveBase(crc, s, gs);
    if Reopen(s) != s { ReopenKeeps(crc, s, gs); } else { ShorterSame(crc, s, gs); }
  }

  lemma ActiveBase(crc: Crc, s: Py, gs: seq<Seg>)
    requires FilesOk(crc, s, gs) && s.installed <= |s.slots|
    ensures gs != [] && gs[|gs| - 1].base <= |Trim(s.slots, s.installed)| && gs[|gs| - 1].end == |s.slots|
  {
    hide FileOk, Stored, Trim;
    ActiveIs(crc, s, gs);
    TrimTrims(s.slots, s.installed);
    SegFileOk(crc, s, gs[|gs| - 1]);
    BaseKept(s, Trim(s.slots, s.installed), gs[|gs| - 1].base);
  }

  /** When nothing is given back, the reopening changes nothing. */
  lemma ShorterSame(crc: Crc, s: Py, gs: seq<Seg>)
    requires FilesOk(crc, s, gs) && s.durable == |s.slots| && |Trim(s.slots, s.installed)| == |s.slots|
    ensures Shorter(s, gs) == gs
  {
    hide FileOk, Stored, Trim;
    ActiveIs(crc, s, gs);
  }

  /** The records of the active file of a closed engine. */
  lemma ActiveRecords(crc: Crc, s: Py, gs: seq<Seg>) returns (rs: seq<W.Record>)
    requires PyInv(crc, s, gs)
    ensures gs != [] && gs[|gs| - 1].base <= |s.slots| < U64_MAX && s.index in s.disk.files
    ensures rs == Logged(s.slots, gs[|gs| - 1].base, |s.slots|) && AllStorable(rs)
    ensures s.disk.files[s.index].bytes == PrintAll(crc, rs)
  {
    hide NamesOk, FileOk, Logged, Storable, PrintAll;
    ActiveIs(crc, s, gs);
    rs := FileRecords(crc, s, gs[|gs| - 1]);
  }

  lemma FileRecords(crc: Crc, s: Py, g: Seg) returns (rs: seq<W.Record>)
    requires FileOk(crc, s, g) && g.id == s.index && Stored(s.slots)
    ensures g.base <= |s.slots| < U64_MAX && s.index in s.disk.files
    ensures rs == Logged(s.slots, g.base, |s.slots|) && AllStorable(rs)
    ensures s.disk.files[s.index].bytes == PrintAll(crc, rs)
  {
    hide Logged, Storable, PrintAll, Stored;
    rs := Logged(s.slots, g.base, |s.slots|);
    LoggedNumbers(s.slots, g.base, |s.slots|);
  }

  // ------------------------------------------------------------------ steps after the steps so far

  lemma StateMore(slots: Slots, x: Option<Operation>)
    ensures StateAt(slots + [x], |slots| + 1) ==
      if x.Some? then ApplyOne(StateAt(slots, |slots|), x.value) else StateAt(slots, |slots|)
    ensures |slots + [x]| == |slots| + 1
  {
    assert (slots + [x])[..|slots|] == slots[..|slots|];
    StateAtPrefix(slots + [x], slots, |slots|);
  }

  /** Writing a record. */
  lemma WriteStep(crc: Crc, s: Py, steps: seq<Step>, op: Operation, gs: seq<Seg>)
    requires s == Run(crc, FRESH, steps) && PyInv(crc, s, gs) && gs != []
    requires s.stage == Ready && Storable(op) && |s.slots| + 1 < U64_MAX && s.index in s.disk.files
    ensures var t := Append(crc, s, op); var f := s.disk.files[s.index];
      && t == s.(slots := s.slots + [Some(op)], disk := s.disk.(files :=
        s.disk.files[s.index := f.(bytes := f.bytes + Print(crc, W.Record(|s.slots| + 1, op)))]))
      && t == Run(crc, FRESH, steps + [Appended(op)]) && PyInv(crc, t, Longer(s, gs))
    ensures Longer(s, gs) != [] && Longer(s, gs)[|Longer(s, gs)| - 1].base == gs[|gs| - 1].base
  {
    hide FRESH, PyInv, Run, Next, Print, Storable;
    NextSteps(crc, s, op, 0, 0);
    RunMore(crc, FRESH, steps, Appended(op));
    MoreKeeps(crc, s, Append(crc, s, op), Some(op), gs);
  }

  /** Taking a number without a record. */
  lemma RejectStep(crc: Crc, s: Py, steps: seq<Step>, gs: seq<Seg>)
    requires s == Run(crc, FRESH, steps) && PyInv(crc, s, gs) && gs != [] && s.stage == Ready && |s.slots| + 1 < U64_MAX
    ensures var t := Reject(s);
      && t == s.(slots := s.slots + [None], durable := if s.durable == |s.slots| then s.durable + 1 else s.durable)
      && t == Run(crc, FRESH, steps + [Rejected]) && PyInv(crc, t, Longer(s, gs))
    ensures Longer(s, gs) != [] && Longer(s, gs)[|Longer(s, gs)| - 1].base == gs[|gs| - 1].base
  {
    hide FRESH, PyInv, Run, Next;
    NextSteps(crc, s, NO_OP, 0, 0);
    RunMore(crc, FRESH, steps, Rejected);
    MoreKeeps(crc, s, Reject(s), None, gs);
  }

  lemma SyncStep(crc: Crc, s: Py, steps: seq<Step>, gs: seq<Seg>)
    requires s == Run(crc, FRESH, steps) && PyInv(crc, s, gs) && s.stage == Ready && s.index in s.disk.files
    ensures var t := Fsync(s); var f := s.disk.files[s.index];
      && t == s.(durable := |s.slots|, disk := s.disk.(files := s.disk.files[s.index := f.(synced := |f.bytes|)]))
      && t == Run(crc, FRESH, steps + [Fsynced]) && PyInv(crc, t, gs)
  {
    hide FRESH, PyInv, Run, Next;
    NextSteps(crc, s, NO_OP, 0, 0);
    RunMore(crc, FRESH, steps, Fsynced);
    FsyncKeeps(crc, s, gs);
  }

  lemma DirStep(crc: Crc, s: Py, steps: seq<Step>, gs: seq<Seg>) returns (gs': seq<Seg>)
    requires s == Run(crc, FRESH, steps) && PyInv(crc, s, gs) && gs != []
    requires s.stage in {Rotating, Replaced, Started} || (s.stage == Retiring && Live(s.disk).wals == [s.index])
    ensures var t := FsyncDir(s);
      && t == s.(disk := s.disk.(names := Live(s.disk), pending := []),
        installed := if s.stage == Replaced then |s.slots| else s.installed,
        stage := match s.stage case Replaced => Installed case Started => Retiring case _ => Ready)
      && t == Run(crc, FRESH, steps + [FsyncedDir]) && PyInv(crc, t, gs')
    ensures gs' != [] && gs'[|gs'| - 1] == gs[|gs| - 1]
  {
    hide FRESH, PyInv, Run, Next, Live;
    NextSteps(crc, s, NO_OP, 0, 0);
    RunMore(crc, FRESH, steps, FsyncedDir);
    gs' := FsyncDirKeeps(crc, s, gs);
    NonEmpty(crc, FsyncDir(s), gs');
  }

  lemma OpenStep(crc: Crc, s: Py, steps: seq<Step>, gs: seq<Seg>)
    requires s == Run(crc, FRESH, steps) && PyInv(crc, s, gs)
    requires s.stage == Installed || (s.stage == Ready && s.slots != [] && s.slots[|s.slots| - 1].Some?)
    requires s.durable == |s.slots| && s.index < U64_MAX
    ensures var t := OpenNext(s);
      && t == s.(stage := if s.stage == Ready then Rotating else Started, index := s.index + 1,
        disk := s.disk.(files := s.disk.files[s.index + 1 := File([], 0)],
                        pending := s.disk.pending + [AddWal(s.index + 1)]))
      && t == Run(crc, FRESH, steps + [OpenedNext]) && PyInv(crc, t, gs + [NextSeg(s)])
  {
    hide FRESH, PyInv, Run, Next;
    NextSteps(crc, s, NO_OP, 0, 0);
    RunMore(crc, FRESH, steps, OpenedNext);
    OpenNextKeeps(crc, s, gs);
  }

  /** The segments still named while old ones are removed. */
  lemma RetiringSegments(crc: Crc, s: Py, gs: seq<Seg>) returns (r: seq<Seg>)
    requires PyInv(crc, s, gs) && s.stage == Retiring
    ensures Live(s.disk).wals == Ids(r) && Ascending(r) && r != [] && r[|r| - 1].id == s.index
  {
    hide FileOk, SnapshotOk, SnapAt, StateAt, Kept, Ids, Among;
    ActiveIs(crc, s, gs);
    r := RemovedSegs(s.disk.names, s.disk.pending, _ => true, gs, s.index);
  }

  lemma RetireIs(s: Py, id: u64)
    requires s.stage == Retiring && id in Live(s.disk).wals && id != s.index
    ensures Retire(s, id) == s.(disk := s.disk.(pending := s.disk.pending + [RemoveWal(id)]))
    ensures |Live(Retire(s, id).disk).wals| < |Live(s.disk).wals|
  {
    hide Kept;
    WithoutShorter(Live(s.disk).wals, id);
    KeptMore(s.disk.names, s.disk.pending, RemoveWal(id));
  }

  /** While old segments are removed, the snapshot holds every operation. */
  lemma SnapshotThere(crc: Crc, s: Py, gs: seq<Seg>)
    requires PyInv(crc, s, gs) && s.stage == Retiring
    ensures SnapshotOk(crc, s.slots, Live(s.disk).snapshot, |s.slots|)
  {
    hide FilesOk, SnapshotOk, Kept, Ids;
    SegsThere(crc, s, gs);
    RemovalsOnly(s.disk.names, s.disk.pending, _ => true);
  }

  /** What a step needs to know of the state it starts from. */
  lemma Facts(crc: Crc, s: Py, gs: seq<Seg>)
    requires PyInv(crc, s, gs)
    ensures s.index in s.disk.files && gs != [] && gs[|gs| - 1].base <= |s.slots| < U64_MAX
    ensures s.installed <= s.durable <= |s.slots| && (s.stage != Ready ==> s.durable == |s.slots|)
  {
    hide FileOk, NamesOk, Stored;
    NonEmpty(crc, s, gs);
    ActiveIs(crc, s, gs);
    SegFileOk(crc, s, gs[|gs| - 1]);
  }

  lemma ValuesEight(crc: Crc, s: Py, gs: seq<Seg>)
    requires PyInv(crc, s, gs)
    ensures forall key :: key in StateAt(s.slots, |s.slots|) ==> |StateAt(s.slots, |s.slots|)[key]| == 8
  {
    hide FileOk, StateAt, NamesOk;
    StateStorable(s.slots, |s.slots|);
  }

  lemma SnapAtIs(crc: Crc, slots: Slots)
    requires |slots| < U64_MAX
    ensures SnapAt(crc, slots, |slots|) == PS.SnapshotBytes(crc, |slots|, Listing(StateAt(slots, |slots|)))
  {
    hide PS.SnapshotBytes, Listing, StateAt;
  }
}
