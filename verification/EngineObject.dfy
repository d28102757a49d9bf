/** The engine object: its fields change step by step, one method for each mutex-protected block or file call. */
module EngineObject {
  import opened Bytes
  import opened KeyOrder
  import opened Options
  import opened Store
  import W = SegmentWal
  import opened SegmentReplay
  import Snap = Snapshot
  import CompactPartition
  import opened CompactIndex
  import opened IndexRecovery
  import opened DirectoryRecovery
  import opened EngineHistory
  import opened DiskModel
  import opened SegmentNames
  import opened EngineModel
  import opened EngineSteps
  import opened EngineCrash
  import opened EngineRuns
  import opened EngineProgress

  datatype OpenError = BatchSizeZero | NotRecovered(why: RecoverError) | IndexTooSmall

  datatype SubmitError = InvalidSize | DatabaseClosed | WriterError | NoRoom

  /** The points at which a checkpoint can be stopped. */
  datatype FailPoint =
    | MidSnapshot | AfterSnapshotWrite | AfterSnapshotFsync | AfterSnapshotClose | AfterRename | AfterSnapshotDirFsync
    | AfterOldWalClose | AfterNewWalCreate | AfterNewWalDirFsync | BeforeOldWalRemove | AfterOldWalRemove
    | AfterOldWalRemoveDirFsync

  /** The points in the writing of the temporary file; the one amid the items needs an item to come to. */
  predicate StopsInTmp(stopAt: Option<FailPoint>, empty: bool) {
    stopAt.Some? && (stopAt.value in {AfterSnapshotWrite, AfterSnapshotFsync, AfterSnapshotClose}
      || (stopAt.value == MidSnapshot && !empty))
  }

  /** The points up to the sync of the directory after the rename. */
  predicate StopsEarly(stopAt: Option<FailPoint>, empty: bool) {
    StopsInTmp(stopAt, empty) || stopAt == Some(AfterRename) || stopAt == Some(AfterSnapshotDirFsync)
  }

  /** The points in the change to a new segment. */
  predicate StopsInSwitch(stopAt: Option<FailPoint>) {
    stopAt.Some? && stopAt.value in {AfterOldWalClose, AfterNewWalCreate, AfterNewWalDirFsync, BeforeOldWalRemove}
  }

  /** How many items are written when the process is killed amid them. */
  function MidCount(n: nat): (k: nat)
    ensures n == 1 ==> k == 1
    ensures n >= 2 ==> 1 <= k && n - 1 <= 2 * k <= n
  {
    if n / 2 >= 1 then n / 2 else 1
  }

  /** The first mid bytes of a snapshot are its header and MidCount of its items, if it has any. */
  ghost predicate MidPart(sequence: u64, items: seq<Item>, snapshot: Bytes, mid: nat) {
    items == [] || (MidCount(|items|) <= |items| && mid <= |snapshot|
      && snapshot[..mid] == Snap.Preamble(sequence, |items|) + Snap.ItemsBytes(items[..MidCount(|items|)]))
  }

  /** pwrite: the bytes from the offset on are replaced. */
  function WrittenAt(b: Bytes, off: nat, data: Bytes): Bytes
    requires off <= |b|
  {
    b[..off] + data + (if off + |data| <= |b| then b[off + |data|..] else [])
  }

  function ImageOf(names: Names, files: map<u64, Bytes>): Image
    requires forall i :: 0 <= i < |names.wals| ==> names.wals[i] in files
  {
    Image(names.snapshot, seq(|names.wals|, i requires 0 <= i < |names.wals| => files[names.wals[i]]))
  }

  /** The first elements of a queue, up to a number, and the others. */
  method Front(queue: seq<Pending>, limit: nat) returns (batch: seq<Pending>, rest: seq<Pending>)
    ensures var n := if |queue| <= limit then |queue| else limit;
      batch == queue[..n] && rest == queue[n..]
  {
    batch, rest := [], queue;
    ghost var n: nat := 0;
    while rest != [] && |batch| < limit
      invariant n <= |queue| && n <= limit && batch == queue[..n] && rest == queue[n..]
      decreases |rest|
    {
      assert queue[..n + 1] == queue[..n] + [queue[n]] && queue[n..][1..] == queue[n + 1..];
      batch, rest, n := batch + [rest[0]], rest[1..], n + 1;
    }
  }

  lemma AtEnd(b: Bytes, data: Bytes)
    ensures WrittenAt(b, |b|, data) == b + data
  {
  }

  class Database {
    const crc: Crc
    const walBatch: nat
    const index: Index
    var queue: seq<Pending>
    var local: seq<Pending>
    var buf: Bytes
    var nextSeq: u64
    var durableSeq: u64
    var stop: bool
    var closed: bool
    var writerError: bool
    var writer: Writer
    var phase: Phase
    var tmp: File
    var segment: u64
    var walOff: nat
    var disk: Disk
    ghost var hist: History
    ghost var segments: seq<Seg>
    ghost var base: nat

    /** The engine as a state of the model. */
    ghost function View(): Sys
      reads this, index
    {
      Sys(hist, durableSeq, nextSeq, index.model, local, queue, writer, closed, stop, writerError, phase, tmp,
          segment, disk)
    }

    /** The writer's buffer and file offset belong to the batch it holds. */
    ghost predicate BufferOk()
      reads this
    {
      && (writer.Holding? || writer == Flushed ==> buf == Buffer(crc, local))
      && (segment in disk.files && (writer == Idle || writer == Flushed) ==> walOff == |disk.files[segment].bytes|)
      && (segment in disk.files && writer.Holding? ==> walOff + writer.written == |disk.files[segment].bytes|)
    }

    ghost predicate Valid()
      reads this, index, index.parts, index.Arrays()
    {
      index.Valid() && walBatch > 0 && BufferOk() && Inv(crc, View(), segments, base)
    }

    /** The index does not depend on the fields of the engine. */
    twostate lemma SameIndex()
      requires old(index.Valid()) && unchanged(index) && unchanged(index.parts) && unchanged(old(index.Arrays()))
      ensures index.Valid()
    {
      hide Index.Valid;
    }

    twostate lemma SameRoom(op: Operation)
      requires |index.parts| > 0 && unchanged(index.parts)
      ensures Room(index, op) == old(Room(index, op))
    {
    }

    // ---------------------------------------------------------------- open

    constructor (crc: Crc, walBatch: nat, index: Index, sequence: u64, phase: Phase, segment: u64, walOff: nat,
                 disk: Disk, ghost hist: History, ghost segments: seq<Seg>, ghost base: nat)
      ensures View() == Sys(hist, sequence, sequence, index.model, [], [], Idle, false, false, false, phase,
                            File([], 0), segment, disk)
      ensures this.crc == crc && this.walBatch == walBatch && this.index == index && this.walOff == walOff
      ensures this.segments == segments && this.base == base
    {
      this.crc, this.walBatch, this.index := crc, walBatch, index;
      queue, local, buf, nextSeq, durableSeq := [], [], [], sequence, sequence;
      stop, closed, writerError, writer, this.phase, tmp := false, false, false, Idle, phase, File([], 0);
      this.segment, this.walOff, this.disk := segment, walOff, disk;
      this.hist, this.segments, this.base := hist, segments, base;
    }

    /**
     * Recovers from a directory into an empty index, cuts off a torn tail, and starts a first segment when
     * there is none. It fails as the directory says, or for want of room in the index, but that only when the
     * files together are longer than 32-bit offsets reach. The ghost arguments say which history the directory holds.
     */
    static method Open(crc: Crc, walBatch: nat, index: Index, names: Names, files: map<u64, Bytes>,
                       ghost hist: History, ghost segments: seq<Seg>, ghost base: nat)
      returns (r: Result<Database, OpenError>)
      requires index.Valid() && index.Within(0) && index.model == map[]
      requires forall i :: 0 <= i < |names.wals| ==> names.wals[i] in files
      modifies index`size, index`model, index.parts, index.Arrays()
      ensures r == Failure(BatchSizeZero) <==> walBatch == 0
      ensures var rec := Recover(Engine, crc, ImageOf(names, files));
        match r
        case Failure(BatchSizeZero) => true
        case Failure(NotRecovered(why)) => rec == Failure(why)
        case Failure(IndexTooSmall) => ImageBytes(ImageOf(names, files)) > CompactPartition.OFFSET_LIMIT
        case Success(db) => rec.Success? && db.View() == EngineModel.Opened(crc, names, files, hist, rec.value)
      ensures r.Success? ==> fresh(r.value) && r.value.crc == crc && r.value.index == index
      ensures r.Success? && Inv(crc, r.value.View(), segments, base) ==> r.value.Valid()
    {
      hide Inv, Index.Valid, Index.Within, Recover, W.HeaderBytes, RecordsOf, Records, ImageBytes;
      if walBatch == 0 { return Failure(BatchSizeZero); }
      var f := RecoverInto(crc, ImageOf(names, files), index);
      if f == Failure(IndexFull) { return Failure(IndexTooSmall); }
      if f.Failure? { return Failure(NotRecovered(f.error.why)); }
      var found := f.value;
      var rec := Recovered(map[], found.sequence, found.high, found.lastGood, found.torn);
      var s := EngineModel.Opened(crc, names, files, [], rec);
      var off := if s.segment in s.disk.files then |s.disk.files[s.segment].bytes| else 0;
      OpenedApart(crc, names, files, hist, rec, index.model);
      var db := new Database(crc, walBatch, index, found.sequence, s.phase, s.segment, off, s.disk,
                             hist, segments, base);
      return Success(db);
    }

    // ---------------------------------------------------------------- submit and wait

    /** Issues a ticket; in scope are sequences below the top. */
    method Submit(op: Operation) returns (r: Result<u64, SubmitError>)
      requires Valid() && phase == Running && nextSeq + 1 < U64_MAX
      modifies this`queue, this`nextSeq, this`hist, index`size, index`model, index.parts, index.Arrays()
      ensures Valid()
      ensures r.Success? ==> View() == EngineModel.Submit(old(View()), op) && r.value == nextSeq == old(nextSeq) + 1
      ensures r.Success? ==> hist == old(hist) + [op] && queue == old(queue) + [Pending(nextSeq, op)]
      ensures r.Success? && op.kind == Put ==> index.model == old(index.model)[op.key := op.value]
      ensures r.Success? && op.kind == Delete ==> index.model == old(index.model) - {op.key}
      ensures r.Failure? ==> View() == old(View())
      ensures r == Failure(InvalidSize) <==> !W.Submittable(op)
      ensures r == Failure(DatabaseClosed) <==> W.Submittable(op) && closed
      ensures r == Failure(WriterError) <==> W.Submittable(op) && !closed && writerError
      ensures r == Failure(NoRoom) <==>
        W.Submittable(op) && !closed && !writerError && !old(Room(index, op))
    {
      hide Inv, Index.Valid, Buffer, EngineModel.Submit, Room;
      SomeParts(index);
      if |op.key| == 0 || |op.key| > MAX_KEY || |op.value| > MAX_VALUE { return Failure(InvalidSize); }
      if closed { return Failure(DatabaseClosed); }
      if writerError { return Failure(WriterError); }
      var ok := Accept(op);
      return if ok then Success(nextSeq) else Failure(NoRoom);
    }

    /** Queues a checked operation and applies it; when the index is full it is taken back from the queue. */
    method Accept(op: Operation) returns (ok: bool)
      requires Valid() && phase == Running && nextSeq + 1 < U64_MAX && W.Submittable(op) && !closed && !writerError
      modifies this`queue, this`nextSeq, this`hist, index`size, index`model, index.parts, index.Arrays()
      ensures Valid()
      ensures ok ==> View() == EngineModel.Submit(old(View()), op) && nextSeq == old(nextSeq) + 1
      ensures ok == old(Room(index, op)) && (!ok ==> View() == old(View()))
      ensures ok ==> hist == old(hist) + [op] && queue == old(queue) + [Pending(nextSeq, op)]
      ensures ok ==> index.model == ApplyOne(old(index.model), op)
    {
      hide Inv, Index.Valid, Buffer, W.Submittable, EngineModel.Submit, ApplyOne, Room;
      SomeParts(index);
      ghost var before := View();
      SubmitIs(before, op);
      SubmitKeeps(crc, before, op, segments, base);
      queue := queue + [Pending(nextSeq + 1, op)];
      SameIndex();
      SameRoom(op);
      ok := ApplyTo(index, op);
      label Updated:
      if ok {
        nextSeq := nextSeq + 1;
        hist := hist + [op];
      } else {
        queue := queue[..|queue| - 1];
        assert queue == before.queue;
      }
      SameIndex@Updated();
    }

    /** What a wait finds. */
    method WaitFor(ticket: u64) returns (r: WaitOutcome)
      ensures r == Wait(View(), ticket)
    {
      if ticket == 0 { return Returned; }
      if ticket > nextSeq { return FutureTicket; }
      if durableSeq >= ticket { return Returned; }
      if writerError { return WaitOutcome.Failed; }
      return Blocked;
    }

    /** Looks a key up: the answer is that of the fold of every accepted operation, durable or not. */
    method Get(k: Bytes) returns (r: Option<Bytes>)
      requires Valid()
      ensures var m := Apply(map[], hist);
        r == if k in m then Some(m[k]) else None
    {
      hide Inv, Index.Valid, Buffer, Apply;
      IndexIsFold(crc, View(), segments, base);
      r := index.Get(k);
    }

    // ---------------------------------------------------------------- the writer

    /** The writer wakes: it takes a batch and encodes it, or ends once stopped with nothing queued. */
    method Wake()
      requires Valid() && writer == Idle && (stop || queue != [])
      modifies this`queue, this`local, this`buf, this`writer
      ensures Valid()
      ensures View() == if old(queue) == [] then Exit(old(View())) else Take(old(View()), walBatch)
    {
      hide Inv, Index.Valid, Records, RecordsOf, Buffer, Take, Exit;
      if stop && queue == [] { EndWriter(); } else { TakeBatch(); }
    }

    /** The writer leaves its loop. */
    method EndWriter()
      requires Valid() && writer == Idle && stop && queue == []
      modifies this`writer
      ensures Valid() && View() == Exit(old(View())) && writer == Exited
    {
      hide Inv, Index.Valid, Buffer;
      ghost var before := View();
      ClosingKeeps(crc, before, Exit(before), segments, base);
      writer := Exited;
      SameIndex();
    }

    /** The writer moves operations from the queue to its batch and prints them. */
    method TakeBatch()
      requires Valid() && writer == Idle && queue != []
      modifies this`queue, this`local, this`buf, this`writer
      ensures Valid() && View() == Take(old(View()), walBatch)
      ensures Taken(old(View()), View(), walBatch)
    {
      hide Inv, Index.Valid, Records, RecordsOf, Buffer, Take, Taken;
      ghost var before := View();
      TakeIs(before, walBatch);
      TakeKeeps(crc, before, walBatch, segments, base);
      var batch, rest := Front(queue, walBatch);
      queue, local := rest, batch;
      Encode();
      writer := Holding(0);
      assert View() == Take(before, walBatch);
      SameIndex();
    }

    /** Prints the batch into the buffer. */
    method Encode()
      modifies this`buf
      ensures buf == Buffer(crc, local)
    {
      hide Records;
      buf := [];
      NoRecords(crc);
      for i := 0 to |local|
        invariant buf == Records(crc, RecordsOf(local[..i]))
      {
        var r := W.MakeRecord(crc, W.Record(local[i].sequence, local[i].op));
        OneMoreRecord(crc, local, i);
        buf := buf + r;
      }
      assert local[..|local|] == local;
    }

    /** One pwrite of the batch reaches n bytes of the buffer. */
    method WritePart(n: nat)
      requires Valid() && writer.Holding? && writer.written <= n <= |buf|
      modifies this`disk, this`writer
      ensures Valid() && View() == WriteTo(crc, old(View()), n) && writer == Holding(n)
    {
      hide Inv, Index.Valid, Buffer;
      ghost var before := View();
      WriteKeeps(crc, before, n, segments, base);
      ActiveFile(crc, before, segments, base);
      var f := disk.files[segment];
      AtEnd(f.bytes, buf[writer.written..n]);
      var bytes := WrittenAt(f.bytes, walOff + writer.written, buf[writer.written..n]);
      disk := disk.(files := disk.files[segment := f.(bytes := bytes)]);
      writer := Holding(n);
      SameIndex();
    }

    /** fdatasync of the segment after the whole batch was written. */
    method FlushWal()
      requires Valid() && writer == Holding(|buf|)
      modifies this`disk, this`writer, this`walOff
      ensures Valid() && View() == Flush(crc, old(View()))
    {
      hide Inv, Index.Valid, Buffer;
      ghost var before := View();
      FlushKeeps(crc, before, segments, base);
      ActiveFile(crc, before, segments, base);
      walOff := walOff + |buf|;
      var f := disk.files[segment];
      disk := disk.(files := disk.files[segment := f.(synced := |f.bytes|)]);
      writer := Flushed;
      SameIndex();
    }

    /** The batch becomes durable for the callers. */
    method PublishBatch()
      requires Valid() && writer == Flushed
      modifies this`durableSeq, this`local, this`writer, this`segments
      ensures Valid() && View() == Publish(old(View())) && local == []
      ensures durableSeq == old(durableSeq) + |old(local)| > old(durableSeq)
    {
      hide Inv, Index.Valid, Buffer;
      ghost var before := View();
      ActiveFile(crc, before, segments, base);
      BatchEnds(crc, before, segments, base);
      PublishKeeps(crc, before, segments, base);
      durableSeq := local[|local| - 1].sequence;
      local := [];
      writer := Idle;
      segments := Grown(before, segments);
      SameIndex();
    }

    /** A write or sync failed: the error is kept and the writer ends. */
    method FailWriter()
      requires Valid() && writer.Holding?
      modifies this`writer, this`writerError, this`stop
      ensures Valid() && View() == Fail(old(View())) && writerError && stop && writer.Dead?
    {
      hide Inv, Index.Valid, Buffer;
      ghost var before := View();
      ClosingKeeps(crc, before, Fail(before), segments, base);
      writer, writerError, stop := Dead(writer.written), true, true;
      SameIndex();
    }

    // ---------------------------------------------------------------- close

    /** The first part of close: no ticket is issued from now on. */
    method SetClosed() returns (already: bool)
      requires Valid() && phase == Running
      modifies this`closed
      ensures Valid() && View() == Close(old(View())) && already == old(closed) && closed
    {
      hide Inv, Index.Valid, Buffer;
      ghost var before := View();
      ClosingKeeps(crc, before, Close(before), segments, base);
      already := closed;
      closed := true;
      SameIndex();
    }

    /** The last part of close, after its wait: the writer is told to stop. */
    method SetStop()
      requires Valid() && closed
      modifies this`stop
      ensures Valid() && View() == Stop(old(View())) && stop
    {
      hide Inv, Index.Valid, Buffer;
      ghost var before := View();
      ClosingKeeps(crc, before, Stop(before), segments, base);
      stop := true;
      SameIndex();
    }

    // ---------------------------------------------------------------- checkpoint

    /** Prints the snapshot of a quiescent engine, up to MidCount items and whole, and opens the temporary file. */
    method BeginCheckpoint() returns (snapshot: Bytes, mid: nat, empty: bool)
      requires Valid() && phase == Running && !closed && nextSeq <= durableSeq && |index.model| <= Snap.MAX_COUNT
      modifies this`phase, this`tmp
      ensures Valid() && View() == CheckpointBegin(old(View())) && phase == TmpWriting(0)
      ensures snapshot == SnapshotNow(crc, View()) && mid <= |snapshot| && (empty <==> index.model == map[])
      ensures MidPart(nextSeq, Listing(index.model), snapshot, mid)
    {
      hide Inv, Index.Valid, Buffer, Listing, Lists, Snap.SnapshotBytes, Snap.Preamble, Snap.ItemsBytes;
      ghost var before := View();
      CheckpointBeginKeeps(crc, before, segments, base);
      var items := index.SnapshotItems();
      ListingLists(index.model);
      ListingUnique(items, Listing(index.model), index.model);
      snapshot := Snap.WriteStreaming(crc, nextSeq, items);
      mid, empty := 0, items == [];
      if items != [] {
        MidLength(crc, nextSeq, items);
        mid := |Snap.Preamble(nextSeq, |items|)| + |Snap.ItemsBytes(items[..MidCount(|items|)])|;
      }
      phase, tmp := TmpWriting(0), File([], 0);
      SameIndex();
    }

    /** The temporary file has the first n bytes of the snapshot. */
    method WriteTmp(snapshot: Bytes, n: nat)
      requires Valid() && snapshot == SnapshotNow(crc, View()) && phase.TmpWriting? && phase.written <= n <= |snapshot|
      modifies this`phase, this`tmp
      ensures Valid() && View() == TmpWrite(crc, old(View()), n)
      ensures phase == TmpWriting(n) && SnapshotNow(crc, View()) == snapshot
    {
      hide Inv, Index.Valid, Buffer, SnapshotNow;
      ghost var before := View();
      TmpKeeps(crc, before, TmpWrite(crc, before, n), n, segments, base);
      phase, tmp := TmpWriting(n), tmp.(bytes := snapshot[..n]);
      SameSnapshotNow(crc, before, View());
      SameIndex();
    }

    method FlushTmp()
      requires Valid() && phase == TmpWriting(|SnapshotNow(crc, View())|)
      modifies this`phase, this`tmp
      ensures Valid() && View() == TmpFlush(crc, old(View())) && phase == TmpFlushed
    {
      hide Inv, Index.Valid, Buffer, SnapshotNow;
      ghost var before := View();
      TmpKeeps(crc, before, TmpFlush(crc, before), 0, segments, base);
      phase, tmp := TmpFlushed, tmp.(synced := |tmp.bytes|);
      SameIndex();
    }

    method RenameTmp()
      requires Valid() && phase == TmpFlushed
      modifies this`phase, this`disk
      ensures Valid() && View() == Rename(old(View())) && phase == Renamed
    {
      hide Inv, Index.Valid, Buffer;
      ghost var before := View();
      RenameKeeps(crc, before, segments, base);
      CheckpointFacts(crc, before, segments, base);
      phase := Renamed;
      disk := disk.(pending := disk.pending + [SetSnapshot(tmp.bytes[..tmp.synced])]);
      SameIndex();
    }

    /** fsync of the directory. */
    method SyncDirectory()
      requires Valid()
      requires phase in {Renamed, NewCreated, Opening}
        || (phase in {NewDurable, Removing} && Live(disk).wals == [segment])
      modifies this`phase, this`disk, this`segments, this`base
      ensures Valid() && View() == SyncDir(old(View()))
      ensures phase == match old(phase)
        case Renamed => SnapshotDurable
        case NewCreated => NewDurable
        case _ => Running
    {
      hide Inv, Index.Valid, Buffer, Live, SyncDir;
      ghost var before := View();
      SyncDirIs(before);
      segments, base := SyncDirKeeps(crc, before, segments, base);
      disk := disk.(names := Live(disk), pending := []);
      phase := if phase == Renamed then SnapshotDurable else if phase == NewCreated then NewDurable else Running;
      SameIndex();
    }

    /** The old segment is synced and closed. */
    method CloseOldWal()
      requires Valid() && phase == SnapshotDurable
      modifies this`phase, this`disk
      ensures Valid() && View() == CloseOld(old(View())) && phase == OldClosed
    {
      hide Inv, Index.Valid, Buffer;
      ghost var before := View();
      CloseOldKeeps(crc, before, segments, base);
      ActiveFile(crc, before, segments, base);
      var f := disk.files[segment];
      disk := disk.(files := disk.files[segment := f.(synced := |f.bytes|)]);
      phase := OldClosed;
      SameIndex();
    }

    /** create_wal for the next segment. */
    method CreateWal()
      requires Valid() && phase == OldClosed && segment < U64_MAX
      modifies this`phase, this`disk, this`segment, this`walOff, this`segments
      ensures Valid() && View() == Rotate(crc, old(View())) && phase == NewCreated
    {
      hide Inv, Index.Valid, Buffer, W.HeaderBytes, Rotate, Fresh;
      ghost var before := View();
      IdleWriter(crc, before, segments, base);
      RotateIs(crc, before, segments, base);
      segments := segments + [Fresh(before)];
      segment := segment + 1;
      var header := W.HeaderBytes(crc, W.Header(segment, nextSeq + 1));
      disk := disk.(files := disk.files[segment := File(header, W.HEADER_SIZE)],
                    pending := disk.pending + [AddWal(segment)]);
      walOff, phase := |header|, NewCreated;
      SameIndex();
    }

    /** Removes one segment file that the snapshot covers. */
    method RemoveWalFile(id: u64)
      requires Valid() && (phase == NewDurable || phase == Removing) && id in Live(disk).wals && id != segment
      modifies this`phase, this`disk
      ensures Valid() && View() == Remove(old(View()), id)
      ensures disk == old(disk).(pending := disk.pending)
    {
      hide Inv, Index.Valid, Buffer, Live;
      ghost var before := View();
      RemoveKeeps(crc, before, id, segments, base);
      phase := Removing;
      disk := disk.(pending := disk.pending + [Change.RemoveWal(id)]);
      SameIndex();
    }

    /** The covered segment files are removed, in the order the directory gives them. */
    method RemoveCovered()
      requires Valid() && phase == NewDurable
      modifies this`phase, this`disk
      ensures Valid() && hist == old(hist) && segment == old(segment)
      ensures (phase == NewDurable || phase == Removing) && Live(disk).wals == [segment]
      ensures disk == old(disk).(pending := disk.pending)
    {
      hide Inv, Index.Valid, Buffer, Live, Ids, Remove;
      while Live(disk).wals != [segment]
        invariant Valid() && (phase == NewDurable || phase == Removing)
        invariant disk == old(disk).(pending := disk.pending)
        decreases |Live(disk).wals|
      {
        var r := LiveSegments(crc, View(), segments, base);
        assert |r| == 1 ==> Ids(r) == [segment];
        assert Ids(r)[0] == r[0].id && r[0].id < r[|r| - 1].id;
        LiveRemoved(View(), Live(disk).wals[0]);
        RemoveWalFile(Live(disk).wals[0]);
      }
    }

    /** Writes and syncs the temporary snapshot file; goes on unless stopped by then. */
    method WriteSnapshot(stopAt: Option<FailPoint>) returns (go: bool)
      requires Valid() && phase == Running && !closed && nextSeq <= durableSeq && |index.model| <= Snap.MAX_COUNT
      modifies this`phase, this`tmp
      ensures Valid()
      ensures go <==> !StopsInTmp(stopAt, index.model == map[])
      ensures PointReached(crc, old(View()), View(), if go then AfterSnapshotFsync else stopAt.value)
    {
      hide Inv, Index.Valid, Buffer, SnapshotNow, TmpWrite, TmpFlush, Listing, PointReached, MidPart;
      ghost var before := View();
      var snapshot, mid, empty := BeginCheckpoint();
      SameSnapshotNow(crc, before, View());
      if stopAt == Some(MidSnapshot) && !empty {
        WriteTmp(snapshot, mid);
        PointTmp(crc, before, mid);
        return false;
      }
      WriteTmp(snapshot, |snapshot|);
      PointTmp(crc, before, |snapshot|);
      if stopAt == Some(AfterSnapshotWrite) { return false; }
      ghost var written := View();
      FlushTmp();
      PointFlush(crc, before, written);
      return stopAt != Some(AfterSnapshotFsync) && stopAt != Some(AfterSnapshotClose);
    }

    /** Writes and installs the snapshot; goes on unless stopped by then. */
    method InstallSnapshot(stopAt: Option<FailPoint>) returns (go: bool)
      requires Valid() && phase == Running && !closed && nextSeq <= durableSeq && |index.model| <= Snap.MAX_COUNT
      modifies this`phase, this`tmp, this`disk, this`segments, this`base
      ensures Valid()
      ensures go <==> !StopsEarly(stopAt, index.model == map[])
      ensures PointReached(crc, old(View()), View(), if go then AfterSnapshotDirFsync else stopAt.value)
    {
      hide Inv, Index.Valid, Buffer, SnapshotNow, Rename, SyncDir, PointReached;
      ghost var before := View();
      NothingPending(crc, before, segments, base);
      go := WriteSnapshot(stopAt);
      if !go { return false; }
      ghost var flushed := View();
      PointPhase(crc, before, flushed, AfterSnapshotFsync);
      RenameTmp();
      PointRename(crc, before, flushed);
      if stopAt == Some(AfterRename) { return false; }
      ghost var renamed := View();
      SyncDirectory();
      PointInstall(crc, before, renamed);
      return stopAt != Some(AfterSnapshotDirFsync);
    }

    /** Closes the old segment and starts the new one, unless stopped by then. s is where the checkpoint began. */
    method SwitchSegment(stopAt: Option<FailPoint>, ghost s: Sys) returns (go: bool)
      requires Valid() && PointReached(crc, s, View(), AfterSnapshotDirFsync) && segment < U64_MAX
      modifies this`phase, this`disk, this`segments, this`base, this`segment, this`walOff
      ensures Valid()
      ensures go <==> !StopsInSwitch(stopAt)
      ensures PointReached(crc, s, View(), if go then AfterNewWalDirFsync else stopAt.value)
    {
      hide Inv, Index.Valid, Buffer, CloseOld, Rotate, SyncDir, PointReached;
      ghost var installed := View();
      PointPhase(crc, s, installed, AfterSnapshotDirFsync);
      ActiveFile(crc, installed, segments, base);
      CloseOldWal();
      PointClose(crc, s, installed);
      if stopAt == Some(AfterOldWalClose) { return false; }
      ghost var oldClosed := View();
      IdleWriter(crc, oldClosed, segments, base);
      CreateWal();
      PointRotate(crc, s, oldClosed);
      if stopAt == Some(AfterNewWalCreate) { return false; }
      ghost var created := View();
      SyncDirectory();
      PointNewDurable(crc, s, created);
      return stopAt != Some(AfterNewWalDirFsync) && stopAt != Some(BeforeOldWalRemove);
    }

    /** One turn of a living writer with something to do; a write or sync it has in hand may fail. */
    method WriterTurn(fault: bool)
      requires Valid() && Alive(View()) && durableSeq < nextSeq
      modifies this`queue, this`local, this`buf, this`writer, this`disk, this`walOff, this`durableSeq, this`segments,
               this`writerError, this`stop
      ensures Valid()
      ensures View() == if fault && old(writer).Holding? then Fail(old(View()))
                        else EngineModel.Next(crc, old(View()), WriterStep(crc, old(View()), walBatch))
      ensures disk == old(disk).(files := disk.files)
    {
      hide Inv, Index.Valid, Buffer, Take, WriteTo, Flush, Publish, Fail, Exit, EngineModel.Next;
      ghost var before := View();
      Undrained(crc, before, segments, base);
      NextWriter(crc, before, walBatch, |Buffer(crc, before.inflight)|);
      TurnDisk(crc, before, walBatch);
      match writer
      case Idle => TakeBatch();
      case Holding(n) =>
        if fault { FailWriter(); }
        else if n < |buf| { WritePart(|buf|); }
        else { FlushWal(); }
      case Flushed => PublishBatch();
    }

    /** A wait for every ticket, while the writer takes its turns; fault says which of them fail. */
    method AwaitTickets(fault: nat -> bool) returns (ok: bool)
      requires Valid() && phase == Running && !closed
      modifies this`queue, this`local, this`buf, this`writer, this`disk, this`walOff, this`durableSeq, this`segments,
               this`writerError, this`stop
      ensures Valid() && (ok <==> !writerError) && (ok ==> nextSeq == durableSeq)
      ensures !old(writerError) && (forall i: nat :: !fault(i)) ==> ok
      ensures Waited(old(View()), View())
    {
      hide Inv, Index.Valid, Work, WriterStep, EngineModel.Next, Fail, Alive;
      var turn := 0;
      AllDone(crc, View(), segments, base);
      while durableSeq < nextSeq && !writerError
        invariant Valid() && durableSeq <= nextSeq && turn >= 0
        invariant disk == old(disk).(files := disk.files)
        invariant !old(writerError) && (forall i: nat :: !fault(i)) ==> !writerError
        decreases if writerError then 0 else 1, Work(crc, View())
      {
        ghost var before := View();
        OpenAlive(crc, before, segments, base);
        WriterWorks(crc, before, segments, base, walBatch);
        FailSets(before);
        TurnFailsNot(crc, before, walBatch);
        WriterTurn(fault(turn));
        WorksLess(crc, before, View());
        AllDone(crc, View(), segments, base);
        turn := turn + 1;
      }
      if writerError { FailedShort(crc, View(), segments, base); }
      return !writerError;
    }

    /**
     * checkpoint_impl, stopped at a point if one is given: waits until every ticket is durable, writes and
     * installs the snapshot, starts a new segment and removes the covered ones. Wherever it stops, the
     * engine is in a state from which recovery finds every operation.
     */
    method Checkpoint(stopAt: Option<FailPoint>, fault: nat -> bool) returns (done: bool)
      requires Valid() && phase == Running && |index.model| <= Snap.MAX_COUNT && segment < U64_MAX
      modifies this`queue, this`local, this`buf, this`writer, this`durableSeq, this`writerError, this`stop,
               this`phase, this`tmp, this`disk, this`segments, this`base, this`segment, this`walOff
      ensures Valid() && hist == old(hist) && index.model == old(index.model)
      ensures closed ==> !done && View() == old(View())
      ensures !closed && writerError ==> !done && phase == Running
      ensures old(!closed && !writerError) && (forall i: nat :: !fault(i)) ==> !writerError
      ensures !closed && !writerError ==> Halted(crc, old(View()), View(), done, stopAt)
      ensures !closed && !writerError ==> nextSeq == durableSeq && (done <==> !Stops(stopAt, index.model == map[]))
      ensures done ==> Finished(crc, old(View()), View())
    {
      hide Valid, Finished, PointReached, Halted, Waited;
      if closed { return false; }
      ghost var before := View();
      var ok := AwaitTickets(fault);
      if !ok { return false; }
      ghost var waited := View();
      done := CheckpointNow(stopAt);
      HaltedLater(crc, before, waited, View(), done, stopAt);
    }

    /** The checkpoint once every ticket is durable. */
    method CheckpointNow(stopAt: Option<FailPoint>) returns (done: bool)
      requires Valid() && phase == Running && !closed && nextSeq <= durableSeq
      requires |index.model| <= Snap.MAX_COUNT && segment < U64_MAX
      modifies this`phase, this`tmp, this`disk, this`segments, this`base, this`segment, this`walOff
      ensures Valid() && (done <==> !Stops(stopAt, index.model == map[]))
      ensures Halted(crc, old(View()), View(), done, stopAt)
    {
      hide Inv, Index.Valid, Buffer, SnapshotNow, Finished, PointReached;
      ghost var before := View();
      var go := InstallSnapshot(stopAt);
      if !go { return false; }
      PointPhase(crc, before, View(), AfterSnapshotDirFsync);
      go := SwitchSegment(stopAt, before);
      if !go { return false; }
      done := RetireCovered(stopAt, before);
    }

    /** Removes the covered segments and syncs the directory. s is where the checkpoint began. */
    method RetireCovered(stopAt: Option<FailPoint>, ghost s: Sys) returns (done: bool)
      requires Valid() && PointReached(crc, s, View(), AfterNewWalDirFsync)
      modifies this`phase, this`disk, this`segments, this`base
      ensures Valid()
      ensures done <==> stopAt != Some(AfterOldWalRemove) && stopAt != Some(AfterOldWalRemoveDirFsync)
      ensures PointReached(crc, s, View(),
        if stopAt == Some(AfterOldWalRemove) then AfterOldWalRemove else AfterOldWalRemoveDirFsync)
    {
      hide Inv, Index.Valid, Buffer, SnapshotNow, Finished, Live, SyncDir, PointReached;
      ghost var switched := View();
      PointPhase(crc, s, switched, AfterNewWalDirFsync);
      RemoveCovered();
      PointRemoved(crc, s, switched, View());
      if stopAt == Some(AfterOldWalRemove) { return false; }
      ghost var last := View();
      SyncFinishes(crc, last, segments, base);
      SyncDirectory();
      PointFinished(crc, s, last, View());
      return stopAt != Some(AfterOldWalRemoveDirFsync);
    }

    /** Wherever a checkpoint stopped, a crash that can be read recovers every operation, for either reader. */
    lemma CrashHere(keep: nat -> bool, cut: nat)
      requires Valid() && phase != Running && Reads(crc, View(), keep, cut)
      ensures BothRecover(crc, CrashImage(View(), keep, cut), nextSeq, index.model)
    {
      hide Inv, Index.Valid, BothRecover, CrashImage, Recover;
      SegmentsNotEmpty(crc, View(), segments, base);
      QuietCrash(crc, View(), segments, base, keep, cut);
    }
  }

  lemma QuietCrash(crc: Crc, s: Sys, gs: seq<Seg>, s0: nat, keep: nat -> bool, cut: nat)
    requires Inv(crc, s, gs, s0) && s.phase != Running && Reads(crc, s, keep, cut)
    ensures BothRecover(crc, CrashImage(s, keep, cut), s.next, s.index)
  {
    hide PipeInv, FileInv, DirInv, Fold, Recover, CrashImage;
    SegmentsNotEmpty(crc, s, gs, s0);
    Quiescent(crc, s);
    var k := CrashFrom(crc, s, gs, s0, keep, cut);
  }

  // ------------------------------------------------------------------ the points of a checkpoint

  ghost predicate SameNames(s: Sys, t: Sys) {
    t.disk.names == s.disk.names && t.disk.pending == s.disk.pending && t.segment == s.segment
  }

  /** The new snapshot is synced, and nothing is pending. */
  ghost predicate SnapshotSynced(crc: Crc, s: Sys, t: Sys) {
    && t.disk.names == s.disk.names.(snapshot := Some(SnapshotNow(crc, s)))
    && t.disk.pending == [] && t.segment == s.segment
  }

  /** The synced names once the next segment is among them. */
  ghost function NamesWithNext(crc: Crc, s: Sys, segment: u64): Names {
    Names(Some(SnapshotNow(crc, s)), s.disk.names.wals + [segment])
  }

  /** How far the files are at a point of the checkpoint that began at s. */
  ghost predicate PointReached(crc: Crc, s: Sys, t: Sys, f: FailPoint) {
    var now := SnapshotNow(crc, s);
    && t.hist == s.hist && t.index == s.index && t.next == s.next
    && match f
      case MidSnapshot =>
        t.phase.TmpWriting? && t.phase.written <= |now| && t.tmp.bytes == now[..t.phase.written]
        && s.next <= U64_MAX && MidPart(s.next, Listing(s.index), now, t.phase.written) && SameNames(s, t)
      case AfterSnapshotWrite => t.phase == TmpWriting(|now|) && t.tmp.bytes == now && SameNames(s, t)
      case AfterSnapshotFsync => t.phase == TmpFlushed && t.tmp == File(now, |now|) && SameNames(s, t)
      case AfterSnapshotClose => t.phase == TmpFlushed && t.tmp == File(now, |now|) && SameNames(s, t)
      case AfterRename =>
        t.phase == Renamed && t.segment == s.segment && t.disk.names == s.disk.names
        && t.disk.pending == [SetSnapshot(now)]
      case AfterSnapshotDirFsync => t.phase == SnapshotDurable && SnapshotSynced(crc, s, t)
      case AfterOldWalClose =>
        t.phase == OldClosed && SnapshotSynced(crc, s, t) && t.segment in t.disk.files
        && t.disk.files[t.segment].synced == |t.disk.files[t.segment].bytes|
      case AfterNewWalCreate =>
        t.phase == NewCreated && t.segment == s.segment + 1 && t.disk.pending == [AddWal(t.segment)]
        && t.disk.names == s.disk.names.(snapshot := Some(now)) && NewFile(crc, s, t)
      case AfterNewWalDirFsync =>
        t.phase == NewDurable && t.segment == s.segment + 1 && t.disk.pending == []
        && t.disk.names == NamesWithNext(crc, s, t.segment) && NewFile(crc, s, t)
      case BeforeOldWalRemove =>
        t.phase == NewDurable && t.segment == s.segment + 1 && t.disk.pending == []
        && t.disk.names == NamesWithNext(crc, s, t.segment) && NewFile(crc, s, t)
      case AfterOldWalRemove =>
        (t.phase == NewDurable || t.phase == Removing) && t.segment == s.segment + 1
        && t.disk.names == NamesWithNext(crc, s, t.segment) && Live(t.disk).wals == [t.segment]
      case AfterOldWalRemoveDirFsync => Finished(crc, s, t)
  }

  /** The new segment file is its header, synced. */
  ghost predicate NewFile(crc: Crc, s: Sys, t: Sys) {
    && s.next < U64_MAX && t.segment in t.disk.files
    && t.disk.files[t.segment] == File(W.HeaderBytes(crc, W.Header(t.segment, s.next + 1)), W.HEADER_SIZE)
  }

  lemma NothingPending(crc: Crc, s: Sys, gs: seq<Seg>, s0: nat)
    requires Inv(crc, s, gs, s0) && s.phase == Running
    ensures s.disk.pending == []
  {
    hide PipeInv, FileInv, SnapOk, Chain, Ids;
    SegmentsNotEmpty(crc, s, gs, s0);
  }

  lemma PointPhase(crc: Crc, s: Sys, t: Sys, f: FailPoint)
    requires PointReached(crc, s, t, f)
    ensures f == AfterSnapshotFsync ==> t.phase == TmpFlushed
    ensures f == AfterSnapshotDirFsync ==> t.phase == SnapshotDurable && t.segment == s.segment
    ensures f == AfterNewWalDirFsync ==> t.phase == NewDurable
  {
    hide SnapshotNow, MidPart, Finished, Live, W.HeaderBytes;
  }

  lemma PointTmp(crc: Crc, s: Sys, n: nat)
    requires s.phase == Running && !s.closed && s.next <= s.durable && |s.index| <= Snap.MAX_COUNT
    requires n <= |SnapshotNow(crc, s)| && s.next <= U64_MAX
    ensures var t := TmpWrite(crc, CheckpointBegin(s), n);
      && (n == |SnapshotNow(crc, s)| ==> PointReached(crc, s, t, AfterSnapshotWrite))
      && (MidPart(s.next, Listing(s.index), SnapshotNow(crc, s), n) ==> PointReached(crc, s, t, MidSnapshot))
  {
    SameSnapshotNow(crc, s, CheckpointBegin(s));
    hide SnapshotNow, MidPart, Listing;
    var now := SnapshotNow(crc, s);
    assert now[..|now|] == now;
  }

  lemma PointFlush(crc: Crc, s: Sys, t: Sys)
    requires PointReached(crc, s, t, AfterSnapshotWrite)
    ensures PointReached(crc, s, TmpFlush(crc, t), AfterSnapshotFsync)
    ensures PointReached(crc, s, TmpFlush(crc, t), AfterSnapshotClose)
  {
    SameSnapshotNow(crc, s, t);
    hide SnapshotNow, MidPart, Finished, Live, W.HeaderBytes;
  }

  lemma PointRename(crc: Crc, s: Sys, t: Sys)
    requires PointReached(crc, s, t, AfterSnapshotFsync) && s.disk.pending == []
    ensures PointReached(crc, s, Rename(t), AfterRename)
  {
    hide SnapshotNow, MidPart, Finished, Live, W.HeaderBytes;
    var now := SnapshotNow(crc, s);
    assert now[..|now|] == now;
  }

  lemma PointInstall(crc: Crc, s: Sys, t: Sys)
    requires PointReached(crc, s, t, AfterRename)
    ensures PointReached(crc, s, SyncDir(t), AfterSnapshotDirFsync)
  {
    hide SnapshotNow, MidPart, Finished, W.HeaderBytes, Kept;
    KeepOne(t.disk.names, SetSnapshot(SnapshotNow(crc, s)));
  }

  lemma PointClose(crc: Crc, s: Sys, t: Sys)
    requires PointReached(crc, s, t, AfterSnapshotDirFsync) && t.segment in t.disk.files
    ensures PointReached(crc, s, CloseOld(t), AfterOldWalClose)
  {
    hide SnapshotNow, MidPart, Finished, W.HeaderBytes, Live;
  }

  lemma PointRotate(crc: Crc, s: Sys, t: Sys)
    requires PointReached(crc, s, t, AfterOldWalClose) && t.segment < U64_MAX && t.next < U64_MAX
    ensures PointReached(crc, s, Rotate(crc, t), AfterNewWalCreate)
  {
    hide SnapshotNow, MidPart, Finished, W.HeaderBytes, Live;
  }

  lemma PointNewDurable(crc: Crc, s: Sys, t: Sys)
    requires PointReached(crc, s, t, AfterNewWalCreate)
    ensures PointReached(crc, s, SyncDir(t), AfterNewWalDirFsync)
    ensures PointReached(crc, s, SyncDir(t), BeforeOldWalRemove)
  {
    hide SnapshotNow, MidPart, Finished, W.HeaderBytes, Kept;
    KeepOne(t.disk.names, AddWal(t.segment));
  }

  lemma PointRemoved(crc: Crc, s: Sys, t: Sys, u: Sys)
    requires PointReached(crc, s, t, AfterNewWalDirFsync)
    requires u == t.(phase := u.phase, disk := t.disk.(pending := u.disk.pending))
    requires (u.phase == NewDurable || u.phase == Removing) && Live(u.disk).wals == [u.segment]
    ensures PointReached(crc, s, u, AfterOldWalRemove)
  {
    hide SnapshotNow, MidPart, Finished, W.HeaderBytes, Live;
  }

  lemma PointFinished(crc: Crc, s: Sys, t: Sys, u: Sys)
    requires PointReached(crc, s, t, AfterOldWalRemove) && Finished(crc, t, u) && u.index == t.index && u.next == t.next
    ensures PointReached(crc, s, u, AfterOldWalRemoveDirFsync)
  {
    hide SnapshotNow, Finished;
    PointSame(crc, s, t, AfterOldWalRemove);
    FinishedLater(crc, s, t, u);
    FinishedHist(crc, s, u);
    PointEnds(crc, s, u);
  }

  lemma FinishedHist(crc: Crc, s: Sys, t: Sys)
    requires Finished(crc, s, t)
    ensures t.hist == s.hist
  {
    hide SnapOk;
  }

  lemma PointEnds(crc: Crc, s: Sys, t: Sys)
    requires Finished(crc, s, t) && t.hist == s.hist && t.index == s.index && t.next == s.next
    ensures PointReached(crc, s, t, AfterOldWalRemoveDirFsync)
  {
    hide SnapshotNow, Finished;
  }

  lemma PointSame(crc: Crc, s: Sys, t: Sys, f: FailPoint)
    requires PointReached(crc, s, t, f)
    ensures t.hist == s.hist && t.index == s.index && t.next == s.next
  {
    hide SnapshotNow, MidPart, Finished, Live, NewFile, NamesWithNext;
  }

  /** What the writer's turns leave alone: the operations, the phase, the names and the temporary file. */
  ghost predicate Waited(s: Sys, t: Sys) {
    t == s.(durable := t.durable, inflight := t.inflight, queue := t.queue, writer := t.writer, stop := t.stop,
            failed := t.failed, disk := s.disk.(files := t.disk.files))
  }

  lemma PointNames(crc: Crc, s: Sys, t: Sys)
    requires Waited(s, t)
    ensures SnapshotNow(crc, s) == SnapshotNow(crc, t)
    ensures forall n: u64 :: NamesWithNext(crc, s, n) == NamesWithNext(crc, t, n)
    ensures forall u: Sys :: NewFile(crc, t, u) ==> NewFile(crc, s, u)
  {
    SameSnapshotNow(crc, s, t);
    hide SnapshotNow, W.HeaderBytes;
  }

  /** A wait before the checkpoint changes none of what is said of its points. */
  lemma PointLater(crc: Crc, s: Sys, t: Sys, u: Sys, f: FailPoint)
    requires PointReached(crc, t, u, f) && Waited(s, t)
    ensures PointReached(crc, s, u, f)
  {
    hide SnapshotNow, MidPart, Finished, W.HeaderBytes, Live, NewFile, NamesWithNext;
    PointNames(crc, s, t);
    if Finished(crc, t, u) { FinishedLater(crc, s, t, u); }
  }

  /** A checkpoint is done, or has come to the point at which it was to stop. */
  ghost predicate Halted(crc: Crc, s: Sys, t: Sys, done: bool, stopAt: Option<FailPoint>) {
    if done then PointReached(crc, s, t, AfterOldWalRemoveDirFsync)
    else stopAt.Some? && PointReached(crc, s, t, stopAt.value)
  }

  lemma HaltedLater(crc: Crc, s: Sys, t: Sys, u: Sys, done: bool, stopAt: Option<FailPoint>)
    requires Halted(crc, t, u, done, stopAt) && Waited(s, t)
    ensures Halted(crc, s, u, done, stopAt) && (done ==> Finished(crc, s, u))
  {
    hide PointReached, Finished, Waited;
    PointLater(crc, s, t, u, if done then AfterOldWalRemoveDirFsync else stopAt.value);
    if done { PointDone(crc, s, u); }
  }

  lemma PointDone(crc: Crc, s: Sys, t: Sys)
    requires PointReached(crc, s, t, AfterOldWalRemoveDirFsync)
    ensures Finished(crc, s, t)
  {
    hide SnapshotNow, Finished;
  }

  /** The points at which the process is killed, for a map that is empty or not. */
  predicate Stops(stopAt: Option<FailPoint>, empty: bool) {
    stopAt.Some? && !(stopAt.value == MidSnapshot && empty)
  }

  lemma MidLength(crc: Crc, sequence: u64, items: seq<Item>)
    requires items != []
    ensures MidCount(|items|) <= |items|
    ensures var part := Snap.Preamble(sequence, |items|) + Snap.ItemsBytes(items[..MidCount(|items|)]);
      |part| <= |Snap.SnapshotBytes(crc, sequence, items)| && Snap.SnapshotBytes(crc, sequence, items)[..|part|] == part
  {
    hide Snap.Preamble, Snap.ItemBytes, Crc.Of;
    var k := MidCount(|items|);
    Snap.ItemsBytesSplit(items, k);
  }

  lemma Undrained(crc: Crc, s: Sys, gs: seq<Seg>, s0: nat)
    requires Inv(crc, s, gs, s0) && s.durable < s.next
    ensures s.writer == Idle ==> s.queue != []
    ensures s.writer.Holding? ==> s.writer.written <= |Buffer(crc, s.inflight)|
  {
    hide PipeInv, FileInv, DirInv, Buffer;
    SegmentsNotEmpty(crc, s, gs, s0);
    NotDrained(s);
    HeldWithin(crc, s, gs);
  }

  lemma OpenAlive(crc: Crc, s: Sys, gs: seq<Seg>, s0: nat)
    requires Inv(crc, s, gs, s0) && !s.closed && !s.failed
    ensures Alive(s)
  {
    hide FileInv, DirInv, Fold, Sound;
    SegmentsNotEmpty(crc, s, gs, s0);
  }

  /** A failed writer still holds operations that are not durable. */
  lemma FailedShort(crc: Crc, s: Sys, gs: seq<Seg>, s0: nat)
    requires Inv(crc, s, gs, s0) && s.failed
    ensures s.durable < s.next
  {
    hide FileInv, DirInv, Fold, Sound;
    SegmentsNotEmpty(crc, s, gs, s0);
  }

  lemma FailSets(s: Sys)
    ensures s.writer.Holding? ==> Fail(s).failed
  {
  }

  /** A turn of the writer changes no name. */
  lemma TurnDisk(crc: Crc, s: Sys, walBatch: nat)
    ensures var t := EngineModel.Next(crc, s, WriterStep(crc, s, walBatch)); t.disk == s.disk.(files := t.disk.files)
    ensures Fail(s).disk == s.disk
  {
    hide Buffer;
  }

  lemma TurnFailsNot(crc: Crc, s: Sys, walBatch: nat)
    ensures EngineModel.Next(crc, s, WriterStep(crc, s, walBatch)).failed == s.failed
  {
    hide Buffer;
  }

  lemma WorksLess(crc: Crc, s: Sys, t: Sys)
    ensures Works(crc, s, t) ==> Work(crc, t) < Work(crc, s)
  {
    hide Work;
  }

  lemma IndexIsFold(crc: Crc, s: Sys, gs: seq<Seg>, s0: nat)
    requires Inv(crc, s, gs, s0)
    ensures s.index == Apply(map[], s.hist)
  {
    hide FileInv, DirInv, Sound, Apply;
    SegmentsNotEmpty(crc, s, gs, s0);
    assert s.hist[..|s.hist|] == s.hist;
  }

  /** The opened state apart from its history and map. */
  lemma OpenedApart(crc: Crc, names: Names, files: map<u64, Bytes>, hist: History, r: Recovered, m: Map)
    ensures var s := EngineModel.Opened(crc, names, files, [], r);
      EngineModel.Opened(crc, names, files, hist, r.(values := m)) == s.(hist := hist, index := m)
    ensures var s := EngineModel.Opened(crc, names, files, [], r);
      s == Sys([], r.sequence, r.sequence, r.values, [], [], Idle, false, false, false, s.phase,
               File([], 0), s.segment, s.disk)
  {
    hide W.HeaderBytes;
  }

  lemma SubmitIs(s: Sys, op: Operation)
    requires W.Submittable(op) && !s.closed && !s.failed && s.phase == Running && s.next + 1 < U64_MAX
    ensures EngineModel.Submit(s, op) == s.(hist := s.hist + [op], next := s.next + 1, index := ApplyOne(s.index, op),
      queue := s.queue + [Pending(s.next + 1, op)])
  {
    hide W.Submittable, ApplyOne;
  }

  lemma RotateIs(crc: Crc, s: Sys, gs: seq<Seg>, s0: nat)
    requires Inv(crc, s, gs, s0) && s.phase == OldClosed && s.segment < U64_MAX && s.next < U64_MAX
    ensures Inv(crc, Rotate(crc, s), gs + [Fresh(s)], s0)
    ensures var f := File(W.HeaderBytes(crc, W.Header(s.segment + 1, s.next + 1)), W.HEADER_SIZE);
      Rotate(crc, s) == s.(segment := s.segment + 1, phase := NewCreated, disk := s.disk.(
        files := s.disk.files[s.segment + 1 := f], pending := s.disk.pending + [AddWal(s.segment + 1)]))
  {
    hide W.HeaderBytes, Inv;
    RotateKeeps(crc, s, gs, s0);
  }

  lemma SyncDirIs(s: Sys)
    requires s.phase in {Renamed, NewCreated, Opening}
      || (s.phase in {NewDurable, Removing} && Live(s.disk).wals == [s.segment])
    ensures SyncDir(s) == s.(disk := s.disk.(names := Live(s.disk), pending := []),
      phase := if s.phase == Renamed then SnapshotDurable else if s.phase == NewCreated then NewDurable else Running)
  {
    hide Live;
  }

  /** t holds the first operations of the queue of s, as many as a batch may have, and the others are still queued. */
  ghost predicate Taken(s: Sys, t: Sys, walBatch: nat) {
    && |t.inflight| == (if |s.queue| <= walBatch then |s.queue| else walBatch)
    && t.inflight + t.queue == s.queue && t.writer == Holding(0)
  }

  lemma TakeIs(s: Sys, walBatch: nat)
    requires s.writer == Idle && s.queue != [] && walBatch > 0
    ensures var n := if |s.queue| <= walBatch then |s.queue| else walBatch;
      Take(s, walBatch) == s.(inflight := s.queue[..n], queue := s.queue[n..], writer := Holding(0))
    ensures Taken(s, Take(s, walBatch), walBatch)
  {
    var n := if |s.queue| <= walBatch then |s.queue| else walBatch;
    assert s.queue[..n] + s.queue[n..] == s.queue;
  }

  /** The active file is there. */
  lemma ActiveFile(crc: Crc, s: Sys, gs: seq<Seg>, s0: nat)
    requires Inv(crc, s, gs, s0)
    ensures s.segment in s.disk.files && gs != []
  {
    hide PipeInv, FileInv, DirInv;
    SegmentsNotEmpty(crc, s, gs, s0);
    NotEmpty(crc, s, gs);
  }

  lemma IdleWriter(crc: Crc, s: Sys, gs: seq<Seg>, s0: nat)
    requires Inv(crc, s, gs, s0) && s.phase != Running
    ensures s.writer == Idle && s.next == |s.hist| == s.durable < U64_MAX
  {
    hide PipeInv, FileInv, DirInv;
    SegmentsNotEmpty(crc, s, gs, s0);
    Quiescent(crc, s);
  }

  /** A synced batch is not empty, and ends above what was durable. */
  lemma BatchEnds(crc: Crc, s: Sys, gs: seq<Seg>, s0: nat)
    requires Inv(crc, s, gs, s0) && s.writer == Flushed
    ensures s.inflight != [] && s.inflight[|s.inflight| - 1].sequence == s.durable + |s.inflight|
  {
    hide FileInv, DirInv, Fold, Sound;
    SegmentsNotEmpty(crc, s, gs, s0);
  }

  lemma NoRecords(crc: Crc)
    ensures Records(crc, RecordsOf([])) == []
  {
  }

  lemma OneMoreRecord(crc: Crc, ps: seq<Pending>, i: nat)
    requires i < |ps|
    ensures Records(crc, RecordsOf(ps[..i + 1]))
      == Records(crc, RecordsOf(ps[..i])) + W.RecordBytes(crc, W.Record(ps[i].sequence, ps[i].op))
  {
    hide W.RecordBytes;
    var a, b := RecordsOf(ps[..i]), [W.Record(ps[i].sequence, ps[i].op)];
    assert RecordsOf(ps[..i + 1]) == a + b;
    RecordsConcat(crc, a, b);
    assert b[1..] == [];
  }

  /** Opening an empty directory gives the initial state, which keeps the invariant. */
  lemma OpenEmpty(crc: Crc)
    ensures Recover(Engine, crc, ImageOf(Names(None, []), map[])) == Success(NOTHING)
    ensures EngineModel.Opened(crc, Names(None, []), map[], [], NOTHING) == Initial(crc)
    ensures Inv(crc, Initial(crc), [Seg(1, 0, 0)], 0)
  {
    InitialInv(crc);
  }

  /** Opening what a crash left succeeds, and gives the state after the crash, with the history that was recovered. */
  lemma OpenAfterCrash(crc: Crc, s: Sys, gs: seq<Seg>, s0: nat, keep: nat -> bool, cut: nat)
    returns (r: Recovered, gs': seq<Seg>, s0': nat)
    requires Inv(crc, s, gs, s0) && Reads(crc, s, keep, cut)
    ensures s.durable <= r.sequence <= |s.hist|
    ensures var names := CrashNames(s, keep);
      Recover(Engine, crc, ImageOf(names, SurvivingFiles(s, names.wals, cut))) == Success(r)
    ensures OpensAs(crc, s, keep, cut, r) == Crash(crc, s, keep, cut)
    ensures Inv(crc, OpensAs(crc, s, keep, cut, r), gs', s0')
  {
    hide Inv, Recover, CrashNames, Survivor, Continued, W.HeaderBytes;
    hide RecoversTo, Survives, FilesKnown, FoundWell, Fold, Readback;
    var names := CrashNames(s, keep);
    SameImage(s, keep, cut);
    var left, at;
    r, left, at := CrashRecovers(crc, s, gs, s0, keep, cut);
    RecoveredRange(crc, s, gs, keep, cut, r, left, at);
    var k;
    gs', s0', k := CrashKeeps(crc, s, gs, s0, keep, cut);
  }

  /** The engine opened on what a crash left, with the history that was recovered. */
  ghost function OpensAs(crc: Crc, s: Sys, keep: nat -> bool, cut: nat, r: Recovered): Sys
    requires r.sequence <= |s.hist|
  {
    var names := CrashNames(s, keep);
    EngineModel.Opened(crc, names, SurvivingFiles(s, names.wals, cut), s.hist[..r.sequence], r)
  }

  lemma RecoveredRange(crc: Crc, s: Sys, gs: seq<Seg>, keep: nat -> bool, cut: nat, r: Recovered,
                       left: seq<Seg>, at: nat)
    requires RecoversTo(crc, s, gs, keep, cut, r, left, at)
    ensures s.durable <= r.sequence <= |s.hist|
  {
    hide Fold, Survives, FilesKnown, FoundWell;
  }

  lemma SameImage(s: Sys, keep: nat -> bool, cut: nat)
    ensures ImageOf(CrashNames(s, keep), SurvivingFiles(s, CrashNames(s, keep).wals, cut)) == CrashImage(s, keep, cut)
  {
    hide CrashNames, Survivor;
  }
}
