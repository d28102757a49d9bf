/**
 * The v1 engine as a state machine: submitters, the writer thread, checkpoint and close interleave in
 * any order of their mutex-protected blocks and file-system calls, and the machine may crash at any point.
 */
module EngineModel {
  import opened Bytes
  import opened KeyOrder
  import opened Options
  import opened Store
  import W = SegmentWal
  import opened SegmentReplay
  import Snap = Snapshot
  import opened DirectoryRecovery
  import opened EngineHistory
  import opened DiskModel
  import opened SegmentNames

  datatype Pending = Pending(sequence: u64, op: Operation)

  /** Waiting; holding a batch of which so many bytes are written; synced but not published; ended; failed. */
  datatype Writer = Idle | Holding(written: nat) | Flushed | Exited | Dead(written: nat)

  /** How far a checkpoint, or the opening of an empty directory, has come. */
  datatype Phase =
    | Running | TmpWriting(written: nat) | TmpFlushed | Renamed | SnapshotDurable | OldClosed
    | NewCreated | NewDurable | Removing | Opening

  // ------------------------------------------------------------------ the state

  datatype Sys = Sys(
    hist: History,           // every operation accepted so far; operation i + 1 is hist[i]
    durable: nat,            // durable_seq
    next: nat,               // next_seq
    index: Map,
    inflight: seq<Pending>,  // the batch the writer holds
    queue: seq<Pending>,
    writer: Writer,
    closed: bool,
    stop: bool,
    failed: bool,            // writer_error is set
    phase: Phase,
    tmp: File,               // snapshot.tmp
    segment: u64,            // the active segment
    disk: Disk)

  function RecordsOf(ps: seq<Pending>): (rs: seq<W.Record>)
    ensures |rs| == |ps|
    ensures forall i :: 0 <= i < |ps| ==> rs[i] == W.Record(ps[i].sequence, ps[i].op)
  {
    seq(|ps|, i requires 0 <= i < |ps| => W.Record(ps[i].sequence, ps[i].op))
  }

  /** The bytes the writer appends for a batch. */
  function Buffer(crc: Crc, ps: seq<Pending>): Bytes {
    Records(crc, RecordsOf(ps))
  }

  /** The snapshot a checkpoint writes now. */
  ghost function SnapshotNow(crc: Crc, s: Sys): Bytes {
    Snap.SnapshotBytes(crc, if s.next <= U64_MAX then s.next else 0, Listing(s.index))
  }

  // ------------------------------------------------------------------ the steps

  /** submit_impl. Scope: sequences below the top of the range. */
  function Submit(s: Sys, op: Operation): Sys {
    if W.Submittable(op) && !s.closed && !s.failed && s.phase == Running && s.next + 1 < U64_MAX then
      s.(hist := s.hist + [op], next := s.next + 1, index := ApplyOne(s.index, op),
         queue := s.queue + [Pending(s.next + 1, op)])
    else s
  }

  /** The writer takes up to a batch from the queue. */
  function Take(s: Sys, walBatch: nat): Sys {
    if s.writer == Idle && s.queue != [] && walBatch > 0 then
      var n := if |s.queue| <= walBatch then |s.queue| else walBatch;
      s.(inflight := s.queue[..n], queue := s.queue[n..], writer := Holding(0))
    else s
  }

  function WithFile(s: Sys, id: u64, f: File): Sys {
    s.(disk := s.disk.(files := s.disk.files[id := f]))
  }

  /** The writer's pwrite has come to n bytes of its buffer. */
  function WriteTo(crc: Crc, s: Sys, n: nat): Sys {
    if s.writer.Holding? && s.writer.written <= n <= |Buffer(crc, s.inflight)| && s.segment in s.disk.files then
      var f := s.disk.files[s.segment];
      WithFile(s, s.segment, f.(bytes := f.bytes + Buffer(crc, s.inflight)[s.writer.written..n])).(writer := Holding(n))
    else s
  }

  /** fdatasync after the whole buffer was written. */
  function Flush(crc: Crc, s: Sys): Sys {
    if s.writer == Holding(|Buffer(crc, s.inflight)|) && s.segment in s.disk.files then
      var f := s.disk.files[s.segment];
      WithFile(s, s.segment, f.(synced := |f.bytes|)).(writer := Flushed)
    else s
  }

  /** durable_seq.store(local.back().seq). */
  function Publish(s: Sys): Sys {
    if s.writer == Flushed && s.inflight != [] then
      s.(durable := s.inflight[|s.inflight| - 1].sequence, inflight := [], writer := Idle)
    else s
  }

  /** A write or sync of the writer fails: the error is kept and the writer ends. */
  function Fail(s: Sys): Sys {
    if s.writer.Holding? then s.(writer := Dead(s.writer.written), failed := true, stop := true) else s
  }

  /** close_impl sets closed under the submit mutex. */
  function Close(s: Sys): Sys {
    if s.phase == Running then s.(closed := true) else s
  }

  /** close_impl sets stop, after it waited. */
  function Stop(s: Sys): Sys {
    if s.closed then s.(stop := true) else s
  }

  function Exit(s: Sys): Sys {
    if s.stop && s.queue == [] && s.writer == Idle then s.(writer := Exited) else s
  }

  /** checkpoint_impl holds the submit mutex and has waited for all tickets. Scope: a snapshot the engine can load. */
  function CheckpointBegin(s: Sys): Sys {
    if s.phase == Running && !s.closed && s.next <= s.durable && |s.index| <= Snap.MAX_COUNT then
      s.(phase := TmpWriting(0), tmp := File([], 0))
    else s
  }

  ghost function TmpWrite(crc: Crc, s: Sys, n: nat): Sys {
    if s.phase.TmpWriting? && s.phase.written <= n <= |SnapshotNow(crc, s)| then
      s.(phase := TmpWriting(n), tmp := s.tmp.(bytes := SnapshotNow(crc, s)[..n]))
    else s
  }

  ghost function TmpFlush(crc: Crc, s: Sys): Sys {
    if s.phase == TmpWriting(|SnapshotNow(crc, s)|) then
      s.(phase := TmpFlushed, tmp := s.tmp.(synced := |s.tmp.bytes|))
    else s
  }

  /** Of the renamed file, what was synced before is sure to survive, and no more is counted on. */
  function Rename(s: Sys): Sys {
    if s.phase == TmpFlushed && s.tmp.synced <= |s.tmp.bytes| then
      s.(phase := Renamed, disk := s.disk.(pending := s.disk.pending + [SetSnapshot(s.tmp.bytes[..s.tmp.synced])]))
    else s
  }

  /** fsync of the directory, at each place where the checkpoint or the opening calls it. */
  function SyncDir(s: Sys): Sys {
    var synced := s.(disk := s.disk.(names := Live(s.disk), pending := []));
    match s.phase
    case Renamed => synced.(phase := SnapshotDurable)
    case NewCreated => synced.(phase := NewDurable)
    case Opening => synced.(phase := Running)
    case NewDurable => if Live(s.disk).wals == [s.segment] then synced.(phase := Running) else s
    case Removing => if Live(s.disk).wals == [s.segment] then synced.(phase := Running) else s
    case _ => s
  }

  /** The old segment is synced and closed. */
  function CloseOld(s: Sys): Sys {
    if s.phase == SnapshotDurable && s.segment in s.disk.files then
      var f := s.disk.files[s.segment];
      WithFile(s, s.segment, f.(synced := |f.bytes|)).(phase := OldClosed)
    else s
  }

  /** A new segment file appears with its header, synced. */
  function Created(crc: Crc, s: Sys, id: u64, first: u64): Sys {
    WithFile(s, id, File(W.HeaderBytes(crc, W.Header(id, first)), W.HEADER_SIZE)).(segment := id)
  }

  function Rotate(crc: Crc, s: Sys): Sys {
    if s.phase == OldClosed && s.segment < U64_MAX && s.next < U64_MAX then
      var t := Created(crc, s, s.segment + 1, s.next + 1);
      t.(phase := NewCreated, disk := t.disk.(pending := t.disk.pending + [AddWal(s.segment + 1)]))
    else s
  }

  /** One covered segment file is removed; the order is the directory's. */
  function Remove(s: Sys, id: u64): Sys {
    if (s.phase == NewDurable || s.phase == Removing) && id in Live(s.disk).wals && id != s.segment then
      s.(phase := Removing, disk := s.disk.(pending := s.disk.pending + [RemoveWal(id)]))
    else s
  }

  // ------------------------------------------------------------------ crash and recovery

  /** What is left of a file: the active one may lose any part after its synced bytes. */
  function Survivor(s: Sys, id: u64, cut: nat): Bytes {
    if id !in s.disk.files then []
    else
      var f := s.disk.files[id];
      if id == s.segment && f.synced <= cut <= |f.bytes| then f.bytes[..cut] else f.bytes
  }

  /** The directory after a crash that kept some of the unsynced changes. */
  function CrashNames(s: Sys, keep: nat -> bool): Names {
    Kept(s.disk.names, s.disk.pending, keep)
  }

  function CrashImage(s: Sys, keep: nat -> bool, cut: nat): Image {
    var n := CrashNames(s, keep);
    Image(n.snapshot, seq(|n.wals|, i requires 0 <= i < |n.wals| => Survivor(s, n.wals[i], cut)))
  }

  /** What is left of the files of these segments. */
  function SurvivingFiles(s: Sys, ids: seq<u64>, cut: nat): map<u64, Bytes> {
    map id | id in ids :: id := Survivor(s, id, cut)
  }

  /** The files as an opened engine leaves them: the torn tail of the last one cut off, and all on disk. */
  function OpenedFiles(ids: seq<u64>, files: map<u64, Bytes>, r: Recovered): map<u64, File> {
    map id | id in ids && id in files :: id :=
      var b := files[id];
      var kept := if ids[|ids| - 1] == id && r.torn && r.lastGood <= |b| then b[..r.lastGood] else b;
      File(kept, |kept|)
  }

  /** An engine that has recovered r from segments that were there. */
  function Continued(names: Names, files: map<u64, Bytes>, hist: History, r: Recovered): Sys {
    Sys(hist, r.sequence, r.sequence, r.values, [], [], Idle, false, false, false, Running, File([], 0), r.high,
        Disk(names, [], OpenedFiles(names.wals, files, r)))
  }

  /** An engine that has recovered r; a directory without segments gets its first one. */
  function Opened(crc: Crc, names: Names, files: map<u64, Bytes>, hist: History, r: Recovered): Sys {
    var t := Continued(names, files, hist, r);
    if names.wals != [] then t
    else
      var u := Created(crc, t, 1, Succ(r.sequence));
      u.(phase := Opening, disk := u.disk.(pending := [AddWal(1)]))
  }

  /** A crash, and the recovery of what is left; no step when that cannot be read. */
  function Crash(crc: Crc, s: Sys, keep: nat -> bool, cut: nat): Sys {
    match Recover(Engine, crc, CrashImage(s, keep, cut))
    case Failure(_) => s
    case Success(r) =>
      var names := CrashNames(s, keep);
      var hist := if r.sequence <= |s.hist| then s.hist[..r.sequence] else s.hist;
      Opened(crc, names, SurvivingFiles(s, names.wals, cut), hist, r)
  }

  datatype Event =
    | Submitted(op: Operation) | Took(walBatch: nat) | Wrote(n: nat) | FlushedWal | Published | WriterFailed
    | Closed | Stopped | WriterExited
    | CheckpointBegun | WroteTmp(n: nat) | FlushedTmp | RenamedTmp | SyncedDir | ClosedOld | RotatedWal
    | RemovedWal(id: u64)
    | Crashed(keep: nat -> bool, cut: nat)

  ghost function Next(crc: Crc, s: Sys, e: Event): Sys {
    match e
    case Submitted(op) => Submit(s, op)
    case Took(n) => Take(s, n)
    case Wrote(n) => WriteTo(crc, s, n)
    case FlushedWal => Flush(crc, s)
    case Published => Publish(s)
    case WriterFailed => Fail(s)
    case Closed => Close(s)
    case Stopped => Stop(s)
    case WriterExited => Exit(s)
    case CheckpointBegun => CheckpointBegin(s)
    case WroteTmp(n) => TmpWrite(crc, s, n)
    case FlushedTmp => TmpFlush(crc, s)
    case RenamedTmp => Rename(s)
    case SyncedDir => SyncDir(s)
    case ClosedOld => CloseOld(s)
    case RotatedWal => Rotate(crc, s)
    case RemovedWal(id) => Remove(s, id)
    case Crashed(keep, cut) => Crash(crc, s, keep, cut)
  }

  /** An engine just opened on an empty directory. */
  function Initial(crc: Crc): Sys {
    Opened(crc, Names(None, []), map[], [], NOTHING)
  }

  // ------------------------------------------------------------------ the invariant

  /** Queue, batch, counters and index. */
  ghost predicate PipeInv(s: Sys) {
    && Sound(s.hist) && s.next == |s.hist| && s.durable <= |s.hist|
    && s.index == Fold(s.hist, |s.hist|)
    && |s.inflight| + |s.queue| == |s.hist| - s.durable
    && (forall i :: 0 <= i < |s.inflight| ==> s.inflight[i] == Pending(s.durable + i + 1, s.hist[s.durable + i]))
    && (forall i :: 0 <= i < |s.queue| ==>
      s.queue[i] == Pending(s.durable + |s.inflight| + i + 1, s.hist[s.durable + |s.inflight| + i]))
    && (s.writer == Idle || s.writer == Exited <==> s.inflight == [])
    && (s.failed <==> s.writer.Dead?)
    && (s.stop ==> s.closed || s.failed)
    && (s.writer == Exited ==> s.stop && s.queue == [])
    && (s.phase != Running ==> s.writer == Idle && s.queue == [] && !s.closed && !s.failed)
  }

  /** The part of the held batch that is in the file. */
  ghost function InFile(crc: Crc, s: Sys): Bytes {
    match s.writer
    case Holding(n) => if n <= |Buffer(crc, s.inflight)| then Buffer(crc, s.inflight)[..n] else []
    case Dead(n) => if n <= |Buffer(crc, s.inflight)| then Buffer(crc, s.inflight)[..n] else []
    case Flushed => Buffer(crc, s.inflight)
    case _ => []
  }

  /** A closed segment file is complete and synced. */
  ghost predicate Complete(crc: Crc, s: Sys, g: Seg)
    requires SegOk(s.hist, g)
  {
    g.id in s.disk.files && s.disk.files[g.id] == File(SegBytes(crc, s.hist, g), |SegBytes(crc, s.hist, g)|)
  }

  /** The active file holds all durable records, then what is written of the batch. */
  ghost predicate ActiveOk(crc: Crc, s: Sys, g: Seg)
    requires SegOk(s.hist, g)
  {
    && g.id == s.segment && g.end == s.durable && g.id in s.disk.files
    && var f := s.disk.files[g.id];
    && f.bytes == SegBytes(crc, s.hist, g) + InFile(crc, s)
    && |SegBytes(crc, s.hist, g)| <= f.synced <= |f.bytes|
    && (s.writer == Flushed ==> f.synced == |f.bytes|)
    && ((s.writer.Holding? || s.writer.Dead?) ==> s.writer.written <= |Buffer(crc, s.inflight)|)
  }

  /** The segment files. */
  ghost predicate FileInv(crc: Crc, s: Sys, gs: seq<Seg>) {
    && gs != [] && Ascending(gs) && AllOk(s.hist, gs) && gs[0].id >= 1
    && (forall i :: 0 <= i < |gs| ==> gs[i].end <= s.durable)
    && (forall i :: 0 <= i < |gs| - 1 ==> SegOk(s.hist, gs[i]) && Complete(crc, s, gs[i]))
    && SegOk(s.hist, gs[|gs| - 1]) && ActiveOk(crc, s, gs[|gs| - 1])
  }

  /** The directory, phase by phase; s0 is the sequence of the synced snapshot. */
  ghost predicate DirInv(crc: Crc, s: Sys, gs: seq<Seg>, s0: nat)
    requires gs != []
  {
    var n, names, pending := |gs| - 1, s.disk.names, s.disk.pending;
    && SnapOk(crc, s.hist, names.snapshot, s0) && s0 <= s.durable
    && match s.phase
      case Running => pending == [] && names.wals == Ids(gs) && Chain(s0, gs)
      case TmpWriting(k) => pending == [] && names.wals == Ids(gs) && Chain(s0, gs)
        && |s.index| <= Snap.MAX_COUNT && k <= |SnapshotNow(crc, s)| && s.tmp.bytes == SnapshotNow(crc, s)[..k]
      case TmpFlushed => pending == [] && names.wals == Ids(gs) && Chain(s0, gs)
        && |s.index| <= Snap.MAX_COUNT && s.tmp == File(SnapshotNow(crc, s), |SnapshotNow(crc, s)|)
      case Renamed => pending == [SetSnapshot(SnapshotNow(crc, s))] && names.wals == Ids(gs) && Chain(s0, gs)
        && |s.index| <= Snap.MAX_COUNT
      case SnapshotDurable => pending == [] && names.wals == Ids(gs) && s0 == s.durable
      case OldClosed => pending == [] && names.wals == Ids(gs) && s0 == s.durable
      case NewCreated => pending == [AddWal(s.segment)] && n > 0 && names.wals == Ids(gs[..n]) && s0 == s.durable
        && gs[n].base == s.durable && gs[n - 1].end == s.durable
      case NewDurable => pending == [] && names.wals == Ids(gs) && s0 == s.durable && gs[n].base == s.durable
      case Removing => names.wals == Ids(gs) && s0 == s.durable && gs[n].base == s.durable
        && (forall i :: 0 <= i < |pending| ==> pending[i].RemoveWal? && pending[i].id != s.segment)
      case Opening =>
        pending == [AddWal(s.segment)] && names.wals == [] && n == 0 && s0 == s.durable && gs[0].base == s.durable
  }

  ghost predicate Inv(crc: Crc, s: Sys, gs: seq<Seg>, s0: nat) {
    PipeInv(s) && FileInv(crc, s, gs) && DirInv(crc, s, gs, s0)
  }
}
