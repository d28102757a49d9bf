/** The engine can always go on: the writer can drain what is queued, and an open or a checkpoint can finish. */
module EngineProgress {
  import opened Bytes
  import W = SegmentWal
  import Snap = Snapshot
  import opened EngineHistory
  import opened DiskModel
  import opened SegmentNames
  import opened EngineModel
  import opened EngineSteps
  import opened EngineCrash
  import opened EngineRuns

  lemma RunFirst(crc: Crc, s: Sys, e: Event, es: seq<Event>)
    ensures Run(crc, s, [e] + es) == Run(crc, Next(crc, s, e), es)
  {
    hide Next;
    assert ([e] + es)[1..] == es;
  }

  lemma LiveFirst(e: Event, es: seq<Event>)
    requires !e.Crashed? && NoCrash(es)
    ensures NoCrash([e] + es)
  {
  }

  // ------------------------------------------------------------------ the writer

  ghost predicate Alive(s: Sys) {
    s.writer != Exited && !s.writer.Dead?
  }

  /** What the writer does next when it can. */
  ghost function WriterStep(crc: Crc, s: Sys, walBatch: nat): Event {
    match s.writer
    case Idle => Took(walBatch)
    case Holding(n) => if n < |Buffer(crc, s.inflight)| then Wrote(|Buffer(crc, s.inflight)|) else FlushedWal
    case _ => Published
  }

  /** How much the writer has left to do. */
  ghost function Work(crc: Crc, s: Sys): nat {
    4 * (|s.inflight| + |s.queue|) +
    match s.writer
    case Idle => 4
    case Holding(n) => if n < |Buffer(crc, s.inflight)| then 3 else 2
    case Flushed => 1
    case _ => 0
  }

  ghost predicate Works(crc: Crc, s: Sys, t: Sys) {
    t.hist == s.hist && t.next == s.next && Alive(t) && Work(crc, t) < Work(crc, s)
  }

  lemma WriterWorks(crc: Crc, s: Sys, gs: seq<Seg>, s0: nat, walBatch: nat)
    requires Inv(crc, s, gs, s0) && Alive(s) && walBatch > 0 && s.durable < s.next
    ensures Works(crc, s, Next(crc, s, WriterStep(crc, s, walBatch)))
  {
    hide Inv, PipeInv, FileInv, Works, Take, WriteTo, Flush, Publish, Buffer, Next;
    SegmentsNotEmpty(crc, s, gs, s0);
    NotEmpty(crc, s, gs);
    HeldWithin(crc, s, gs);
    NotDrained(s);
    NextWriter(crc, s, walBatch, |Buffer(crc, s.inflight)|);
    match s.writer
    case Idle => TakeWorks(crc, s, walBatch);
    case Holding(n) => if n < |Buffer(crc, s.inflight)| { WriteWorks(crc, s); } else { FlushWorks(crc, s); }
    case Flushed => PublishWorks(crc, s);
  }

  lemma NextWriter(crc: Crc, s: Sys, walBatch: nat, n: nat)
    ensures Next(crc, s, Took(walBatch)) == Take(s, walBatch) && Next(crc, s, Wrote(n)) == WriteTo(crc, s, n)
    ensures Next(crc, s, FlushedWal) == Flush(crc, s) && Next(crc, s, Published) == Publish(s)
  {
    hide Take, WriteTo, Flush, Publish;
  }

  lemma NotDrained(s: Sys)
    requires PipeInv(s) && s.durable < s.next
    ensures s.writer == Idle ==> s.queue != []
    ensures s.writer == Flushed ==> s.inflight != []
    ensures s.inflight == [] <== s.writer == Idle
  {
    hide Fold, Sound;
  }

  lemma TakeWorks(crc: Crc, s: Sys, walBatch: nat)
    requires s.writer == Idle && s.queue != [] && walBatch > 0 && s.inflight == []
    ensures Works(crc, s, Take(s, walBatch))
  {
    hide Buffer;
  }

  lemma WriteWorks(crc: Crc, s: Sys)
    requires s.writer.Holding? && s.writer.written < |Buffer(crc, s.inflight)| && s.segment in s.disk.files
    ensures Works(crc, s, WriteTo(crc, s, |Buffer(crc, s.inflight)|))
  {
    hide Buffer;
  }

  lemma FlushWorks(crc: Crc, s: Sys)
    requires s.writer == Holding(|Buffer(crc, s.inflight)|) && s.segment in s.disk.files
    ensures Works(crc, s, Flush(crc, s))
  {
    hide Buffer;
  }

  lemma PublishWorks(crc: Crc, s: Sys)
    requires s.writer == Flushed && s.inflight != []
    ensures Works(crc, s, Publish(s))
  {
    hide Buffer;
  }

  lemma HeldWithin(crc: Crc, s: Sys, gs: seq<Seg>)
    requires FileInv(crc, s, gs)
    ensures s.writer.Holding? ==> s.writer.written <= |Buffer(crc, s.inflight)|
  {
    hide Buffer, SegBytes;
  }

  lemma AllDone(crc: Crc, s: Sys, gs: seq<Seg>, s0: nat)
    requires Inv(crc, s, gs, s0)
    ensures s.durable <= s.next
  {
    hide FileInv, DirInv;
    SegmentsNotEmpty(crc, s, gs, s0);
    Durable(s);
  }

  /** A writer that has not ended can make every ticket durable, whatever the batch size. */
  lemma {:induction false} WriterDrains(crc: Crc, s: Sys, gs: seq<Seg>, s0: nat, walBatch: nat) returns (es: seq<Event>)
    requires Inv(crc, s, gs, s0) && Alive(s) && walBatch > 0
    ensures NoCrash(es)
    ensures var t := Run(crc, s, es); t.durable == t.next == s.next && t.hist == s.hist && Alive(t)
    decreases Work(crc, s)
  {
    hide Inv, Next, WriterStep, Work, Alive;
    AllDone(crc, s, gs, s0);
    es := [];
    if s.durable < s.next {
      var e := WriterStep(crc, s, walBatch);
      WriterWorks(crc, s, gs, s0, walBatch);
      var gs1, s1 := StepInv(crc, s, e, gs, s0);
      var rest := WriterDrains(crc, Next(crc, s, e), gs1, s1, walBatch);
      NotACrash(crc, s, walBatch);
      LiveFirst(e, rest);
      RunFirst(crc, s, e, rest);
      es := [e] + rest;
    }
  }

  lemma {:induction false} RunConcat(crc: Crc, s: Sys, a: seq<Event>, b: seq<Event>)
    ensures Run(crc, s, a + b) == Run(crc, Run(crc, s, a), b)
    decreases |a|
  {
    hide Next;
    if a == [] {
      assert a + b == b;
    } else {
      assert (a + b)[1..] == a[1..] + b;
      RunConcat(crc, Next(crc, s, a[0]), a[1..], b);
    }
  }

  /** With everything durable and close begun, the writer stops and ends. */
  lemma WriterEnds(crc: Crc, s: Sys)
    requires PipeInv(s) && Alive(s) && s.closed && s.durable == s.next
    ensures var t := Run(crc, s, [Stopped, WriterExited]);
      t.writer == Exited && !t.failed && t.hist == s.hist && t.durable == t.next == s.next
  {
    hide Fold, Sound;
    RunNothing(crc, Exit(Stop(s)));
    assert [Stopped, WriterExited] == [Stopped] + [WriterExited] && [WriterExited] == [WriterExited] + [];
    RunFirst(crc, s, Stopped, [WriterExited]);
    RunFirst(crc, Stop(s), WriterExited, []);
  }

  /** A close that begins while the writer is alive can end without an error, with every ticket durable. */
  lemma CloseFinishes(crc: Crc, s: Sys, gs: seq<Seg>, s0: nat, walBatch: nat) returns (es: seq<Event>)
    requires Inv(crc, s, gs, s0) && s.phase == Running && Alive(s) && walBatch > 0
    ensures NoCrash(es) && var t := Run(crc, s, es);
      t.writer == Exited && !t.failed && t.closed && t.hist == s.hist && t.durable == t.next == s.next
  {
    hide Inv, Run, PipeInv, FileInv;
    var c := Close(s);
    ClosingKeeps(crc, s, c, gs, s0);
    var drain := WriterDrains(crc, c, gs, s0, walBatch);
    var t := Run(crc, c, drain);
    LiveRun(crc, c, drain, gs, s0);
    var gs1, s1 := RunKeeps(crc, c, drain, gs, s0);
    SegmentsNotEmpty(crc, t, gs1, s1);
    WriterEnds(crc, t);
    RunConcat(crc, c, drain, [Stopped, WriterExited]);
    RunFirst(crc, s, Closed, drain + [Stopped, WriterExited]);
    es := [Closed] + (drain + [Stopped, WriterExited]);
    var gs2, s2 := RunKeeps(crc, t, [Stopped, WriterExited], gs1, s1);
    LiveRun(crc, t, [Stopped, WriterExited], gs1, s1);
  }

  lemma NotACrash(crc: Crc, s: Sys, walBatch: nat)
    ensures !WriterStep(crc, s, walBatch).Crashed?
  {
  }

  // ------------------------------------------------------------------ checkpoint and open

  /** How far a checkpoint, or an open, is from its end. */
  function PhaseRank(phase: Phase): nat {
    match phase
    case Running => 0
    case TmpWriting(n) => 8
    case TmpFlushed => 7
    case Renamed => 6
    case SnapshotDurable => 5
    case OldClosed => 4
    case NewCreated => 3
    case Opening => 1
    case _ => 2
  }

  /** The segments that are still in the directory once covered ones may be removed. */
  lemma LiveSegments(crc: Crc, s: Sys, gs: seq<Seg>, s0: nat) returns (r: seq<Seg>)
    requires Inv(crc, s, gs, s0) && (s.phase == NewDurable || s.phase == Removing)
    ensures Live(s.disk).wals == Ids(r) && Ascending(r) && r != [] && r[|r| - 1].id == s.segment
  {
    hide Inv, PipeInv, FileInv, DirInv, Kept, Ids, Among;
    SegmentsNotEmpty(crc, s, gs, s0);
    NotEmpty(crc, s, gs);
    AscendingOf(crc, s, gs);
    RemovingDir(crc, s, gs, s0);
    r := RemovedSegs(s.disk.names, s.disk.pending, _ => true, gs, s.segment);
  }

  lemma RemovingDir(crc: Crc, s: Sys, gs: seq<Seg>, s0: nat)
    requires Inv(crc, s, gs, s0) && (s.phase == NewDurable || s.phase == Removing)
    ensures gs != [] && s.disk.names.wals == Ids(gs)
    ensures forall i :: 0 <= i < |s.disk.pending| ==> s.disk.pending[i].RemoveWal? && s.disk.pending[i].id != s.segment
  {
    hide PipeInv, FileInv, SnapOk, Chain, SnapshotNow, Ids;
    SegmentsNotEmpty(crc, s, gs, s0);
  }

  lemma LiveRemoved(s: Sys, id: u64)
    requires (s.phase == NewDurable || s.phase == Removing) && id in Live(s.disk).wals && id != s.segment
    ensures var t := Remove(s, id);
      t.phase == Removing && |Live(t.disk).wals| < |Live(s.disk).wals| && t.hist == s.hist && t.segment == s.segment
  {
    hide Kept;
    WithoutShorter(Live(s.disk).wals, id);
    KeptMore(s.disk.names, s.disk.pending, RemoveWal(id));
  }

  /** The end of a checkpoint: one segment is left, and the snapshot holds every operation. */
  ghost predicate Finished(crc: Crc, s: Sys, t: Sys) {
    && t.phase == Running && t.hist == s.hist && t.disk.pending == [] && t.disk.names.wals == [t.segment]
    && SnapOk(crc, t.hist, t.disk.names.snapshot, |t.hist|)
  }

  /** Once the new segment is durable, the covered ones can be removed, in any order, and the checkpoint ends. */
  lemma {:induction false} RemovalsFinish(crc: Crc, s: Sys, gs: seq<Seg>, s0: nat) returns (es: seq<Event>)
    requires Inv(crc, s, gs, s0) && (s.phase == NewDurable || s.phase == Removing)
    ensures NoCrash(es) && Finished(crc, s, Run(crc, s, es))
    decreases |Live(s.disk).wals|
  {
    hide Inv, Next, Live, Remove, SyncDir, Ids, Finished;
    var r := LiveSegments(crc, s, gs, s0);
    RunNothing(crc, SyncDir(s));
    if |r| == 1 {
      assert Ids(r) == [s.segment];
      SyncFinishes(crc, s, gs, s0);
      NextSync(crc, s);
      RunFirst(crc, s, SyncedDir, []);
      es := [SyncedDir] + [];
    } else {
      var id := r[0].id;
      assert Ids(r)[0] == id && r[0].id < r[|r| - 1].id;
      LiveRemoved(s, id);
      NextRemove(crc, s, id);
      var gs1, s1 := StepInv(crc, s, RemovedWal(id), gs, s0);
      var rest := RemovalsFinish(crc, Remove(s, id), gs1, s1);
      RunFirst(crc, s, RemovedWal(id), rest);
      FinishedLater(crc, s, Remove(s, id), Run(crc, Remove(s, id), rest));
      es := [RemovedWal(id)] + rest;
    }
  }

  lemma RunNothing(crc: Crc, s: Sys)
    ensures Run(crc, s, []) == s && NoCrash([])
  {
  }

  lemma SyncFinishes(crc: Crc, s: Sys, gs: seq<Seg>, s0: nat)
    requires Inv(crc, s, gs, s0) && (s.phase == NewDurable || s.phase == Removing) && Live(s.disk).wals == [s.segment]
    ensures Finished(crc, s, SyncDir(s))
  {
    hide Live, SnapOk, PipeInv, FileInv, DirInv;
    CheckpointEnds(crc, s, gs, s0);
    SegmentsNotEmpty(crc, s, gs, s0);
    NextIs(s);
  }

  lemma NextSync(crc: Crc, s: Sys)
    ensures Next(crc, s, SyncedDir) == SyncDir(s)
  {
    hide SyncDir;
  }

  lemma NextRemove(crc: Crc, s: Sys, id: u64)
    ensures Next(crc, s, RemovedWal(id)) == Remove(s, id)
  {
    hide Remove;
  }

  lemma FinishedLater(crc: Crc, s: Sys, t: Sys, u: Sys)
    requires t.hist == s.hist && Finished(crc, t, u)
    ensures Finished(crc, s, u)
  {
    hide SnapOk;
  }

  /** What a checkpoint does next, before it comes to the removals. */
  function PhaseStep(s: Sys): Event {
    match s.phase
    case TmpWriting(n) => FlushedTmp
    case TmpFlushed => RenamedTmp
    case SnapshotDurable => ClosedOld
    case OldClosed => RotatedWal
    case _ => SyncedDir
  }

  /** The same history, one phase on. */
  ghost predicate Advances(s: Sys, t: Sys) {
    && t.hist == s.hist && PhaseRank(t.phase) + 1 == PhaseRank(s.phase)
    && (PhaseRank(t.phase) >= 4 ==> t.segment == s.segment)
  }

  lemma FlushAdvances(crc: Crc, s: Sys)
    requires s.phase == TmpWriting(|SnapshotNow(crc, s)|) || (s.phase == TmpFlushed && s.tmp.synced <= |s.tmp.bytes|)
    ensures s.phase.TmpWriting? ==> Advances(s, TmpFlush(crc, s))
    ensures s.phase == TmpFlushed ==> Advances(s, Rename(s))
  {
    hide SnapshotNow;
  }

  lemma SyncAdvances(s: Sys)
    requires s.phase == Renamed || s.phase == NewCreated
    ensures Advances(s, SyncDir(s))
  {
    hide Live;
  }

  lemma SegmentAdvances(crc: Crc, s: Sys)
    requires s.segment in s.disk.files && s.next < U64_MAX && s.segment < U64_MAX
    ensures s.phase == SnapshotDurable ==> Advances(s, CloseOld(s))
    ensures s.phase == OldClosed ==> Advances(s, Rotate(crc, s))
  {
    hide W.HeaderBytes;
  }

  /** Each step of a checkpoint leads to the next phase; room is needed for one more segment number. */
  lemma PhaseAdvances(crc: Crc, s: Sys)
    requires s.segment in s.disk.files && s.next < U64_MAX && (PhaseRank(s.phase) >= 4 ==> s.segment < U64_MAX)
    requires PhaseRank(s.phase) > 2 && (s.phase.TmpWriting? ==> s.phase == TmpWriting(|SnapshotNow(crc, s)|))
    requires s.phase == TmpFlushed ==> s.tmp.synced <= |s.tmp.bytes|
    ensures Advances(s, Next(crc, s, PhaseStep(s)))
  {
    hide Advances, SnapshotNow, Submit, Take, WriteTo, Flush, Publish, Fail, Close, Stop, Exit;
    hide CheckpointBegin, TmpWrite;
    hide TmpFlush, Rename, SyncDir, CloseOld, Rotate, Remove, Crash;
    match s.phase
    case TmpWriting(_) => FlushAdvances(crc, s);
    case TmpFlushed => FlushAdvances(crc, s);
    case SnapshotDurable => SegmentAdvances(crc, s);
    case OldClosed => SegmentAdvances(crc, s);
    case _ => SyncAdvances(s);
  }

  lemma PhaseEvent(s: Sys)
    ensures !PhaseStep(s).Crashed?
  {
  }

  lemma CheckpointFacts(crc: Crc, s: Sys, gs: seq<Seg>, s0: nat)
    requires Inv(crc, s, gs, s0)
    ensures s.segment in s.disk.files
    ensures s.phase != Running ==> s.next < U64_MAX
    ensures s.phase.TmpWriting? ==> s.phase.written <= |SnapshotNow(crc, s)|
    ensures s.phase == TmpFlushed ==> s.tmp.synced <= |s.tmp.bytes|
  {
    hide PipeInv, FileInv, SnapOk, Chain, SnapshotNow, Ids;
    SegmentsNotEmpty(crc, s, gs, s0);
    NotEmpty(crc, s, gs);
    if s.phase != Running { Quiescent(crc, s); }
  }

  /** The rest of the temporary snapshot file can be written. */
  lemma TmpCompletes(crc: Crc, s: Sys)
    requires s.phase.TmpWriting? && s.phase.written <= |SnapshotNow(crc, s)|
    ensures var t := Next(crc, s, WroteTmp(|SnapshotNow(crc, s)|));
      t.phase == TmpWriting(|SnapshotNow(crc, t)|) && t.hist == s.hist && t.segment == s.segment
  {
    SameSnapshotNow(crc, s, TmpWrite(crc, s, |SnapshotNow(crc, s)|));
    hide SnapshotNow;
  }

  /** From every point of a checkpoint it can go on to its end, which leaves one segment. */
  lemma {:induction false} CheckpointFinishes(crc: Crc, s: Sys, gs: seq<Seg>, s0: nat) returns (es: seq<Event>)
    requires Inv(crc, s, gs, s0) && s.phase != Running && s.phase != Opening
    requires PhaseRank(s.phase) >= 4 ==> s.segment < U64_MAX
    ensures NoCrash(es) && Finished(crc, s, Run(crc, s, es))
    decreases PhaseRank(s.phase), if s.phase == TmpWriting(|SnapshotNow(crc, s)|) then 0 else 1
  {
    hide Inv, Next, SnapshotNow, Finished, PhaseStep;
    CheckpointFacts(crc, s, gs, s0);
    if PhaseRank(s.phase) == 2 {
      es := RemovalsFinish(crc, s, gs, s0);
    } else {
      var e := PhaseStep(s);
      if s.phase.TmpWriting? && s.phase.written < |SnapshotNow(crc, s)| {
        e := WroteTmp(|SnapshotNow(crc, s)|);
        TmpCompletes(crc, s);
      } else {
        PhaseEvent(s);
        PhaseAdvances(crc, s);
      }
      var t := Next(crc, s, e);
      var gs1, s1 := StepInv(crc, s, e, gs, s0);
      var rest := CheckpointFinishes(crc, t, gs1, s1);
      RunFirst(crc, s, e, rest);
      LiveFirst(e, rest);
      FinishedLater(crc, s, t, Run(crc, t, rest));
      es := [e] + rest;
    }
  }

  /** A checkpoint of an open engine whose operations are all durable can begin, and run to its end. */
  lemma CheckpointRuns(crc: Crc, s: Sys, gs: seq<Seg>, s0: nat) returns (es: seq<Event>)
    requires Inv(crc, s, gs, s0) && s.phase == Running && !s.closed && s.durable == s.next
    requires |s.index| <= Snap.MAX_COUNT && s.segment < U64_MAX
    ensures NoCrash(es) && Finished(crc, s, Run(crc, s, es))
  {
    hide Inv, Run, Finished, SnapshotNow;
    var t := Next(crc, s, CheckpointBegun);
    var gs1, s1 := StepInv(crc, s, CheckpointBegun, gs, s0);
    hide Next;
    var rest := CheckpointFinishes(crc, t, gs1, s1);
    RunFirst(crc, s, CheckpointBegun, rest);
    LiveFirst(CheckpointBegun, rest);
    FinishedLater(crc, s, t, Run(crc, t, rest));
    es := [CheckpointBegun] + rest;
  }
}
