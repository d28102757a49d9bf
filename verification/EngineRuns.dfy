/** Runs of the engine: every step, crashes included, keeps the invariant, and what follows for callers. */
module EngineRuns {
  import opened Bytes
  import opened KeyOrder
  import opened Options
  import opened Store
  import W = SegmentWal
  import opened DirectoryRecovery
  import opened EngineHistory
  import opened DiskModel
  import opened SegmentNames
  import opened EngineModel
  import opened EngineSteps
  import opened EngineCrash

  // ------------------------------------------------------------------ reopening

  /** An engine that has just recovered: nothing queued, and everything it knows is durable. */
  ghost predicate Recovering(t: Sys) {
    && Sound(t.hist) && t.durable == t.next == |t.hist| && t.index == Fold(t.hist, |t.hist|)
    && t.inflight == [] && t.queue == [] && t.writer == Idle && !t.closed && !t.stop && !t.failed
  }

  lemma RecoveringPipe(t: Sys)
    requires Recovering(t)
    ensures PipeInv(t)
  {
    hide Fold, Sound;
  }

  /** The first segment of a directory that holds none. */
  lemma FirstSegment(crc: Crc, t: Sys, u: Sys)
    requires Recovering(t) && |t.hist| < U64_MAX && t.disk.names.wals == []
    requires SnapOk(crc, t.hist, t.disk.names.snapshot, |t.hist|)
    requires u == Created(crc, t, 1, |t.hist| + 1).(phase := Opening, disk := u.disk)
    requires u.disk == Created(crc, t, 1, |t.hist| + 1).disk.(pending := [AddWal(1)])
    ensures Inv(crc, u, [Seg(1, |t.hist|, |t.hist|)], |t.hist|)
  {
    hide Fold, Sound, SnapOk, SegBytes, W.HeaderBytes, Chain, SnapshotNow;
    var g := Seg(1, |t.hist|, |t.hist|);
    RecoveringPipe(u);
    FreshBytes(crc, u.hist, g);
    var b := SegBytes(crc, u.hist, g);
    assert b + [] == b;
    assert ActiveOk(crc, u, g);
  }

  lemma InitialInv(crc: Crc)
    ensures Inv(crc, Initial(crc), [Seg(1, 0, 0)], 0)
  {
    hide PipeInv, FileInv, DirInv, W.HeaderBytes, W.Submittable;
    var t := Continued(Names(None, []), map[], [], NOTHING);
    FirstSegment(crc, t, Initial(crc));
  }

  /** The engine that Crash reopens before it may create a first segment. */
  function Reopened(s: Sys, keep: nat -> bool, cut: nat, r: Recovered): Sys
    requires r.sequence <= |s.hist|
  {
    var names := CrashNames(s, keep);
    Continued(names, SurvivingFiles(s, names.wals, cut), s.hist[..r.sequence], r)
  }

  lemma ReopenedRecovering(s: Sys, keep: nat -> bool, cut: nat, r: Recovered)
    requires Sound(s.hist) && r.sequence <= |s.hist| && r.values == Fold(s.hist, r.sequence)
    ensures Recovering(Reopened(s, keep, cut, r))
  {
    FoldPrefix(s.hist, r.sequence, r.sequence);
    hide Fold, W.Submittable, OpenedFiles;
  }

  lemma CrashShape(crc: Crc, s: Sys, keep: nat -> bool, cut: nat, r: Recovered)
    requires Recover(Engine, crc, CrashImage(s, keep, cut)) == Success(r) && r.sequence <= |s.hist|
    ensures var t := Reopened(s, keep, cut, r);
      Crash(crc, s, keep, cut) ==
        if CrashNames(s, keep).wals != [] then t
        else Created(crc, t, 1, Succ(r.sequence)).(phase := Opening,
          disk := Created(crc, t, 1, Succ(r.sequence)).disk.(pending := [AddWal(1)]))
  {
    hide Recover, CrashImage, CrashNames, Continued, SurvivingFiles, W.HeaderBytes;
  }

  /** A surviving segment before the last is complete after the reopening. */
  lemma ReopenedComplete(crc: Crc, s: Sys, left: seq<Seg>, keep: nat -> bool, cut: nat, r: Recovered, i: nat)
    requires left != [] && FilesKnown(crc, s, left, cut) && CrashNames(s, keep).wals == Ids(left) && Ascending(left)
    requires i < |left| - 1 && left[i].end <= r.sequence <= |s.hist|
    ensures var t := Reopened(s, keep, cut, r); SegOk(t.hist, left[i]) && Complete(crc, t, left[i])
  {
    hide SegBytes, Survivor, CrashNames, Begins;
    var g, t := left[i], Reopened(s, keep, cut, r);
    assert SegOk(s.hist, left[i]);
    assert s.hist[..g.end] == t.hist[..g.end];
    SegBytesPrefix(crc, s.hist, t.hist, g);
    assert Ids(left)[i] == g.id && g.id < left[|left| - 1].id;
  }

  /** The last surviving segment, its torn tail cut off, is the active one. */
  lemma ReopenedActive(crc: Crc, s: Sys, left: seq<Seg>, keep: nat -> bool, cut: nat, r: Recovered, at: nat)
    requires left != [] && FilesKnown(crc, s, left, cut) && CrashNames(s, keep).wals == Ids(left)
    requires FoundWell(crc, s, left, at, cut, r)
    ensures r.sequence <= |s.hist|
    ensures var t, g := Reopened(s, keep, cut, r), Found(crc, s, left, cut)[|left| - 1];
      SegOk(t.hist, g) && ActiveOk(crc, t, g)
  {
    hide SegBytes, Survivor, CrashNames, Found, Fold, Reaches;
    var g, n := Found(crc, s, left, cut)[|left| - 1], |left| - 1;
    var t := Reopened(s, keep, cut, r);
    assert s.hist[..g.end] == t.hist[..g.end];
    SegBytesPrefix(crc, s.hist, t.hist, g);
    assert Ids(left)[n] == g.id;
    var b := Survivor(s, g.id, cut);
    assert b[..|b|] == b;
    var sb := SegBytes(crc, t.hist, g);
    assert sb + [] == sb;
  }

  lemma ReopenedFileInv(crc: Crc, s: Sys, gs: seq<Seg>, left: seq<Seg>, keep: nat -> bool, cut: nat,
                        r: Recovered, at: nat)
    requires FileInv(crc, s, gs) && Selected(s, left, gs)
    requires left != [] && FilesKnown(crc, s, left, cut) && CrashNames(s, keep).wals == Ids(left)
    requires FoundWell(crc, s, left, at, cut, r) && r.sequence <= |s.hist| < U64_MAX
    ensures FileInv(crc, Reopened(s, keep, cut, r), Found(crc, s, left, cut))
  {
    hide FileInv, SegBytes, Survivor, CrashNames, Found, Fold, FilesKnown, OpenedFiles, CutWell;
    hide ActiveOk, Complete, Chain, Cover;
    hide Reaches, Says, FoundWell, Selected, Ids, SegOk, Ascending;
    FoundParts(crc, s, left, at, cut, r);
    var t, found, n := Reopened(s, keep, cut, r), Found(crc, s, left, cut), |left| - 1;
    ReachedParts(s, left, found, at);
    ReopenedActive(crc, s, left, keep, cut, r, at);
    forall i | 0 <= i < n ensures SegOk(t.hist, found[i]) && Complete(crc, t, found[i]) {
      ReopenedComplete(crc, s, left, keep, cut, r, i);
    }
    SelectedAt(s, left, gs, 0);
    Member(crc, s, gs, left[0]);
    FileInvIntro(crc, t, found);
  }

  lemma ReachedParts(s: Sys, left: seq<Seg>, found: seq<Seg>, at: nat)
    requires left != [] && |found| == |left| && Reaches(s, left, found, at)
    ensures Ascending(found) && Ascending(left) && found[0].id == left[0].id
    ensures forall i :: 0 <= i < |left| ==> found[i].base <= found[i].end <= found[|left| - 1].end
    ensures forall i :: 0 <= i < |left| - 1 ==> found[i] == left[i] && left[i].end <= found[|left| - 1].end
  {
    hide Chain, Cover;
    forall i | 0 <= i < |left| ensures found[i].id == left[i].id && found[i].base <= found[i].end {
      assert Ids(found)[i] == Ids(left)[i];
      assert SegOk(s.hist, found[i]);
    }
  }

  lemma FileInvIntro(crc: Crc, t: Sys, gs: seq<Seg>)
    requires gs != [] && Ascending(gs) && gs[0].id >= 1 && |t.hist| < U64_MAX && t.durable == |t.hist|
    requires forall i :: 0 <= i < |gs| ==> gs[i].base <= gs[i].end <= t.durable
    requires forall i :: 0 <= i < |gs| - 1 ==> SegOk(t.hist, gs[i]) && Complete(crc, t, gs[i])
    requires SegOk(t.hist, gs[|gs| - 1]) && ActiveOk(crc, t, gs[|gs| - 1])
    ensures FileInv(crc, t, gs)
  {
    hide Complete, ActiveOk;
  }

  lemma ReopenedDirInv(crc: Crc, s: Sys, left: seq<Seg>, keep: nat -> bool, cut: nat, r: Recovered,
                       found: seq<Seg>, at: nat)
    requires left != [] && |found| == |left| && Reaches(s, left, found, at) && r.sequence == found[|left| - 1].end
    requires CrashNames(s, keep).wals == Ids(left) && at <= s.durable
    requires SnapOk(crc, s.hist, CrashNames(s, keep).snapshot, at)
    requires r.sequence <= |s.hist| < U64_MAX
    ensures DirInv(crc, Reopened(s, keep, cut, r), found, at)
  {
    hide SnapOk, Chain, Cover, CrashNames, OpenedFiles;
    var t := Reopened(s, keep, cut, r);
    assert s.hist[..at] == t.hist[..at];
    SnapOkPrefix(crc, s.hist, t.hist, CrashNames(s, keep).snapshot, at);
  }

  /** The engine can read what the crash leaves. */
  ghost predicate Reads(crc: Crc, s: Sys, keep: nat -> bool, cut: nat) {
    Recover(Engine, crc, CrashImage(s, keep, cut)).Success?
  }

  /** A readable crash and the recovery after it keep the invariant; the history that remains is what was recovered. */
  lemma CrashKeeps(crc: Crc, s: Sys, gs: seq<Seg>, s0: nat, keep: nat -> bool, cut: nat)
    returns (gs': seq<Seg>, s0': nat, k: nat)
    requires Inv(crc, s, gs, s0) && Reads(crc, s, keep, cut)
    ensures Inv(crc, Crash(crc, s, keep, cut), gs', s0')
    ensures s.durable <= k <= s.durable + |s.inflight| <= |s.hist|
    ensures var t := Crash(crc, s, keep, cut);
      t.hist == s.hist[..k] && t.durable == t.next == k && !t.closed && !t.failed
  {
    hide PipeInv, FileInv, DirInv, Crash, CrashNames, Survives, Readback, Recover, RecoversTo;
    var r, left, at := CrashRecovers(crc, s, gs, s0, keep, cut);
    gs', s0', k := SurvivorsReopen(crc, s, gs, left, at, keep, cut);
  }

  /** A crash that leaves nothing readable is no step. */
  lemma CrashStops(crc: Crc, s: Sys, keep: nat -> bool, cut: nat)
    requires !Reads(crc, s, keep, cut)
    ensures Crash(crc, s, keep, cut) == s
  {
    hide Recover, CrashImage;
  }

  /** The same from what survives of the directory. */
  lemma SurvivorsReopen(crc: Crc, s: Sys, gs: seq<Seg>, left: seq<Seg>, at: nat, keep: nat -> bool, cut: nat)
    returns (gs': seq<Seg>, s0': nat, k: nat)
    requires PipeInv(s) && FileInv(crc, s, gs) && Survives(crc, s, gs, CrashNames(s, keep), left, at)
    requires Readback(crc, s, left, cut)
    ensures Inv(crc, Crash(crc, s, keep, cut), gs', s0')
    ensures s.durable <= k <= s.durable + |s.inflight| <= |s.hist|
    ensures var t := Crash(crc, s, keep, cut);
      t.hist == s.hist[..k] && t.durable == t.next == k && !t.closed && !t.failed
  {
    hide PipeInv, FileInv, DirInv, Crash, Recover, CrashImage, CrashNames, Found, FoundWell, FilesKnown;
    hide Readback, Fold, OpenedFiles, Sound, SnapOk, Recovering, Selected, Chain, W.HeaderBytes;
    var r := SurvivorsRecover(crc, s, gs, left, at, keep, cut);
    k := r.sequence;
    CrashShape(crc, s, keep, cut, r);
    InflightBound(s);
    ReopenedRecovering(s, keep, cut, r);
    var t := Reopened(s, keep, cut, r);
    if left == [] {
      NoIds();
      gs', s0' := [Seg(1, k, k)], k;
      assert s.hist[..k] == t.hist[..k];
      SnapOkPrefix(crc, s.hist, t.hist, CrashNames(s, keep).snapshot, k);
      FirstSegment(crc, t, Crash(crc, s, keep, cut));
    } else {
      gs', s0' := Found(crc, s, left, cut), at;
      FoundParts(crc, s, left, at, cut, r);
      RecoveringPipe(t);
      ReopenedFileInv(crc, s, gs, left, keep, cut, r, at);
      ReopenedDirInv(crc, s, left, keep, cut, r, gs', at);
    }
  }

  lemma FoundParts(crc: Crc, s: Sys, left: seq<Seg>, at: nat, cut: nat, r: Recovered)
    requires left != [] && FilesKnown(crc, s, left, cut) && FoundWell(crc, s, left, at, cut, r)
    ensures var found := Found(crc, s, left, cut);
      |found| == |left| && Reaches(s, left, found, at) && r.sequence == found[|left| - 1].end
  {
    hide Found, Reaches, CutWell, Fold, SegBytes;
  }

  // ------------------------------------------------------------------ one step

  /** Nothing durable is lost or changed. */
  ghost predicate KeepsDurable(s: Sys, t: Sys) {
    s.durable <= |s.hist| && s.durable <= t.durable <= |t.hist| && s.hist[..s.durable] == t.hist[..s.durable]
  }

  /** While the process lives, operations are only added, and none once closed. */
  ghost predicate OnlyAdds(s: Sys, t: Sys) {
    && |s.hist| <= |t.hist| && t.hist[..|s.hist|] == s.hist && s.durable <= t.durable
    && (s.closed ==> t.closed && t.hist == s.hist) && (s.failed ==> t.failed && t.hist == s.hist)
  }

  lemma LiveStep(crc: Crc, s: Sys, e: Event)
    requires PipeInv(s) && !e.Crashed?
    ensures OnlyAdds(s, Next(crc, s, e))
  {
    hide Fold, Sound, Buffer, SnapshotNow, W.Submittable, W.HeaderBytes, Live;
    if e.Published? && Publish(s) != s { PublishPipe(s); }
  }

  lemma AddsDurable(s: Sys, t: Sys)
    requires OnlyAdds(s, t) && s.durable <= |s.hist| && t.durable <= |t.hist|
    ensures KeepsDurable(s, t)
  {
    assert s.hist[..s.durable] == t.hist[..|s.hist|][..s.durable] == t.hist[..s.durable];
  }

  /** Any step, a crash included, keeps the invariant and everything durable. */
  lemma StepKeeps(crc: Crc, s: Sys, e: Event, gs: seq<Seg>, s0: nat) returns (gs': seq<Seg>, s0': nat)
    requires Inv(crc, s, gs, s0)
    ensures Inv(crc, Next(crc, s, e), gs', s0') && KeepsDurable(s, Next(crc, s, e))
  {
    hide PipeInv, FileInv, DirInv;
    gs', s0' := StepInv(crc, s, e, gs, s0);
    hide Next;
    var t := Next(crc, s, e);
    Durable(s);
    Durable(t);
    if e.Crashed? {
      CrashIs(crc, s, e);
      if Reads(crc, s, e.keep, e.cut) {
        var k;
        gs', s0', k := CrashKeeps(crc, s, gs, s0, e.keep, e.cut);
        assert s.hist[..k][..s.durable] == s.hist[..s.durable];
      } else {
        CrashStops(crc, s, e.keep, e.cut);
      }
    } else {
      LiveStep(crc, s, e);
      AddsDurable(s, t);
    }
  }

  lemma CrashIs(crc: Crc, s: Sys, e: Event)
    requires e.Crashed?
    ensures Next(crc, s, e) == Crash(crc, s, e.keep, e.cut)
  {
    hide Crash;
  }

  /** The steps of submitters, writer and close. */
  ghost predicate IsPipeline(e: Event) {
    || e.Submitted? || e.Took? || e.Wrote? || e.FlushedWal? || e.Published?
    || e.WriterFailed? || e.Closed? || e.Stopped? || e.WriterExited?
  }

  lemma StepInv(crc: Crc, s: Sys, e: Event, gs: seq<Seg>, s0: nat) returns (gs': seq<Seg>, s0': nat)
    requires Inv(crc, s, gs, s0)
    ensures Inv(crc, Next(crc, s, e), gs', s0')
  {
    hide Inv, Next;
    if IsPipeline(e) {
      gs', s0' := PipelineInv(crc, s, e, gs, s0);
    } else if e.Crashed? {
      CrashIs(crc, s, e);
      gs', s0' := gs, s0;
      if Reads(crc, s, e.keep, e.cut) {
        var k;
        gs', s0', k := CrashKeeps(crc, s, gs, s0, e.keep, e.cut);
      } else {
        CrashStops(crc, s, e.keep, e.cut);
      }
    } else {
      gs', s0' := CheckpointInv(crc, s, e, gs, s0);
    }
  }

  lemma PipelineInv(crc: Crc, s: Sys, e: Event, gs: seq<Seg>, s0: nat) returns (gs': seq<Seg>, s0': nat)
    requires Inv(crc, s, gs, s0) && IsPipeline(e)
    ensures Inv(crc, Next(crc, s, e), gs', s0') && s0' == s0 && gs != [] && (gs' == gs || gs' == Grown(s, gs))
  {
    hide Inv, PipeInv, FileInv, Submit, Take, WriteTo, Flush, Publish, Fail, Close, Stop, Exit, Grown;
    gs', s0' := gs, s0;
    SegmentsNotEmpty(crc, s, gs, s0);
    match e
    case Submitted(op) => SubmitKeeps(crc, s, op, gs, s0);
    case Took(n) => TakeKeeps(crc, s, n, gs, s0);
    case Wrote(n) => WriteKeeps(crc, s, n, gs, s0);
    case FlushedWal => FlushKeeps(crc, s, gs, s0);
    case Published =>
      if Publish(s) != s {
        gs' := Grown(s, gs);
        PublishKeeps(crc, s, gs, s0);
      }
    case WriterFailed => ClosingKeeps(crc, s, Fail(s), gs, s0);
    case Closed => ClosingKeeps(crc, s, Close(s), gs, s0);
    case Stopped => ClosingKeeps(crc, s, Stop(s), gs, s0);
    case WriterExited => ClosingKeeps(crc, s, Exit(s), gs, s0);
  }

  lemma CheckpointInv(crc: Crc, s: Sys, e: Event, gs: seq<Seg>, s0: nat) returns (gs': seq<Seg>, s0': nat)
    requires Inv(crc, s, gs, s0) && !IsPipeline(e) && !e.Crashed?
    ensures Inv(crc, Next(crc, s, e), gs', s0')
  {
    hide Inv, PipeInv, FileInv, CheckpointBegin, TmpWrite, TmpFlush, Rename, SyncDir, CloseOld, Rotate, Remove;
    gs', s0' := gs, s0;
    SegmentsNotEmpty(crc, s, gs, s0);
    match e
    case CheckpointBegun => CheckpointBeginKeeps(crc, s, gs, s0);
    case WroteTmp(n) => TmpKeeps(crc, s, TmpWrite(crc, s, n), n, gs, s0);
    case FlushedTmp => TmpKeeps(crc, s, TmpFlush(crc, s), 0, gs, s0);
    case RenamedTmp => RenameKeeps(crc, s, gs, s0);
    case SyncedDir => gs', s0' := SyncDirKeeps(crc, s, gs, s0);
    case ClosedOld => CloseOldKeeps(crc, s, gs, s0);
    case RotatedWal =>
      if Rotate(crc, s) != s {
        RotateRoom(crc, s);
        gs' := gs + [Fresh(s)];
        RotateKeeps(crc, s, gs, s0);
      }
    case RemovedWal(id) => RemoveKeeps(crc, s, id, gs, s0);
  }

  lemma SegmentsNotEmpty(crc: Crc, s: Sys, gs: seq<Seg>, s0: nat)
    requires Inv(crc, s, gs, s0)
    ensures gs != [] && PipeInv(s) && FileInv(crc, s, gs)
  {
    hide PipeInv, SegBytes, ActiveOk, Complete, DirInv;
  }

  lemma RotateRoom(crc: Crc, s: Sys)
    requires Rotate(crc, s) != s
    ensures s.segment < U64_MAX
  {
    hide W.HeaderBytes;
  }

  // ------------------------------------------------------------------ whole runs

  ghost function Run(crc: Crc, s: Sys, es: seq<Event>): Sys
    decreases |es|
  {
    if es == [] then s else Run(crc, Next(crc, s, es[0]), es[1..])
  }

  /** Any run from a good state keeps the invariant and everything that was durable. */
  lemma {:induction false} RunKeeps(crc: Crc, s: Sys, es: seq<Event>, gs: seq<Seg>, s0: nat)
    returns (gs': seq<Seg>, s0': nat)
    requires Inv(crc, s, gs, s0)
    ensures Inv(crc, Run(crc, s, es), gs', s0') && KeepsDurable(s, Run(crc, s, es))
    decreases |es|
  {
    hide Inv, Next;
    SegmentsNotEmpty(crc, s, gs, s0);
    Durable(s);
    gs', s0' := gs, s0;
    if es != [] {
      var t := Next(crc, s, es[0]);
      var gs1, s1 := StepKeeps(crc, s, es[0], gs, s0);
      gs', s0' := RunKeeps(crc, t, es[1..], gs1, s1);
      DurableChain(s, t, Run(crc, t, es[1..]));
    }
  }

  lemma DurableChain(s: Sys, t: Sys, u: Sys)
    requires KeepsDurable(s, t) && KeepsDurable(t, u)
    ensures KeepsDurable(s, u)
  {
    assert t.hist[..s.durable] == t.hist[..t.durable][..s.durable];
    assert u.hist[..s.durable] == u.hist[..t.durable][..s.durable];
  }

  /** The state after a run of a new engine. */
  ghost function Reach(crc: Crc, es: seq<Event>): Sys {
    Run(crc, Initial(crc), es)
  }

  lemma ReachInv(crc: Crc, es: seq<Event>) returns (gs: seq<Seg>, s0: nat)
    ensures Inv(crc, Reach(crc, es), gs, s0)
  {
    hide Inv, Run, Initial;
    InitialInv(crc);
    gs, s0 := RunKeeps(crc, Initial(crc), es, [Seg(1, 0, 0)], 0);
  }

  /**
   * After every run: the tickets issued are 1 to next_seq; those after durable_seq are exactly the batch
   * in flight followed by the queue, in order; and the index is the fold of all accepted operations.
   */
  lemma Pipeline(crc: Crc, es: seq<Event>)
    ensures InLine(Reach(crc, es))
  {
    hide FileInv, DirInv, PipeInv, Reach, InLine;
    var gs, s0 := ReachInv(crc, es);
    PipelineInLine(Reach(crc, es));
  }

  ghost predicate InLine(s: Sys) {
    && s.durable <= s.next == |s.hist| < U64_MAX
    && |s.inflight + s.queue| == s.next - s.durable
    && (forall i :: 0 <= i < |s.inflight + s.queue| ==>
      (s.inflight + s.queue)[i] == Pending(s.durable + i + 1, s.hist[s.durable + i]))
    && s.index == Fold(s.hist, s.next)
  }

  lemma PipelineInLine(s: Sys)
    requires PipeInv(s)
    ensures InLine(s)
  {
    Durable(s);
    hide Fold, Sound;
    var all := s.inflight + s.queue;
    forall i | 0 <= i < |all| ensures all[i] == Pending(s.durable + i + 1, s.hist[s.durable + i]) {
      if i < |s.inflight| {
        assert all[i] == s.inflight[i];
      } else {
        assert all[i] == s.queue[i - |s.inflight|];
      }
    }
  }

  /** Both readers recover this map at this sequence. */
  ghost predicate BothRecover(crc: Crc, image: Image, sequence: nat, values: Map) {
    && (Recover(Engine, crc, image).Success? && Recover(Migration, crc, image) == Recover(Engine, crc, image))
    && Recover(Engine, crc, image).value.sequence == sequence && Recover(Engine, crc, image).value.values == values
  }

  /** A crash that can be read: both readers recover the fold of operations 1 to k, all durable ones among them. */
  ghost predicate RecoversFold(crc: Crc, s: Sys, keep: nat -> bool, cut: nat, k: nat) {
    && s.durable <= k <= s.durable + |s.inflight| && k <= s.next == |s.hist|
    && BothRecover(crc, CrashImage(s, keep, cut), k, Fold(s.hist, k))
  }

  lemma CrashAnywhere(crc: Crc, es: seq<Event>, keep: nat -> bool, cut: nat) returns (k: nat)
    ensures Reads(crc, Reach(crc, es), keep, cut) ==> RecoversFold(crc, Reach(crc, es), keep, cut, k)
    ensures Reads(crc, Reach(crc, es), keep, cut) <==>
      Recover(Migration, crc, CrashImage(Reach(crc, es), keep, cut)).Success?
  {
    hide Reach, FileInv, DirInv, Fold, Recover, CrashImage, Readback, RecoversTo, Survives;
    var s := Reach(crc, es);
    var gs, s0 := ReachInv(crc, es);
    var r, left, at := CrashRecovers(crc, s, gs, s0, keep, cut);
    k := 0;
    if Reads(crc, s, keep, cut) { k := CrashFrom(crc, s, gs, s0, keep, cut); }
  }

  lemma CrashFrom(crc: Crc, s: Sys, gs: seq<Seg>, s0: nat, keep: nat -> bool, cut: nat) returns (k: nat)
    requires Inv(crc, s, gs, s0) && Reads(crc, s, keep, cut)
    ensures RecoversFold(crc, s, keep, cut, k)
  {
    hide PipeInv, FileInv, DirInv, Fold, Recover, CrashImage, CrashNames, Survives, FilesKnown, FoundWell, Readback;
    var r, left, at := CrashRecovers(crc, s, gs, s0, keep, cut);
    k := r.sequence;
    NextIs(s);
  }

  lemma NextIs(s: Sys)
    requires PipeInv(s)
    ensures s.next == |s.hist|
  {
  }

  /** At any point of opening or checkpoint, a crash that can be read recovers exactly the map from before it. */
  lemma CheckpointCrash(crc: Crc, es: seq<Event>, keep: nat -> bool, cut: nat)
    requires Reach(crc, es).phase != Running && Reads(crc, Reach(crc, es), keep, cut)
    ensures BothRecover(crc, CrashImage(Reach(crc, es), keep, cut), Reach(crc, es).next, Reach(crc, es).index)
  {
    hide Reach, FileInv, DirInv, PipeInv, Fold, Recover, CrashImage;
    var s := Reach(crc, es);
    var gs, s0 := ReachInv(crc, es);
    Quiescent(crc, s);
    var k := CrashFrom(crc, s, gs, s0, keep, cut);
  }

  /** A finished checkpoint leaves one segment, the active one. */
  lemma CheckpointEnds(crc: Crc, s: Sys, gs: seq<Seg>, s0: nat)
    requires Inv(crc, s, gs, s0) && s.phase in {NewDurable, Removing} && SyncDir(s) != s
    ensures var t := SyncDir(s);
      t.phase == Running && t.disk.names.wals == [s.segment] && t.disk.pending == []
        && SnapOk(crc, t.hist, t.disk.names.snapshot, t.next)
  {
    hide PipeInv, FileInv, SnapOk, Chain, SnapshotNow, Ids, Kept;
    SegmentsNotEmpty(crc, s, gs, s0);
    Quiescent(crc, s);
    SyncDirShape(s);
    RemovalsOnly(s.disk.names, s.disk.pending, _ => true);
  }

  // ------------------------------------------------------------------ callers

  datatype WaitOutcome = Returned | FutureTicket | Failed | Blocked

  /** wait_impl, as it finds the engine. */
  function Wait(s: Sys, ticket: u64): WaitOutcome {
    if ticket == 0 then Returned
    else if ticket > s.next then FutureTicket
    else if s.durable >= ticket then Returned
    else if s.failed then Failed
    else Blocked
  }

  /**
   * An operation whose wait returned is never lost: after any further run, any crash and recovery in between
   * included, one more crash at its end either leaves a directory that no reader accepts, or the operations
   * up to it are still there, the same and in order.
   */
  lemma AcknowledgedSurvives(crc: Crc, es: seq<Event>, more: seq<Event>, ticket: u64, keep: nat -> bool, cut: nat)
    returns (k: nat)
    requires Wait(Reach(crc, es), ticket) == Returned && Reads(crc, Run(crc, Reach(crc, es), more), keep, cut)
    ensures var s, t := Reach(crc, es), Run(crc, Reach(crc, es), more);
      && RecoversFold(crc, t, keep, cut, k)
      && ticket <= k && ticket <= |s.hist| && t.hist[..k][..ticket] == s.hist[..ticket]
  {
    hide Reach, Run, Inv, RecoversFold, Reads;
    var s, t := Reach(crc, es), Run(crc, Reach(crc, es), more);
    var gs, s0 := ReachInv(crc, es);
    var gs', s0' := RunKeeps(crc, s, more, gs, s0);
    k := CrashFrom(crc, t, gs', s0', keep, cut);
    FoldRange(crc, t, keep, cut, k);
    assert t.hist[..k][..ticket] == t.hist[..s.durable][..ticket];
    assert s.hist[..s.durable][..ticket] == s.hist[..ticket];
  }

  lemma FoldRange(crc: Crc, s: Sys, keep: nat -> bool, cut: nat, k: nat)
    requires RecoversFold(crc, s, keep, cut, k)
    ensures s.durable <= k <= s.next == |s.hist|
  {
    hide Recover, CrashImage, Fold;
  }

  /** What each outcome of a wait says about the ticket: durable, never issued, or still in flight or queued. */
  ghost predicate WaitSays(s: Sys, ticket: u64) {
    var w := Wait(s, ticket);
    && (w == Returned <==> ticket <= s.durable)
    && (w == FutureTicket <==> ticket > s.next)
    && (w == WaitOutcome.Failed || w == Blocked ==> s.durable < ticket <= |s.hist|)
    && (s.durable < ticket <= |s.hist| ==> Pending(ticket, s.hist[ticket - 1]) in s.inflight + s.queue)
    && (w == WaitOutcome.Failed ==> s.writer.Dead?)
    && (w == Blocked ==> s.writer != Exited && !s.writer.Dead?)
  }

  /** After every run a wait fails only when the writer has, and blocks only while the writer lives. */
  lemma WaitMeans(crc: Crc, es: seq<Event>, ticket: u64)
    ensures WaitSays(Reach(crc, es), ticket)
  {
    hide FileInv, DirInv, PipeInv, Reach, WaitSays;
    var gs, s0 := ReachInv(crc, es);
    PipelineWait(Reach(crc, es), ticket);
  }

  lemma PipelineWait(s: Sys, ticket: u64)
    requires PipeInv(s)
    ensures WaitSays(s, ticket)
  {
    PipelineInLine(s);
    hide Fold, Sound;
    if s.durable < ticket <= s.next {
      assert (s.inflight + s.queue)[ticket - s.durable - 1] == Pending(ticket, s.hist[ticket - 1]);
    }
  }

  /** When the writer has ended, every ticket is durable if and only if it ended without an error. */
  lemma EndedDurable(crc: Crc, es: seq<Event>)
    requires var s := Reach(crc, es); s.writer == Exited || s.writer.Dead?
    ensures Ended(Reach(crc, es))
  {
    hide FileInv, DirInv, PipeInv, Reach, Ended;
    var gs, s0 := ReachInv(crc, es);
    PipelineEnded(Reach(crc, es));
  }

  ghost predicate Ended(s: Sys) {
    && (s.durable == s.next <==> !s.failed)
    && (s.closed || s.failed)
    && (!s.failed ==> forall ticket: u64 :: ticket <= s.next ==> Wait(s, ticket) == Returned)
  }

  lemma PipelineEnded(s: Sys)
    requires PipeInv(s) && (s.writer == Exited || s.writer.Dead?)
    ensures Ended(s)
  {
    hide Fold, Sound;
  }

  ghost predicate NoCrash(es: seq<Event>) {
    forall i :: 0 <= i < |es| ==> !es[i].Crashed?
  }

  /** Until the next crash a run only adds operations, and adds none once the engine is closed or failed. */
  lemma {:induction false} LiveRun(crc: Crc, s: Sys, es: seq<Event>, gs: seq<Seg>, s0: nat)
    requires Inv(crc, s, gs, s0) && NoCrash(es)
    ensures OnlyAdds(s, Run(crc, s, es))
    decreases |es|
  {
    hide Inv, Next, PipeInv, FileInv, OnlyAdds;
    SegmentsNotEmpty(crc, s, gs, s0);
    if es != [] {
      var t := Next(crc, s, es[0]);
      LiveStep(crc, s, es[0]);
      var gs1, s1 := StepInv(crc, s, es[0], gs, s0);
      LiveRun(crc, t, es[1..], gs1, s1);
      AddsChain(s, t, Run(crc, t, es[1..]));
    } else {
      AddsNothing(s);
    }
  }

  lemma AddsNothing(s: Sys)
    ensures OnlyAdds(s, s)
  {
    assert s.hist[..|s.hist|] == s.hist;
  }

  lemma AddsChain(s: Sys, t: Sys, u: Sys)
    requires OnlyAdds(s, t) && OnlyAdds(t, u)
    ensures OnlyAdds(s, u)
  {
    assert u.hist[..|s.hist|] == u.hist[..|t.hist|][..|s.hist|];
  }

  /** No ticket is issued once close has set closed. */
  lemma ClosedIssuesNothing(crc: Crc, es: seq<Event>, more: seq<Event>)
    requires Reach(crc, es).closed && NoCrash(more)
    ensures var s, t := Reach(crc, es), Run(crc, Reach(crc, es), more);
      t.closed && t.next == s.next && t.hist == s.hist
  {
    hide Reach, Run, Inv;
    var gs, s0 := ReachInv(crc, es);
    LiveRun(crc, Reach(crc, es), more, gs, s0);
    var gs', s0' := RunKeeps(crc, Reach(crc, es), more, gs, s0);
    SegmentsNotEmpty(crc, Reach(crc, es), gs, s0);
    SegmentsNotEmpty(crc, Run(crc, Reach(crc, es), more), gs', s0');
    NextIs(Reach(crc, es));
    NextIs(Run(crc, Reach(crc, es), more));
  }
}
