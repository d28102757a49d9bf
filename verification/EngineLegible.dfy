/**
 * Which crashes the engine can read. A submission may be longer than a reader accepts; such an operation is
 * logged and acknowledged, and no directory whose segments hold it can be opened again.
 */
module EngineLegible {
  import opened Bytes
  import opened Options
  import opened Store
  import W = SegmentWal
  import opened SegmentReplay
  import opened DirectoryRecovery
  import opened EngineHistory
  import opened DiskModel
  import opened SegmentNames
  import opened EngineModel
  import opened EngineSteps
  import opened EngineCrash
  import opened EngineRuns

  /** The length of the active file. */
  function Whole(s: Sys): nat {
    if s.segment in s.disk.files then |s.disk.files[s.segment].bytes| else 0
  }

  function All(): nat -> bool {
    _ => true
  }

  /** A crash that keeps no unsynced change. */
  function Nothing(): nat -> bool {
    _ => false
  }

  lemma {:induction false} KeptNone(n: Names, cs: seq<Change>)
    ensures Kept(n, cs, Nothing()) == n
    decreases |cs|
  {
    if cs != [] { KeptNone(n, cs[..|cs| - 1]); }
  }

  lemma {:induction false} KeptSame(n: Names, cs: seq<Change>, a: nat -> bool, b: nat -> bool)
    requires forall i: nat :: a(i) == b(i)
    ensures Kept(n, cs, a) == Kept(n, cs, b)
    decreases |cs|
  {
    if cs != [] { KeptSame(n, cs[..|cs| - 1], a, b); }
  }

  /** An engine with nothing to do. */
  ghost predicate Rests(s: Sys) {
    && s.writer == Idle && s.queue == [] && s.inflight == [] && !s.closed && !s.failed && s.phase == Running
    && s.durable == s.next && s.segment in s.disk.files
  }

  // ------------------------------------------------------------------ the condition

  /** Every operation that the segment files hold can be read back. */
  ghost predicate Clean(crc: Crc, s: Sys, gs: seq<Seg>) {
    Readback(crc, s, gs, Whole(s))
  }

  /** The engine can read what any crash leaves. */
  ghost predicate AlwaysReads(crc: Crc, s: Sys) {
    forall keep: nat -> bool, cut: nat :: Reads(crc, s, keep, cut)
  }

  /** Unsynced removals are not kept, everything else is: then every segment is left. */
  function KeepSegments(s: Sys): nat -> bool {
    if s.phase == Removing then Nothing() else All()
  }

  lemma AllSegments(crc: Crc, s: Sys, gs: seq<Seg>, s0: nat)
    requires Inv(crc, s, gs, s0)
    ensures CrashNames(s, KeepSegments(s)).wals == Ids(gs)
  {
    hide PipeInv, FileInv, DirInv, Kept;
    SegmentsNotEmpty(crc, s, gs, s0);
    NotEmpty(crc, s, gs);
    SegmentDir(crc, s, gs, s0);
    if s.phase == Removing {
      KeptNone(s.disk.names, s.disk.pending);
    } else if s.disk.pending == [] {
      NoChange(s.disk.names, All());
    } else {
      OneChange(s.disk.names, s.disk.pending[0], All());
    }
  }

  lemma SegmentDir(crc: Crc, s: Sys, gs: seq<Seg>, s0: nat)
    requires gs != [] && DirInv(crc, s, gs, s0) && s.segment == gs[|gs| - 1].id
    ensures s.phase == Removing ==> s.disk.names.wals == Ids(gs)
    ensures s.phase != Removing ==> |s.disk.pending| <= 1
    ensures s.phase != Removing && s.disk.pending == [] ==> s.disk.names.wals == Ids(gs)
    ensures s.phase != Removing && |s.disk.pending| == 1 ==>
      s.disk.pending == [s.disk.pending[0]] && Changed(s.disk.names, s.disk.pending[0]).wals == Ids(gs)
  {
    hide SnapOk, Chain, SnapshotNow, Ids;
    AddedIds(gs, s.segment);
    NoIds();
  }

  lemma SameSegs(left: seq<Seg>, gs: seq<Seg>)
    requires Ids(left) == Ids(gs) && Among(left, gs) && Ascending(gs)
    ensures left == gs
  {
    assert |Ids(left)| == |left| && |Ids(gs)| == |gs|;
    forall i | 0 <= i < |left| ensures left[i] == gs[i] {
      assert Ids(left)[i] == Ids(gs)[i];
      var j :| 0 <= j < |gs| && gs[j] == left[i];
    }
  }

  /** What is left after a crash is no harder to read than the segments as they are. */
  lemma LeftReads(crc: Crc, s: Sys, gs: seq<Seg>, left: seq<Seg>, cut: nat)
    requires PipeInv(s) && FileInv(crc, s, gs) && Selected(s, left, gs) && Clean(crc, s, gs)
    ensures Readback(crc, s, left, cut)
  {
    hide PipeInv, FileInv, SegLegible, Survivor, AllReadable, Span, FilesKnown;
    if left != [] {
      var n, full := |left| - 1, Full(s, left);
      FullOk(crc, s, gs, left, cut);
      KnownOk(crc, s, left, cut);
      forall i | 0 <= i < n ensures SegOk(s.hist, full[i]) && AllReadable(Span(s.hist, full[i].base, full[i].end)) {
        OtherReads(crc, s, gs, left, i);
      }
      LastReads(crc, s, gs, left, cut);
    }
  }

  lemma KnownOk(crc: Crc, s: Sys, left: seq<Seg>, cut: nat)
    requires left != [] && FilesKnown(crc, s, left, cut)
    ensures AllOk(s.hist, Full(s, left)) && SegOk(s.hist, Full(s, left)[|left| - 1])
  {
    hide Begins, SegBytes, Survivor;
  }

  /** A segment other than the active one holds only operations that can be read back. */
  lemma CleanOther(crc: Crc, s: Sys, gs: seq<Seg>, g: Seg)
    requires FileInv(crc, s, gs) && Clean(crc, s, gs) && g in gs && g.id != s.segment
    ensures SegOk(s.hist, g) && AllReadable(Span(s.hist, g.base, g.end))
  {
    hide FileInv, SegLegible, AllReadable, Span;
    NotEmpty(crc, s, gs);
    var i :| 0 <= i < |gs| && gs[i] == g;
    assert Full(s, gs)[i] == g;
  }

  lemma OtherReads(crc: Crc, s: Sys, gs: seq<Seg>, left: seq<Seg>, i: nat)
    requires FileInv(crc, s, gs) && Clean(crc, s, gs) && Selected(s, left, gs) && i < |left| - 1
    ensures var g := Full(s, left)[i]; SegOk(s.hist, g) && AllReadable(Span(s.hist, g.base, g.end))
  {
    hide FileInv, Clean, AllReadable, Selected, Span;
    SelectedAt(s, left, gs, i);
    SelectedAt(s, left, gs, |left| - 1);
    TopId(crc, s, gs, left[|left| - 1]);
    CleanOther(crc, s, gs, left[i]);
  }

  lemma LastReads(crc: Crc, s: Sys, gs: seq<Seg>, left: seq<Seg>, cut: nat)
    requires PipeInv(s) && FileInv(crc, s, gs) && Selected(s, left, gs) && left != [] && Clean(crc, s, gs)
    requires AllOk(s.hist, Full(s, left)) && SegOk(s.hist, Full(s, left)[|left| - 1])
    ensures SegLegible(crc, s.hist, Full(s, left)[|left| - 1], LastCut(s, left, cut))
  {
    hide PipeInv, FileInv, Clean, AllReadable, Selected, SegLegible, Span, Survivor, Complete, ActiveOk, Begins;
    var g := left[|left| - 1];
    SelectedAt(s, left, gs, |left| - 1);
    LastKnown(crc, s, gs, g, cut);
    LastKnown(crc, s, gs, g, Whole(s));
    Member(crc, s, gs, g);
    if g.id == s.segment {
      ActiveReads(crc, s, gs, g);
      CutBelow(s, g.id, cut);
      var full := Full(s, left)[|left| - 1];
      BeginsLong(crc, s.hist, g, full, Survivor(s, g.id, cut));
      SegShorter(crc, s.hist, full, |Survivor(s, g.id, cut)|, |Survivor(s, g.id, Whole(s))|);
    } else {
      CleanOther(crc, s, gs, g);
      ClosedReads(crc, s, g, cut);
    }
  }

  lemma SegShorter(crc: Crc, hist: History, g: Seg, cut: nat, longer: nat)
    requires SegOk(hist, g) && W.HEADER_SIZE <= cut <= longer && SegLegible(crc, hist, g, longer)
    ensures SegLegible(crc, hist, g, cut)
  {
    hide CutLegible, Span;
    LegibleShorter(crc, Span(hist, g.base, g.end), cut - W.HEADER_SIZE, longer - W.HEADER_SIZE);
  }

  lemma ClosedReads(crc: Crc, s: Sys, g: Seg, cut: nat)
    requires SegOk(s.hist, g) && Complete(crc, s, g) && g.id != s.segment && AllReadable(Span(s.hist, g.base, g.end))
    ensures SegLegible(crc, s.hist, g, |Survivor(s, g.id, cut)|)
  {
    hide CutLegible, Span, AllReadable, Records, Survivor, SegBytes;
    WholeLegible(crc, Span(s.hist, g.base, g.end));
    ClosedLength(crc, s, g, cut);
  }

  lemma ActiveReads(crc: Crc, s: Sys, gs: seq<Seg>, g: Seg)
    requires FileInv(crc, s, gs) && Clean(crc, s, gs) && g in gs && g.id == s.segment
    ensures SegOk(s.hist, g.(end := s.durable + |s.inflight|))
    ensures SegLegible(crc, s.hist, g.(end := s.durable + |s.inflight|), |Survivor(s, g.id, Whole(s))|)
  {
    hide FileInv, SegLegible, AllReadable, Span, Survivor;
    NotEmpty(crc, s, gs);
    AscendingOf(crc, s, gs);
    var i :| 0 <= i < |gs| && gs[i] == g;
    assert Full(s, gs)[|gs| - 1] == g.(end := s.durable + |s.inflight|);
    assert SegOk(s.hist, Full(s, gs)[|gs| - 1]);
  }

  lemma BeginsLong(crc: Crc, hist: History, g: Seg, full: Seg, b: Bytes)
    requires Begins(crc, hist, g, full, b)
    ensures W.HEADER_SIZE <= |b|
  {
    hide Records, Span;
  }

  /** A closed segment file is whole. */
  lemma ClosedLength(crc: Crc, s: Sys, g: Seg, cut: nat)
    requires SegOk(s.hist, g) && Complete(crc, s, g) && g.id != s.segment
    ensures |Survivor(s, g.id, cut)| == W.HEADER_SIZE + |Records(crc, Span(s.hist, g.base, g.end))|
  {
    hide Records, Span;
  }

  /**
   * Every crash can be read, whatever survives of the unsynced changes and of the active file, if and only if
   * every operation that the segment files hold, as far as its length field, can be read back.
   */
  lemma ReadsIff(crc: Crc, s: Sys, gs: seq<Seg>, s0: nat)
    requires Inv(crc, s, gs, s0)
    ensures AlwaysReads(crc, s) <==> Clean(crc, s, gs)
  {
    hide PipeInv, FileInv, DirInv, Clean, Recover, CrashImage, CrashNames, Readback, RecoversTo;
    SegmentsNotEmpty(crc, s, gs, s0);
    if Clean(crc, s, gs) {
      forall keep: nat -> bool, cut: nat ensures Reads(crc, s, keep, cut) {
        var r, left, at := CrashRecovers(crc, s, gs, s0, keep, cut);
        SurvivesSelected(crc, s, gs, CrashNames(s, keep), left, at);
        LeftReads(crc, s, gs, left, cut);
      }
    }
    if AlwaysReads(crc, s) {
      assert Reads(crc, s, KeepSegments(s), Whole(s));
      WorstCrash(crc, s, gs, s0);
    }
  }

  lemma SurvivesSelected(crc: Crc, s: Sys, gs: seq<Seg>, names: Names, left: seq<Seg>, at: nat)
    requires Survives(crc, s, gs, names, left, at)
    ensures Selected(s, left, gs) && names.wals == Ids(left) && Among(left, gs)
  {
    hide SnapOk, Chain, Ids, Ascending, Among;
  }

  /** The crash that keeps every segment and every byte is read only if all of them can be read. */
  lemma WorstCrash(crc: Crc, s: Sys, gs: seq<Seg>, s0: nat)
    requires Inv(crc, s, gs, s0)
    ensures Reads(crc, s, KeepSegments(s), Whole(s)) <==> Clean(crc, s, gs)
  {
    hide PipeInv, FileInv, DirInv, Recover, CrashImage, CrashNames, Readback, RecoversTo, Survives;
    SegmentsNotEmpty(crc, s, gs, s0);
    var r, left, at := CrashRecovers(crc, s, gs, s0, KeepSegments(s), Whole(s));
    AllSegments(crc, s, gs, s0);
    SurvivesSelected(crc, s, gs, CrashNames(s, KeepSegments(s)), left, at);
    AscendingOf(crc, s, gs);
    SameSegs(left, gs);
  }

  /** The engine reads what survives exactly when every operation in it can be read back. */
  lemma ReadsBack(crc: Crc, s: Sys, gs: seq<Seg>, left: seq<Seg>, at: nat, keep: nat -> bool, cut: nat)
    requires PipeInv(s) && FileInv(crc, s, gs) && Survives(crc, s, gs, CrashNames(s, keep), left, at)
    ensures Reads(crc, s, keep, cut) <==> Readback(crc, s, left, cut)
  {
    hide PipeInv, FileInv, Survives, CrashNames, Recover, CrashImage, Readback, RecoversTo;
    if Readback(crc, s, left, cut) {
      var r := SurvivorsRecover(crc, s, gs, left, at, keep, cut);
    } else {
      SurvivorsFail(crc, s, gs, left, at, keep, cut);
    }
  }

  /** What survives with less of the active file is no harder to read. */
  lemma ShorterReads(crc: Crc, s: Sys, gs: seq<Seg>, left: seq<Seg>, cut: nat)
    requires PipeInv(s) && FileInv(crc, s, gs) && Selected(s, left, gs) && Readback(crc, s, left, Whole(s))
    ensures Readback(crc, s, left, cut)
  {
    hide PipeInv, FileInv, SegLegible, Survivor, AllReadable, Span, Begins, Selected;
    if left != [] {
      var g, full := left[|left| - 1], Full(s, left)[|left| - 1];
      SelectedAt(s, left, gs, |left| - 1);
      LastKnown(crc, s, gs, g, cut);
      BeginsLong(crc, s.hist, g, full, Survivor(s, g.id, cut));
      CutBelow(s, g.id, cut);
      SegShorter(crc, s.hist, full, |Survivor(s, g.id, cut)|, |Survivor(s, g.id, Whole(s))|);
    }
  }

  lemma CutBelow(s: Sys, id: u64, cut: nat)
    ensures |Survivor(s, id, cut)| <= |Survivor(s, id, Whole(s))|
  {
  }

  // ------------------------------------------------------------------ runs

  /** The operations that a run submits are all short enough to be read back. */
  ghost predicate ShortOps(es: seq<Event>) {
    forall i :: 0 <= i < |es| && es[i].Submitted? ==> W.Readable(es[i].op)
  }

  ghost predicate ShortHist(hist: History) {
    forall i :: 0 <= i < |hist| ==> W.Readable(hist[i])
  }

  lemma ShortStep(crc: Crc, s: Sys, e: Event)
    requires ShortHist(s.hist) && (e.Submitted? ==> W.Readable(e.op))
    ensures ShortHist(Next(crc, s, e).hist)
  {
    hide W.Readable, W.Submittable, Buffer, SnapshotNow, W.HeaderBytes, Live, Recover, CrashImage, CrashNames;
  }

  lemma {:induction false} ShortRun(crc: Crc, s: Sys, es: seq<Event>)
    requires ShortHist(s.hist) && ShortOps(es)
    ensures ShortHist(Run(crc, s, es).hist)
    decreases |es|
  {
    hide Next, W.Readable;
    if es != [] {
      ShortStep(crc, s, es[0]);
      ShortRun(crc, Next(crc, s, es[0]), es[1..]);
    }
  }

  lemma ShortClean(crc: Crc, s: Sys, gs: seq<Seg>, s0: nat)
    requires Inv(crc, s, gs, s0) && ShortHist(s.hist)
    ensures Clean(crc, s, gs)
  {
    hide PipeInv, FileInv, DirInv, Survivor, FilesKnown, W.Readable, Records, WholeRecords, Full;
    SegmentsNotEmpty(crc, s, gs, s0);
    AllSelected(crc, s, gs);
    FullOk(crc, s, gs, gs, Whole(s));
    KnownOk(crc, s, gs, Whole(s));
    var full := Full(s, gs);
    LongEnough(crc, s, gs);
    forall i | 0 <= i < |full| ensures SegOk(s.hist, full[i]) && AllReadable(Span(s.hist, full[i].base, full[i].end)) {
    }
  }

  lemma LongEnough(crc: Crc, s: Sys, gs: seq<Seg>)
    requires gs != [] && FilesKnown(crc, s, gs, Whole(s))
    ensures LastCut(s, gs, Whole(s)) >= W.HEADER_SIZE && |Full(s, gs)| == |gs|
  {
    hide Records, Span, Survivor;
    var n := |gs| - 1;
    BeginsLong(crc, s.hist, gs[n], Full(s, gs)[n], Survivor(s, gs[n].id, Whole(s)));
  }

  /** When a run submits no operation that is too long, every crash after it can be read. */
  lemma ShortReads(crc: Crc, es: seq<Event>)
    requires ShortOps(es)
    ensures AlwaysReads(crc, Reach(crc, es))
  {
    hide Inv, Run, AlwaysReads, Clean, ShortHist;
    var gs, s0 := ReachInv(crc, es);
    ShortInitial(crc);
    ShortRun(crc, Initial(crc), es);
    ShortClean(crc, Reach(crc, es), gs, s0);
    ReadsIff(crc, Reach(crc, es), gs, s0);
  }

  lemma ShortInitial(crc: Crc)
    ensures ShortHist(Initial(crc).hist)
  {
    hide W.HeaderBytes;
  }

  // ------------------------------------------------------------------ a checkpoint heals, an oversize put stops

  /** Once a checkpoint has finished, every crash can be read, whatever was logged before. */
  lemma CheckpointHeals(crc: Crc, s: Sys, gs: seq<Seg>, s0: nat)
    requires Inv(crc, s, gs, s0) && s.phase in {NewDurable, Removing} && SyncDir(s) != s
    ensures AlwaysReads(crc, SyncDir(s))
  {
    hide PipeInv, FileInv, DirInv, Clean, AlwaysReads, SyncDir;
    SegmentsNotEmpty(crc, s, gs, s0);
    var gs', s0' := SyncDirKeeps(crc, s, gs, s0);
    var t, g := SyncDir(s), gs[|gs| - 1];
    SyncDirShape(s);
    Quiescent(crc, s);
    NewEmpty(crc, s, gs, s0);
    SegmentsNotEmpty(crc, t, gs', s0');
    EmptyClean(crc, t, g);
    ReadsIff(crc, t, gs', s0');
  }

  lemma NewEmpty(crc: Crc, s: Sys, gs: seq<Seg>, s0: nat)
    requires gs != [] && DirInv(crc, s, gs, s0) && s.phase in {NewDurable, Removing}
    ensures gs[|gs| - 1].base == s.durable
  {
    hide SnapOk, Chain, SnapshotNow, Ids;
  }

  /** A single segment in which nothing is logged yet. */
  lemma EmptyClean(crc: Crc, t: Sys, g: Seg)
    requires PipeInv(t) && FileInv(crc, t, [g]) && g.base == t.durable && t.inflight == []
    ensures Clean(crc, t, [g])
  {
    hide PipeInv, FileInv, Survivor, FilesKnown;
    ActiveEnd(crc, t, [g]);
    AllSelected(crc, t, [g]);
    FullOk(crc, t, [g], [g], Whole(t));
    KnownOk(crc, t, [g], Whole(t));
    LongEnough(crc, t, [g]);
    var full := Full(t, [g]);
    assert full == [g];
    assert Span(t.hist, g.base, g.end) == [];
  }

  /** The engine once it has logged, synced and acknowledged one more operation. */
  function Acknowledged(crc: Crc, s: Sys, op: Operation): Sys {
    var p := Pending(if s.next < U64_MAX then s.next + 1 else 0, op);
    Publish(Flush(crc, WriteTo(crc, Take(Submit(s, op), 1), |Buffer(crc, [p])|)))
  }

  /**
   * An operation that is too long for a reader is accepted, logged and acknowledged like any other; but after a
   * crash that keeps the segments and the file as they are, neither reader can read the directory.
   */
  lemma OversizeStops(crc: Crc, s: Sys, gs: seq<Seg>, s0: nat, op: Operation)
    requires Inv(crc, s, gs, s0) && Rests(s) && s.next + 1 < U64_MAX
    requires W.Submittable(op) && W.RecordSize(op) > W.MAX_RECORD
    ensures var u := Acknowledged(crc, s, op);
      && Wait(u, s.next + 1) == Returned && !Reads(crc, u, KeepSegments(u), Whole(u))
      && u.hist == s.hist + [op] && u.disk.pending == s.disk.pending
  {
    hide Inv, PipeInv, FileInv, Submit, Take, WriteTo, Flush, Publish, Buffer, W.Submittable, Rests, Reads;
    var p := Pending(s.next + 1, op);
    var n := |Buffer(crc, [p])|;
    var s1 := Submit(s, op);
    var s2 := Take(s1, 1);
    var s3 := WriteTo(crc, s2, n);
    var s4 := Flush(crc, s3);
    SubmitKeeps(crc, s, op, gs, s0);
    TakeKeeps(crc, s1, 1, gs, s0);
    WriteKeeps(crc, s2, n, gs, s0);
    FlushKeeps(crc, s3, gs, s0);
    SegmentsNotEmpty(crc, s, gs, s0);
    SegmentsNotEmpty(crc, s4, gs, s0);
    NextIs(s);
    AcknowledgedShape(crc, s, op);
    PublishKeeps(crc, s4, gs, s0);
    var u, gs' := Publish(s4), Grown(s4, gs);
    SegmentsNotEmpty(crc, u, gs', s0);
    NextIs(u);
    LastGrown(crc, s4, gs);
    OversizeHeld(crc, u, gs', op);
    WorstCrash(crc, u, gs', s0);
  }

  lemma AcknowledgedShape(crc: Crc, s: Sys, op: Operation)
    requires Rests(s) && W.Submittable(op) && s.next + 1 < U64_MAX && s.next == |s.hist|
    ensures var p := Pending(s.next + 1, op);
      var held := Flush(crc, WriteTo(crc, Take(Submit(s, op), 1), |Buffer(crc, [p])|));
      var u := Acknowledged(crc, s, op);
      && u == Publish(held) != held && held.inflight == [p] && held.durable + 1 == u.durable
      && u.hist == s.hist + [op] && u.durable == u.next == s.next + 1 && u.inflight == [] && u.writer == Idle
      && u.disk.pending == s.disk.pending
  {
    hide Buffer, W.Submittable, ApplyOne;
    var p := Pending(s.next + 1, op);
    var taken := Take(Submit(s, op), 1);
    assert [p][..1] == [p] && [p][1..] == [] && [] + [p] == [p];
    assert taken.inflight == [p] && taken.writer == Holding(0);
  }

  lemma LastGrown(crc: Crc, s: Sys, gs: seq<Seg>)
    requires FileInv(crc, s, gs) && s.inflight != []
    ensures gs != [] && Grown(s, gs) != [] && Grown(s, gs)[|gs| - 1].base < s.durable + |s.inflight|
  {
    hide SegBytes, InFile;
    ActiveEnd(crc, s, gs);
    assert SegOk(s.hist, gs[|gs| - 1]);
  }

  /** A segment that holds an operation that is too long. */
  lemma OversizeHeld(crc: Crc, u: Sys, gs: seq<Seg>, op: Operation)
    requires PipeInv(u) && FileInv(crc, u, gs) && u.writer == Idle && u.inflight == []
    requires gs != [] && gs[|gs| - 1].base < u.durable == |u.hist| && u.hist[u.durable - 1] == op && !W.Readable(op)
    ensures !Clean(crc, u, gs)
  {
    hide PipeInv, FileInv, SegLegible, AllReadable, Span, Survivor, Records, W.Readable, ActiveOk, Clean;
    if Clean(crc, u, gs) {
      var g := gs[|gs| - 1];
      NotEmpty(crc, u, gs);
      ActiveEnd(crc, u, gs);
      ActiveReads(crc, u, gs, g);
      IdleLegible(crc, u, g);
      LastOf(u.hist, g.base, g.end, op);
    }
  }

  lemma LastOf(hist: History, a: nat, b: nat, op: Operation)
    requires a < b <= |hist| <= U64_MAX && hist[b - 1] == op && !W.Readable(op)
    ensures !AllReadable(Span(hist, a, b))
  {
    assert Span(hist, a, b)[b - a - 1].op == op;
  }

  lemma IdleLegible(crc: Crc, u: Sys, g: Seg)
    requires SegOk(u.hist, g) && ActiveOk(crc, u, g) && u.writer == Idle && u.inflight == []
    requires var full := g.(end := u.durable + |u.inflight|);
      SegOk(u.hist, full) && SegLegible(crc, u.hist, full, |Survivor(u, g.id, Whole(u))|)
    ensures AllReadable(Span(u.hist, g.base, g.end))
  {
    hide AllReadable, Span, Survivor, Records, ActiveOk, CutLegible;
    IdleLength(crc, u, g);
    WholeLegible(crc, Span(u.hist, g.base, g.end));
  }

  lemma IdleLength(crc: Crc, u: Sys, g: Seg)
    requires SegOk(u.hist, g) && ActiveOk(crc, u, g) && u.writer == Idle && u.inflight == []
    ensures g.(end := u.durable + |u.inflight|) == g
    ensures |Survivor(u, g.id, Whole(u))| == W.HEADER_SIZE + |Records(crc, Span(u.hist, g.base, g.end))|
  {
    hide Records, Span;
  }
}
