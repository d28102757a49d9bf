/** Runs with kills: which of them keep what was acknowledged, and exactly which kills do not. */
module EngineKillRuns {
  import opened Bytes
  import opened Store
  import W = SegmentWal
  import opened SegmentReplay
  import opened DirectoryRecovery
  import opened EngineHistory
  import opened DiskModel
  import opened EngineModel
  import opened EngineSteps
  import opened EngineCrash
  import opened EngineRuns
  import opened EngineLegible
  import opened EngineKill

  // ------------------------------------------------------------------ runs with kills

  /** A step of the engine, a crash among them, or a kill and a reopening. */
  datatype Act = Did(e: Event) | Killed

  ghost function NextAct(crc: Crc, s: Sys, a: Act): Sys {
    match a
    case Did(e) => Next(crc, s, e)
    case Killed => Kill(crc, s)
  }

  ghost function RunActs(crc: Crc, s: Sys, acts: seq<Act>): Sys
    decreases |acts|
  {
    if acts == [] then s else RunActs(crc, NextAct(crc, s, acts[0]), acts[1..])
  }

  /** Every kill of the run leaves a directory that an opening finds settled, or cannot open. */
  ghost predicate SettledRun(crc: Crc, s: Sys, acts: seq<Act>)
    decreases |acts|
  {
    acts == [] ||
      ((acts[0].Killed? && Opens(crc, s) ==> Settled(crc, s)) && SettledRun(crc, NextAct(crc, s, acts[0]), acts[1..]))
  }

  /** Before the first sync of the directory, the later steps of a checkpoint do nothing. */
  lemma LateNothing(crc: Crc, s: Sys, e: Event)
    requires Early(s.phase) && !IsPipeline(e) && !IsEarly(e) && !e.Crashed? && (e == SyncedDir ==> s.phase != Renamed)
    ensures Next(crc, s, e) == s
  {
  }

  lemma SyncKeepsDurable(s: Sys)
    requires s.durable <= |s.hist|
    ensures KeepsDurable(s, SyncDir(s))
  {
    hide Live;
  }

  lemma WithKeeps(m: Sys, t: Sys, a: seq<Change>, b: seq<Change>)
    requires KeepsDurable(m, t)
    ensures KeepsDurable(With(m, a), With(t, b)) && KeepsDurable(With(m, a), t)
  {
  }

  lemma GoodDurable(crc: Crc, m: Sys, stale: seq<Change>, gs: seq<Seg>, s0: nat)
    requires Good(crc, m, stale, gs, s0)
    ensures m.durable <= |m.hist| && With(m, stale).phase == m.phase && KeepsDurable(m, m)
    ensures With(m, stale).durable <= |With(m, stale).hist|
    ensures stale != [] ==> Early(m.phase)
    ensures Inv(crc, m, gs, s0)
  {
    hide AllStale, PipeInv, FileInv;
    SegmentsNotEmpty(crc, m, gs, s0);
    Durable(m);
  }

  lemma FreshGood(crc: Crc, m: Sys, gs: seq<Seg>, s0: nat)
    requires Inv(crc, m, gs, s0)
    ensures Good(crc, m, [], gs, s0) && With(m, []) == m
  {
    hide Inv;
    WithNone(m);
  }

  /** A step, a crash or a settled kill keeps the invariant and everything durable. */
  lemma ActKeeps(crc: Crc, m: Sys, stale: seq<Change>, gs: seq<Seg>, s0: nat, a: Act)
    returns (m': Sys, stale': seq<Change>, gs': seq<Seg>, s0': nat)
    requires Good(crc, m, stale, gs, s0) && (a == Killed && Opens(crc, With(m, stale)) ==> Settled(crc, With(m, stale)))
    ensures var s := With(m, stale);
      NextAct(crc, s, a) == With(m', stale') && Good(crc, m', stale', gs', s0') && KeepsDurable(s, NextAct(crc, s, a))
  {
    hide Good, Settled, With, Kill, Next, KeepsDurable, Opens;
    var s := With(m, stale);
    match a
    case Killed =>
      m', stale', gs', s0' := m, stale, gs, s0;
      if Opens(crc, s) {
        stale' := s.disk.pending;
        m', gs' := KillGood(crc, m, stale, gs, s0);
      } else {
        KillStops(crc, s);
        GoodDurable(crc, m, stale, gs, s0);
        WithKeeps(m, m, stale, stale);
      }
    case Did(e) =>
      m', stale', gs', s0' := StepGood(crc, m, stale, gs, s0, e);
  }

  /** A directory that cannot be opened is no step. */
  lemma KillStops(crc: Crc, s: Sys)
    requires !Opens(crc, s)
    ensures Kill(crc, s) == s
  {
    hide Recover, CrashImage;
  }

  lemma StepGood(crc: Crc, m: Sys, stale: seq<Change>, gs: seq<Seg>, s0: nat, e: Event)
    returns (m': Sys, stale': seq<Change>, gs': seq<Seg>, s0': nat)
    requires Good(crc, m, stale, gs, s0)
    ensures var s := With(m, stale);
      Next(crc, s, e) == With(m', stale') && Good(crc, m', stale', gs', s0') && KeepsDurable(s, Next(crc, s, e))
  {
    hide Good, Inv, With, Next, KeepsDurable, SyncDir, Crash, Reads;
    var s := With(m, stale);
    GoodDurable(crc, m, stale, gs, s0);
    m', stale', gs', s0' := m, stale, gs, s0;
    if e.Crashed? && !Reads(crc, s, e.keep, e.cut) {
      CrashIs(crc, s, e);
      CrashStops(crc, s, e.keep, e.cut);
      WithKeeps(m, m, stale, stale);
    } else if e.Crashed? {
      CrashIs(crc, s, e);
      m', stale' := Crash(crc, s, e.keep, e.cut), [];
      gs', s0' := GoodCrash(crc, m, stale, gs, s0, e.keep, e.cut);
      FreshGood(crc, m', gs', s0');
    } else if stale == [] {
      WithNone(m);
      m' := Next(crc, m, e);
      gs', s0' := StepKeeps(crc, m, e, gs, s0);
      FreshGood(crc, m', gs', s0');
    } else if IsPipeline(e) || IsEarly(e) {
      m' := Next(crc, m, e);
      WithNext(crc, m, stale, e);
      gs' := EarlyGood(crc, m, stale, e, gs, s0);
      WithKeeps(m, m', stale, stale);
    } else if e == SyncedDir && m.phase == Renamed {
      SyncedIs(crc, s);
      m', stale', s0' := SyncDir(s), [], m.durable;
      gs' := SyncOver(crc, m, stale, gs, s0);
      FreshGood(crc, m', gs', s0');
      SyncKeepsDurable(s);
    } else {
      LateNothing(crc, s, e);
      WithKeeps(m, m, stale, stale);
    }
  }

  lemma SyncedIs(crc: Crc, s: Sys)
    ensures Next(crc, s, SyncedDir) == SyncDir(s)
  {
    hide SyncDir;
  }

  /** Every run whose kills are settled keeps the invariant and everything durable. */
  lemma {:induction false} ActsKeep(crc: Crc, m: Sys, stale: seq<Change>, gs: seq<Seg>, s0: nat, acts: seq<Act>)
    returns (m': Sys, stale': seq<Change>, gs': seq<Seg>, s0': nat)
    requires Good(crc, m, stale, gs, s0) && SettledRun(crc, With(m, stale), acts)
    ensures var s := With(m, stale);
      RunActs(crc, s, acts) == With(m', stale') && Good(crc, m', stale', gs', s0')
        && KeepsDurable(s, RunActs(crc, s, acts))
    decreases |acts|
  {
    hide Good, Settled, With, NextAct, KeepsDurable, Opens;
    var s := With(m, stale);
    m', stale', gs', s0' := m, stale, gs, s0;
    if acts == [] {
      GoodDurable(crc, m, stale, gs, s0);
      WithKeeps(m, m, stale, stale);
    } else {
      var t := NextAct(crc, s, acts[0]);
      var m1, stale1, gs1, s1 := ActKeeps(crc, m, stale, gs, s0, acts[0]);
      m', stale', gs', s0' := ActsKeep(crc, m1, stale1, gs1, s1, acts[1..]);
      DurableChain(s, t, RunActs(crc, t, acts[1..]));
    }
  }

  /** The state after a run of a new engine. */
  ghost function ReachActs(crc: Crc, acts: seq<Act>): Sys {
    RunActs(crc, Initial(crc), acts)
  }

  lemma ReachGood(crc: Crc, acts: seq<Act>) returns (m: Sys, stale: seq<Change>, gs: seq<Seg>, s0: nat)
    requires SettledRun(crc, Initial(crc), acts)
    ensures ReachActs(crc, acts) == With(m, stale) && Good(crc, m, stale, gs, s0)
  {
    hide Good, RunActs, Initial, With, SettledRun;
    InitialInv(crc);
    FreshGood(crc, Initial(crc), [Seg(1, 0, 0)], 0);
    m, stale, gs, s0 := ActsKeep(crc, Initial(crc), [], [Seg(1, 0, 0)], 0, acts);
  }

  /**
   * An operation whose wait returned is never lost in any run of crashes, recoveries and settled kills: after
   * one more crash the operations up to it are still there, the same and in order.
   */
  lemma AcknowledgedThroughKills(crc: Crc, acts: seq<Act>, more: seq<Act>, ticket: u64, keep: nat -> bool, cut: nat)
    returns (k: nat)
    requires SettledRun(crc, Initial(crc), acts) && SettledRun(crc, ReachActs(crc, acts), more)
    requires Wait(ReachActs(crc, acts), ticket) == Returned
    requires Reads(crc, RunActs(crc, ReachActs(crc, acts), more), keep, cut)
    ensures var s, t := ReachActs(crc, acts), RunActs(crc, ReachActs(crc, acts), more);
      && RecoversFold(crc, t, keep, cut, k)
      && ticket <= k && ticket <= |s.hist| && t.hist[..k][..ticket] == s.hist[..ticket]
  {
    hide ReachActs, RunActs, Good, SettledRun, RecoversFold, With, Reads;
    var s, t := ReachActs(crc, acts), RunActs(crc, ReachActs(crc, acts), more);
    var m, stale, gs, s0 := ReachGood(crc, acts);
    var m', stale', gs', s0' := ActsKeep(crc, m, stale, gs, s0, more);
    k := GoodRecovers(crc, m', stale', gs', s0', keep, cut);
    FoldRange(crc, t, keep, cut, k);
    assert t.hist[..k][..ticket] == t.hist[..s.durable][..ticket];
    assert s.hist[..s.durable][..ticket] == s.hist[..ticket];
  }

  // ------------------------------------------------------------------ exactly which kills

  ghost predicate SomeFold(crc: Crc, s: Sys, keep: nat -> bool, cut: nat) {
    exists k: nat :: RecoversFold(crc, s, keep, cut, k)
  }

  /** Every crash that can be read recovers all that the engine counts as durable. */
  ghost predicate Lossless(crc: Crc, s: Sys) {
    forall keep: nat -> bool, cut: nat :: Reads(crc, s, keep, cut) ==> SomeFold(crc, s, keep, cut)
  }

  /** The same whatever the engine does from here on. */
  ghost predicate Secure(crc: Crc, t: Sys) {
    forall more: seq<Act> :: SettledRun(crc, t, more) ==> Lossless(crc, RunActs(crc, t, more))
  }

  lemma GoodSecure(crc: Crc, m: Sys, stale: seq<Change>, gs: seq<Seg>, s0: nat)
    requires Good(crc, m, stale, gs, s0)
    ensures Secure(crc, With(m, stale))
  {
    hide Good, With, RunActs, SettledRun, RecoversFold, Reads;
    var t := With(m, stale);
    forall more: seq<Act> | SettledRun(crc, t, more) ensures Lossless(crc, RunActs(crc, t, more)) {
      var m', stale', gs', s0' := ActsKeep(crc, m, stale, gs, s0, more);
      forall keep: nat -> bool, cut: nat | Reads(crc, RunActs(crc, t, more), keep, cut)
        ensures SomeFold(crc, RunActs(crc, t, more), keep, cut)
      {
        var k := GoodRecovers(crc, m', stale', gs', s0', keep, cut);
      }
    }
  }

  /** A put, alone in its batch, up to its acknowledgement. */
  function PutOne(crc: Crc, p: Pending): seq<Act> {
    [Did(Submitted(p.op))] + WriteOne(|Buffer(crc, [p])|)
  }

  /** The writer's turn with one operation, of n bytes. */
  function WriteOne(n: nat): seq<Act> {
    [Did(Took(1))] + ([Did(Wrote(n))] + ([Did(FlushedWal)] + [Did(Published)]))
  }

  /** t is s with one more operation logged and synced in the active file. */
  ghost predicate OneMore(s: Sys, t: Sys) {
    && t.durable == t.next == s.next + 1 && t.inflight == [] && t.segment == s.segment
    && t.disk.names == s.disk.names && t.disk.pending == s.disk.pending
    && forall id :: id in s.disk.files && id != s.segment ==> id in t.disk.files && t.disk.files[id] == s.disk.files[id]
  }

  lemma PutSteps(crc: Crc, s: Sys, op: Operation)
    requires Rests(s) && W.Submittable(op) && s.next + 1 < U64_MAX
    ensures var p := Pending(s.next + 1, op);
      OneMore(s, Publish(Flush(crc, WriteTo(crc, Take(Submit(s, op), 1), |Buffer(crc, [p])|))))
  {
    hide Buffer, W.Submittable, ApplyOne;
    var p := Pending(s.next + 1, op);
    var taken := Take(Submit(s, op), 1);
    assert [p][..1] == [p] && [p][1..] == [] && [] + [p] == [p];
    assert taken.inflight == [p] && taken.writer == Holding(0);
  }

  lemma PutRun(crc: Crc, s: Sys, op: Operation)
    requires Rests(s) && W.Submittable(op) && s.next + 1 < U64_MAX
    ensures OneMore(s, RunActs(crc, s, PutOne(crc, Pending(s.next + 1, op))))
    ensures SettledRun(crc, s, PutOne(crc, Pending(s.next + 1, op)))
  {
    PutSteps(crc, s, op);
    hide Buffer, W.Submittable, Submit, Take, WriteTo, Flush, Publish, OneMore, Rests, RunActs, SettledRun;
    hide WriteOne;
    var p := Pending(s.next + 1, op);
    var n := |Buffer(crc, [p])|;
    OneAct(crc, s, Submitted(op), WriteOne(n));
    WriteRun(crc, Submit(s, op), n);
  }

  lemma WriteRun(crc: Crc, s: Sys, n: nat)
    ensures RunActs(crc, s, WriteOne(n)) == Publish(Flush(crc, WriteTo(crc, Take(s, 1), n)))
    ensures SettledRun(crc, s, WriteOne(n))
  {
    hide Take, WriteTo, Flush, Publish, RunActs, SettledRun;
    var s2 := Take(s, 1);
    var s3 := WriteTo(crc, s2, n);
    var sync := [Did(FlushedWal)] + [Did(Published)];
    OneAct(crc, s, Took(1), [Did(Wrote(n))] + sync);
    OneAct(crc, s2, Wrote(n), sync);
    OneAct(crc, s3, FlushedWal, [Did(Published)]);
    LastAct(crc, Flush(crc, s3), Published);
  }

  lemma LastAct(crc: Crc, s: Sys, e: Event)
    ensures RunActs(crc, s, [Did(e)]) == Next(crc, s, e) && SettledRun(crc, s, [Did(e)])
  {
    hide Next;
    NoActs(crc, Next(crc, s, e));
    assert [Did(e)][1..] == [];
  }

  lemma NoActs(crc: Crc, s: Sys)
    ensures RunActs(crc, s, []) == s && SettledRun(crc, s, [])
  {
  }

  lemma OneAct(crc: Crc, s: Sys, e: Event, rest: seq<Act>)
    ensures var t := Next(crc, s, e);
      && (SettledRun(crc, s, [Did(e)] + rest) <==> SettledRun(crc, t, rest))
      && RunActs(crc, s, [Did(e)] + rest) == RunActs(crc, t, rest)
  {
    hide Settled, Next;
    assert ([Did(e)] + rest)[1..] == rest;
  }

  /** Without its entry the active segment is no part of what a crash leaves. */
  lemma UnnamedImage(s: Sys, t: Sys)
    requires OneMore(s, t) && s.segment !in s.disk.names.wals
    requires forall i :: 0 <= i < |s.disk.names.wals| ==> s.disk.names.wals[i] in s.disk.files
    ensures CrashImage(t, Nothing(), 0) == CrashImage(s, Nothing(), 0)
  {
    KeptNone(s.disk.names, s.disk.pending);
    hide Kept;
    var a, b := CrashImage(t, Nothing(), 0).wals, CrashImage(s, Nothing(), 0).wals;
    forall i | 0 <= i < |a| ensures a[i] == b[i] {
      assert s.disk.names.wals[i] != s.segment;
    }
  }

  lemma NamedFiles(crc: Crc, m: Sys, gs: seq<Seg>, s0: nat)
    requires Inv(crc, m, gs, s0) && m.segment !in m.disk.names.wals
    ensures forall i :: 0 <= i < |m.disk.names.wals| ==> m.disk.names.wals[i] in m.disk.files
    ensures (m.phase == NewCreated || m.phase == Opening) && m.disk.pending == [AddWal(m.segment)]
  {
    hide PipeInv, FileInv, DirInv, SnapOk, Chain;
    SegmentsNotEmpty(crc, m, gs, s0);
    NotEmpty(crc, m, gs);
    UnnamedAdds(crc, m, gs, s0);
    AddDir(crc, m, gs, s0);
    hide ActiveOk;
    forall i | 0 <= i < |m.disk.names.wals| ensures m.disk.names.wals[i] in m.disk.files {
      assert m.disk.names.wals[i] == gs[i].id;
      Member(crc, m, gs, gs[i]);
    }
  }

  /** A killed engine whose active segment's entry is not on disk: what the next process has. */
  lemma UnnamedKill(crc: Crc, m: Sys, stale: seq<Change>, gs: seq<Seg>, s0: nat)
    requires Good(crc, m, stale, gs, s0) && Opens(crc, With(m, stale)) && m.segment !in m.disk.names.wals
    ensures With(m, stale) == m && Inv(crc, m, gs, s0) && m.durable == m.next && m.inflight == []
    ensures var t := Kill(crc, m); Rests(t) && t.next == m.next && t.disk == m.disk && t.segment == m.segment
  {
    hide PipeInv, FileInv, DirInv, Sees, Kill, AllStale, Fold, SegBytes, Opens;
    SegmentsNotEmpty(crc, m, gs, s0);
    NamedFiles(crc, m, gs, s0);
    WithNone(m);
    Quiescent(crc, m);
    var r, g := KillSees(crc, m, stale, gs, s0);
    KillIs(crc, m, gs, r, g);
    SeesRange(crc, m, gs, r, g);
    NotEmpty(crc, m, gs);
    ActiveEnd(crc, m, gs);
    SameSeg(gs[|gs| - 1], g);
    IdleBytes(crc, m, gs, r, g);
  }

  lemma SameSeg(a: Seg, b: Seg)
    requires a.id == b.id && a.base == b.base && a.end == b.end
    ensures a == b
  {
  }

  /** With nothing in flight the active file ends with a whole record. */
  lemma IdleBytes(crc: Crc, s: Sys, gs: seq<Seg>, r: Recovered, g: Seg)
    requires Sees(crc, s, gs, r, g) && SegOk(s.hist, g) && ActiveOk(crc, s, g) && InFile(crc, s) == []
    ensures s.segment in s.disk.files && Repaired(s.disk.files[s.segment], r) == s.disk.files[s.segment] && !r.torn
    ensures s.disk.files[s.segment].synced == |s.disk.files[s.segment].bytes|
  {
    hide Recover, LiveImage, Live, SegBytes, Fold, InFile;
    var b := SegBytes(crc, s.hist, g);
    assert b + [] == b;
  }

  /** u has acknowledged the operation after those of s, and a crash goes back to s. */
  ghost predicate LosesNext(crc: Crc, s: Sys, u: Sys) {
    && s.next < U64_MAX && Wait(u, s.next + 1) == Returned && u.durable == s.next + 1
    && BothRecover(crc, CrashImage(u, Nothing(), 0), s.next, s.index)
  }

  lemma LosesSays(crc: Crc, s: Sys, u: Sys)
    requires LosesNext(crc, s, u)
    ensures var image := CrashImage(u, Nothing(), 0);
      Recover(Engine, crc, image).Success? && Recover(Engine, crc, image).value.sequence < u.durable
  {
    hide Recover, CrashImage;
  }

  /**
   * When the entry of the active segment is not on disk, the next put that is acknowledged can be lost: a crash
   * goes back to the map before it.
   */
  lemma UnnamedLoses(crc: Crc, m: Sys, stale: seq<Change>, gs: seq<Seg>, s0: nat, op: Operation)
    requires Good(crc, m, stale, gs, s0) && Opens(crc, With(m, stale)) && m.segment !in m.disk.names.wals
    requires W.Submittable(op) && m.next + 1 < U64_MAX
    ensures var s := With(m, stale);
      var u := RunActs(crc, Kill(crc, s), PutOne(crc, Pending(s.next + 1, op)));
      SettledRun(crc, Kill(crc, s), PutOne(crc, Pending(s.next + 1, op))) && LosesNext(crc, s, u)
  {
    hide Good, Inv, PipeInv, FileInv, With, Kill, RunActs, SettledRun, PutOne, CrashImage, Recover, Rests;
    hide W.Submittable;
    hide RecoversFold, Fold, Reads, Opens;
    UnnamedKill(crc, m, stale, gs, s0);
    UnnamedReads(crc, m, gs, s0);
    GoodDurable(crc, m, stale, gs, s0);
    NamedFiles(crc, m, gs, s0);
    var t := Kill(crc, m);
    PutRun(crc, t, op);
    var u := RunActs(crc, t, PutOne(crc, Pending(m.next + 1, op)));
    OneMoreFrom(m, t, u);
    UnnamedImage(m, u);
    var k := CrashFrom(crc, m, gs, s0, Nothing(), 0);
    RecoversNext(crc, m, gs, s0, Nothing(), 0, k);
  }

  /** Without the new segment the directory is no harder to read. */
  lemma UnnamedReads(crc: Crc, m: Sys, gs: seq<Seg>, s0: nat)
    requires Inv(crc, m, gs, s0) && Opens(crc, m) && m.segment !in m.disk.names.wals
    ensures Reads(crc, m, Nothing(), 0)
  {
    hide Inv, Reads, Clean;
    NamedFiles(crc, m, gs, s0);
    WorstCrash(crc, m, gs, s0);
    ReadsIff(crc, m, gs, s0);
  }

  lemma OneMoreFrom(m: Sys, t: Sys, u: Sys)
    requires OneMore(t, u) && t.next == m.next && t.disk == m.disk && t.segment == m.segment
    ensures OneMore(m, u)
  {
  }

  lemma RecoversNext(crc: Crc, m: Sys, gs: seq<Seg>, s0: nat, keep: nat -> bool, cut: nat, k: nat)
    requires Inv(crc, m, gs, s0) && RecoversFold(crc, m, keep, cut, k) && m.durable == m.next && m.inflight == []
    ensures BothRecover(crc, CrashImage(m, keep, cut), m.next, m.index)
  {
    hide FileInv, DirInv, CrashImage, Recover, BothRecover;
    SegmentsNotEmpty(crc, m, gs, s0);
    hide Fold, Sound;
  }

  /**
   * When whole records of the active file are not synced, the next process counts them as durable, and a crash
   * can lose some of them.
   */
  lemma UnsyncedOverclaims(crc: Crc, m: Sys, stale: seq<Change>, gs: seq<Seg>, s0: nat)
    requires Good(crc, m, stale, gs, s0) && m.segment in m.disk.names.wals
    requires Opens(crc, With(m, stale)) && !Settled(crc, With(m, stale))
    ensures var t := Kill(crc, With(m, stale));
      && t.segment in t.disk.files && t.inflight == []
      && Recover(Engine, crc, CrashImage(t, All(), t.disk.files[t.segment].synced)).Success?
      && Recover(Engine, crc, CrashImage(t, All(), t.disk.files[t.segment].synced)).value.sequence < t.durable
  {
    hide Good, PipeInv, FileInv, Sees, Kill, With, Recover, CrashImage, CrashNames, Live, Survives, RecoversTo;
    hide SegBytes, Survivor, Settled, Fold, Reads, Readback;
    var s := With(m, stale);
    var r, g := KillSees(crc, m, stale, gs, s0);
    GoodParts(crc, m, stale, gs, s0);
    KillIs(crc, s, gs, r, g);
    Unsettled(crc, s, gs, r, g);
    var cut := s.disk.files[s.segment].synced;
    var left, at := AnySurvivors(crc, m, stale, gs, s0, All());
    ReadsBack(crc, s, gs, left, at, All(), Whole(s));
    SurvivesSelected(crc, s, gs, CrashNames(s, All()), left, at);
    ShorterReads(crc, s, gs, left, cut);
    var r2 := SurvivorsRecover(crc, s, gs, left, at, All(), cut);
    ActiveLive(crc, m, stale, gs, s0);
    LiveIsKept(s);
    LastLeft(crc, s, gs, left, at);
    var g2 := RecoveredFound(crc, s, gs, left, at, All(), cut, r2);
    SeesRange(crc, s, gs, r, g);
    Shorter(crc, s, gs, r, g, g2, cut);
    SameDiskImage(s, Kill(crc, s), All(), cut);
  }

  lemma Unsettled(crc: Crc, s: Sys, gs: seq<Seg>, r: Recovered, g: Seg)
    requires Sees(crc, s, gs, r, g) && FileInv(crc, s, gs) && s.segment in s.disk.names.wals && !Settled(crc, s)
    ensures s.segment in s.disk.files && SegOk(s.hist, g) && |SegBytes(crc, s.hist, g)| == Whole(s)
    ensures s.disk.files[s.segment].synced < Whole(s) && Reread(s, r).disk == s.disk
  {
    hide Recover, LiveImage, Live, SegBytes, Fold;
    NotEmpty(crc, s, gs);
  }

  lemma Shorter(crc: Crc, s: Sys, gs: seq<Seg>, r: Recovered, g: Seg, g2: Seg, cut: nat)
    requires SegOk(s.hist, g) && SegOk(s.hist, g2) && g2.id == g.id == s.segment && g2.base == g.base
    requires s.segment in s.disk.files && s.disk.files[s.segment].synced == cut < Whole(s)
    requires |SegBytes(crc, s.hist, g2)| <= |Survivor(s, g2.id, cut)| && |SegBytes(crc, s.hist, g)| == Whole(s)
    ensures g2.end < g.end
  {
    hide SegBytes;
    if g2.end >= g.end { LongerSeg(crc, s.hist, g, g2); }
  }

  lemma LongerSeg(crc: Crc, hist: History, g: Seg, g2: Seg)
    requires SegOk(hist, g) && SegOk(hist, g2) && g2.id == g.id && g2.base == g.base && g.end <= g2.end
    ensures |SegBytes(crc, hist, g)| <= |SegBytes(crc, hist, g2)|
  {
    hide W.HeaderBytes, Records, Span;
    SpanConcat(hist, g.base, g.end, g2.end);
    RecordsConcat(crc, Span(hist, g.base, g.end), Span(hist, g.end, g2.end));
  }

  lemma SameDiskImage(s: Sys, t: Sys, keep: nat -> bool, cut: nat)
    requires t.disk == s.disk && t.segment == s.segment
    ensures CrashImage(t, keep, cut) == CrashImage(s, keep, cut)
  {
    hide Kept;
    var a, b := CrashImage(t, keep, cut).wals, CrashImage(s, keep, cut).wals;
    assert |a| == |b|;
    assert forall i :: 0 <= i < |a| ==> a[i] == b[i];
  }

  /** Which kills are settled: all but those at two points, and those whose file ends in an unsynced whole record. */
  lemma SettledIff(crc: Crc, m: Sys, stale: seq<Change>, gs: seq<Seg>, s0: nat)
    requires Good(crc, m, stale, gs, s0)
    ensures Settled(crc, With(m, stale)) <==>
      m.phase != NewCreated && m.phase != Opening && BytesSettled(crc, With(m, stale))
    ensures m.writer == Idle ==> BytesSettled(crc, With(m, stale))
  {
    hide PipeInv, FileInv, DirInv, AllStale, Recover, LiveImage, Kept;
    SegmentsNotEmpty(crc, m, gs, s0);
    NotEmpty(crc, m, gs);
    if m.writer == Idle { IdleSynced(crc, m, gs[|gs| - 1]); }
    if m.segment !in m.disk.names.wals {
      UnnamedAdds(crc, m, gs, s0);
    } else if m.phase == NewCreated || m.phase == Opening {
      AddDir(crc, m, gs, s0);
      AscendingOf(crc, m, gs);
      LastIdAlone(gs);
    }
  }

  lemma IdleSynced(crc: Crc, s: Sys, g: Seg)
    requires SegOk(s.hist, g) && ActiveOk(crc, s, g) && s.writer == Idle
    ensures s.segment in s.disk.files && s.disk.files[s.segment].synced == |s.disk.files[s.segment].bytes|
  {
    hide SegBytes;
    var b := SegBytes(crc, s.hist, g);
    assert b + [] == b;
  }

  /**
   * After a kill at any point of a run and the reopening, everything the engine counts as durable survives every
   * later run and crash if and only if the opening found the directory settled.
   */
  lemma KillExact(crc: Crc, acts: seq<Act>)
    requires SettledRun(crc, Initial(crc), acts) && ReachActs(crc, acts).next + 1 < U64_MAX
    requires Opens(crc, ReachActs(crc, acts))
    ensures Secure(crc, Kill(crc, ReachActs(crc, acts))) <==> Settled(crc, ReachActs(crc, acts))
  {
    hide Good, With, Settled, Secure, SettledRun, ReachActs, Kill, Opens;
    var m, stale, gs, s0 := ReachGood(crc, acts);
    var s := With(m, stale);
    GoodParts(crc, m, stale, gs, s0);
    SameSegment(m, stale);
    if Settled(crc, s) {
      var m', gs' := KillGood(crc, m, stale, gs, s0);
      GoodSecure(crc, m', s.disk.pending, gs', s0);
    } else if m.segment in m.disk.names.wals {
      Overclaimed(crc, m, stale, gs, s0);
    } else {
      Unnamed(crc, m, stale, gs, s0);
    }
  }

  lemma Overclaimed(crc: Crc, m: Sys, stale: seq<Change>, gs: seq<Seg>, s0: nat)
    requires Good(crc, m, stale, gs, s0) && m.segment in m.disk.names.wals
    requires Opens(crc, With(m, stale)) && !Settled(crc, With(m, stale))
    ensures !Secure(crc, Kill(crc, With(m, stale)))
  {
    hide Good, With, Settled, Kill, RecoversFold, Recover, CrashImage, Secure, RunActs, SettledRun, Opens;
    var t := Kill(crc, With(m, stale));
    UnsyncedOverclaims(crc, m, stale, gs, s0);
    var cut := t.disk.files[t.segment].synced;
    NoActs(crc, t);
    Insecure(crc, t, [], All(), cut);
  }

  lemma Insecure(crc: Crc, t: Sys, more: seq<Act>, keep: nat -> bool, cut: nat)
    requires SettledRun(crc, t, more)
    requires var image := CrashImage(RunActs(crc, t, more), keep, cut);
      Recover(Engine, crc, image).Success? && Recover(Engine, crc, image).value.sequence < RunActs(crc, t, more).durable
    ensures !Secure(crc, t)
  {
    hide RecoversFold, Recover, CrashImage, RunActs, SettledRun;
    if Secure(crc, t) {
      var u := RunActs(crc, t, more);
      assert Lossless(crc, u);
      assert Reads(crc, u, keep, cut);
      assert SomeFold(crc, u, keep, cut);
      var k: nat :| RecoversFold(crc, u, keep, cut, k);
      FoldSays(crc, u, keep, cut, k);
      assert false;
    }
  }

  lemma FoldSays(crc: Crc, s: Sys, keep: nat -> bool, cut: nat, k: nat)
    requires RecoversFold(crc, s, keep, cut, k)
    ensures Recover(Engine, crc, CrashImage(s, keep, cut)).Success?
    ensures s.durable <= k && Recover(Engine, crc, CrashImage(s, keep, cut)).value.sequence == k
  {
    hide Recover, CrashImage, Fold;
  }

  lemma OneByte()
    ensures W.Submittable(Operation(OpType.Put, [0], []))
  {
  }

  lemma Unnamed(crc: Crc, m: Sys, stale: seq<Change>, gs: seq<Seg>, s0: nat)
    requires Good(crc, m, stale, gs, s0) && m.segment !in m.disk.names.wals && m.next + 1 < U64_MAX
    requires Opens(crc, With(m, stale))
    ensures !Secure(crc, Kill(crc, With(m, stale)))
  {
    hide Good, With, Kill, Recover, CrashImage, RunActs, SettledRun, PutOne, Secure, W.Submittable, LosesNext, Opens;
    var op := Operation(OpType.Put, [0], []);
    OneByte();
    SameSegment(m, stale);
    var s := With(m, stale);
    var put := PutOne(crc, Pending(s.next + 1, op));
    UnnamedLoses(crc, m, stale, gs, s0, op);
    LosesSays(crc, s, RunActs(crc, Kill(crc, s), put));
    Insecure(crc, Kill(crc, s), put, Nothing(), 0);
  }

  /**
   * The smallest loss: the process is killed after it created its first segment and before it synced the
   * directory; the next process finds the segment, acknowledges a put, and a crash leaves an empty directory.
   */
  lemma FirstPutLost(crc: Crc, op: Operation)
    requires W.Submittable(op)
    ensures var u := RunActs(crc, Initial(crc), [Killed] + PutOne(crc, Pending(1, op)));
      Wait(u, 1) == Returned && BothRecover(crc, CrashImage(u, Nothing(), 0), 0, map[])
  {
    hide Good, Inv, Kill, Recover, CrashImage, RunActs, PutOne, W.Submittable, W.HeaderBytes, Opens;
    InitialInv(crc);
    var m := Initial(crc);
    FreshGood(crc, m, [Seg(1, 0, 0)], 0);
    InitialOpens(crc);
    UnnamedLoses(crc, m, [], [Seg(1, 0, 0)], 0, op);
    KilledFirst(crc, m, PutOne(crc, Pending(1, op)));
  }

  lemma InitialOpens(crc: Crc)
    ensures Opens(crc, Initial(crc))
  {
    hide Initial, Reads;
    ShortReads(crc, []);
    assert Reach(crc, []) == Initial(crc);
  }

  lemma KilledFirst(crc: Crc, s: Sys, rest: seq<Act>)
    ensures RunActs(crc, s, [Killed] + rest) == RunActs(crc, Kill(crc, s), rest)
  {
    hide Kill;
    assert ([Killed] + rest)[1..] == rest;
  }
}
