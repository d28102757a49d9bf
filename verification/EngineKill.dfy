/**
 * A killed engine process whose directory is opened again while the operating system still holds unsynced
 * bytes and names. The opening reads them, but does not sync them: a later crash may still drop them.
 */
module EngineKill {
  import opened Bytes
  import opened Options
  import opened Store
  import W = SegmentWal
  import Snap = Snapshot
  import opened DirectoryRecovery
  import opened EngineHistory
  import opened DiskModel
  import opened SegmentNames
  import opened EngineModel
  import opened EngineSteps
  import opened EngineCrash
  import opened EngineRuns
  import opened EngineLegible

  // ------------------------------------------------------------------ the step

  /** The directory as the next process reads it. */
  function LiveImage(s: Sys): Image {
    CrashImage(s, All(), Whole(s))
  }

  /** The next process can read it. */
  ghost predicate Opens(crc: Crc, s: Sys) {
    Reads(crc, s, All(), Whole(s))
  }

  /** The last file after the opening: a torn tail is cut off and the file synced, else it is left alone. */
  function Repaired(f: File, r: Recovered): File {
    if r.torn && r.lastGood <= |f.bytes| then File(f.bytes[..r.lastGood], r.lastGood) else f
  }

  /** The process is killed and the directory opened again: pending changes stay pending. */
  function Kill(crc: Crc, s: Sys): Sys {
    match Recover(Engine, crc, LiveImage(s))
    case Failure(_) => s
    case Success(r) =>
      var hist := if r.sequence <= |s.hist| then s.hist[..r.sequence] else s.hist;
      var t := Sys(hist, r.sequence, r.sequence, r.values, [], [], Idle, false, false, false, Running, File([], 0),
                   r.high, s.disk);
      if Live(s.disk).wals == [] then
        var u := Created(crc, t, 1, Succ(r.sequence));
        u.(phase := Opening, disk := u.disk.(pending := s.disk.pending + [AddWal(1)]))
      else if r.high in s.disk.files then WithFile(t, r.high, Repaired(s.disk.files[r.high], r))
      else t
  }

  /**
   * What an opening finds settled: the entry of the active segment is on disk, and so is the whole active file,
   * or its torn tail makes the opening sync it.
   */
  ghost predicate Settled(crc: Crc, s: Sys) {
    s.segment in s.disk.names.wals && BytesSettled(crc, s)
  }

  ghost predicate BytesSettled(crc: Crc, s: Sys) {
    && s.segment in s.disk.files
    && (s.disk.files[s.segment].synced == |s.disk.files[s.segment].bytes|
      || (Recover(Engine, crc, LiveImage(s)).Success? && Recover(Engine, crc, LiveImage(s)).value.torn))
  }

  // ------------------------------------------------------------------ stale changes

  /** What a process that is gone left unsynced: a snapshot as new as the synced one, or a covered segment's removal. */
  ghost predicate StaleOk(crc: Crc, hist: History, durable: nat, gs: seq<Seg>, s0: nat, c: Change) {
    match c
    case SetSnapshot(b) => exists at: nat :: s0 <= at <= durable && SnapOk(crc, hist, Some(b), at)
    case RemoveWal(id) =>
      gs != [] && id != gs[|gs| - 1].id && forall j :: 0 <= j < |gs| && gs[j].id == id ==> gs[j].end <= s0
    case AddWal(_) => false
  }

  ghost predicate AllStale(crc: Crc, hist: History, durable: nat, gs: seq<Seg>, s0: nat, cs: seq<Change>) {
    forall i :: 0 <= i < |cs| ==> StaleOk(crc, hist, durable, gs, s0, cs[i])
  }

  function With(m: Sys, stale: seq<Change>): Sys {
    m.(disk := m.disk.(pending := stale + m.disk.pending))
  }

  /** Phases before the checkpoint first syncs the directory. */
  predicate Early(p: Phase) {
    p == Running || p.TmpWriting? || p == TmpFlushed || p == Renamed
  }

  /** The engine m that keeps the invariant, with stale changes of earlier processes before its own. */
  ghost predicate Good(crc: Crc, m: Sys, stale: seq<Change>, gs: seq<Seg>, s0: nat) {
    && Inv(crc, m, gs, s0) && AllStale(crc, m.hist, m.durable, gs, s0, stale) && (stale != [] ==> Early(m.phase))
  }

  lemma WithNone(m: Sys)
    ensures With(m, []) == m
  {
    assert [] + m.disk.pending == m.disk.pending;
  }

  /** What the writer and the segment files say does not depend on pending changes. */
  lemma WithParts(crc: Crc, m: Sys, stale: seq<Change>, gs: seq<Seg>, s0: nat)
    requires Inv(crc, m, gs, s0)
    ensures PipeInv(With(m, stale)) && FileInv(crc, With(m, stale), gs)
  {
    hide PipeInv, FileInv, DirInv, SameDurable;
    SegmentsNotEmpty(crc, m, gs, s0);
    WithPipe(m, stale);
    WithFiles(crc, m, stale, gs);
  }

  lemma WithPipe(m: Sys, stale: seq<Change>)
    requires PipeInv(m)
    ensures PipeInv(With(m, stale))
  {
    hide Fold, Sound;
  }

  lemma WithFiles(crc: Crc, m: Sys, stale: seq<Change>, gs: seq<Seg>)
    requires PipeInv(m) && FileInv(crc, m, gs)
    ensures FileInv(crc, With(m, stale), gs)
  {
    hide PipeInv, SegBytes, Buffer;
    Durable(m);
    NotEmpty(crc, m, gs);
    SameInFile(crc, m, With(m, stale));
    hide FileInv, InFile;
    WithHeld(crc, m, gs);
    FileFrame(crc, m, With(m, stale), gs);
  }

  lemma WithHeld(crc: Crc, m: Sys, gs: seq<Seg>)
    requires FileInv(crc, m, gs)
    ensures m.writer.Holding? || m.writer.Dead? ==> m.writer.written <= |Buffer(crc, m.inflight)|
  {
    hide SegBytes, Buffer, InFile;
    NotEmpty(crc, m, gs);
  }

  // ------------------------------------------------------------------ what survives of stale changes

  /** The segments without that of one id. */
  ghost function Drop(gs: seq<Seg>, id: u64): seq<Seg> {
    if gs == [] then []
    else if gs[0].id == id then Drop(gs[1..], id)
    else [gs[0]] + Drop(gs[1..], id)
  }

  lemma DropFirst(gs: seq<Seg>, id: u64)
    requires gs != []
    ensures Drop(gs, id) == if gs[0].id == id then Drop(gs[1..], id) else [gs[0]] + Drop(gs[1..], id)
  {
  }

  lemma DropNone(id: u64)
    ensures Drop([], id) == [] && Ids([]) == [] && Without([], id) == []
  {
  }

  lemma {:induction false} DropIds(gs: seq<Seg>, id: u64)
    requires Ascending(gs)
    ensures Ids(Drop(gs, id)) == Without(Ids(gs), id) && Ascending(Drop(gs, id)) && Among(Drop(gs, id), gs)
    ensures gs != [] && gs[|gs| - 1].id != id ==> Drop(gs, id) != [] && Drop(gs, id)[|Drop(gs, id)| - 1] == gs[|gs| - 1]
    decreases |gs|
  {
    hide Ids, Ascending, Without, Drop;
    if gs == [] {
      DropNone(id);
    } else {
      hide Among;
      FirstId(gs);
      DropFirst(gs, id);
      DropIds(gs[1..], id);
      var r := WithoutCons(gs, gs[1..], Drop(gs[1..], id), id);
    }
  }

  /** Dropping a covered segment leaves a chain. */
  lemma {:induction false} DropChain(k: nat, gs: seq<Seg>, id: u64)
    requires Chain(k, gs) && forall j :: 0 <= j < |gs| && gs[j].id == id ==> gs[j].end <= k
    ensures Chain(k, Drop(gs, id))
    decreases |gs|
  {
    if gs != [] {
      var k' := Max(k, gs[0].end);
      DropChain(k', gs[1..], id);
      if gs[0].id != id {
        assert ([gs[0]] + Drop(gs[1..], id))[1..] == Drop(gs[1..], id);
      }
    }
  }

  /** Segments that the snapshot covers from s0 on, of which some were removed. */
  ghost predicate Left(crc: Crc, s: Sys, gs: seq<Seg>, s0: nat, names: Names, left: seq<Seg>, at: nat) {
    && gs != [] && left != [] && names.wals == Ids(left) && Ascending(left) && Among(left, gs)
    && left[|left| - 1] == gs[|gs| - 1] && Chain(s0, left)
    && s0 <= at <= s.durable && SnapOk(crc, s.hist, names.snapshot, at)
  }

  lemma {:induction false} KeptStale(crc: Crc, s: Sys, gs: seq<Seg>, s0: nat, n: Names, cs: seq<Change>,
                                     keep: nat -> bool)
    returns (left: seq<Seg>, at: nat)
    requires Left(crc, s, gs, s0, n, gs, s0) && AllStale(crc, s.hist, s.durable, gs, s0, cs)
    ensures Left(crc, s, gs, s0, Kept(n, cs, keep), left, at)
    decreases |cs|
  {
    hide Left, StaleOk, Changed;
    if cs == [] {
      left, at := gs, s0;
    } else {
      var m := |cs| - 1;
      left, at := KeptStale(crc, s, gs, s0, n, cs[..m], keep);
      if keep(m) {
        left, at := OneStale(crc, s, gs, s0, Kept(n, cs[..m], keep), left, at, cs[m]);
      }
    }
  }

  lemma OneStale(crc: Crc, s: Sys, gs: seq<Seg>, s0: nat, n: Names, left: seq<Seg>, at: nat, c: Change)
    returns (left': seq<Seg>, at': nat)
    requires Left(crc, s, gs, s0, n, left, at) && StaleOk(crc, s.hist, s.durable, gs, s0, c)
    ensures Left(crc, s, gs, s0, Changed(n, c), left', at')
  {
    hide SnapOk, Ids, Chain, Ascending, Without;
    left', at' := left, at;
    match c
    case SetSnapshot(b) =>
      at' :| s0 <= at' <= s.durable && SnapOk(crc, s.hist, Some(b), at');
    case RemoveWal(id) =>
      left' := Drop(left, id);
      DropIds(left, id);
      forall j | 0 <= j < |left| && left[j].id == id ensures left[j].end <= s0 {
        assert left[j] in gs;
      }
      DropChain(s0, left, id);
      forall i | 0 <= i < |left'| ensures left'[i] in gs {
        assert left'[i] in left;
      }
  }

  /** What is left of the directory is a snapshot and a chain that reach the durable point. */
  lemma LeftSurvives(crc: Crc, s: Sys, gs: seq<Seg>, s0: nat, names: Names, left: seq<Seg>, at: nat)
    requires FileInv(crc, s, gs) && Left(crc, s, gs, s0, names, left, at)
    ensures Survives(crc, s, gs, names, left, at)
  {
    ActiveEnd(crc, s, gs);
    hide FileInv, SnapOk, Ids, Chain, Ascending, Among;
    ChainLater(s0, at, left);
  }

  /** In the early phases every pending change is stale or is the new snapshot, which is as good. */
  lemma EarlyStale(crc: Crc, m: Sys, stale: seq<Change>, gs: seq<Seg>, s0: nat)
    requires Good(crc, m, stale, gs, s0) && Early(m.phase)
    ensures gs != [] && Left(crc, m, gs, s0, m.disk.names, gs, s0)
    ensures AllStale(crc, m.hist, m.durable, gs, s0, stale + m.disk.pending)
  {
    hide PipeInv, FileInv, DirInv, StaleOk, Left;
    SegmentsNotEmpty(crc, m, gs, s0);
    EarlyLeft(crc, m, gs, s0);
    EarlyDir(crc, m, gs, s0);
    if m.phase == Renamed {
      Quiescent(crc, m);
      SnapshotStale(crc, m, gs, s0);
    }
  }

  lemma EarlyLeft(crc: Crc, m: Sys, gs: seq<Seg>, s0: nat)
    requires gs != [] && FileInv(crc, m, gs) && DirInv(crc, m, gs, s0) && Early(m.phase)
    ensures Left(crc, m, gs, s0, m.disk.names, gs, s0)
  {
    hide FileInv, DirInv, SnapOk, Chain, Ids, Ascending;
    AscendingOf(crc, m, gs);
    EarlyDir(crc, m, gs, s0);
  }

  lemma EarlyDir(crc: Crc, m: Sys, gs: seq<Seg>, s0: nat)
    requires gs != [] && DirInv(crc, m, gs, s0) && Early(m.phase)
    ensures m.disk.pending == if m.phase == Renamed then [SetSnapshot(SnapshotNow(crc, m))] else []
    ensures m.phase == Renamed ==> |m.index| <= Snap.MAX_COUNT
    ensures m.disk.names.wals == Ids(gs) && Chain(s0, gs) && s0 <= m.durable
    ensures SnapOk(crc, m.hist, m.disk.names.snapshot, s0)
  {
    hide SnapOk, Chain, Ids, SnapshotNow;
  }

  lemma SnapshotStale(crc: Crc, m: Sys, gs: seq<Seg>, s0: nat)
    requires m.durable == m.next == |m.hist| < U64_MAX && s0 <= m.durable
    requires m.index == Fold(m.hist, m.durable) && |m.index| <= Snap.MAX_COUNT
    ensures StaleOk(crc, m.hist, m.durable, gs, s0, SetSnapshot(SnapshotNow(crc, m)))
  {
    hide SnapshotNow, Fold, SnapOk;
    SnapshotNowOk(crc, m);
  }

  // ------------------------------------------------------------------ steps over stale changes

  /** The steps of a checkpoint before it first syncs the directory. */
  predicate IsEarly(e: Event) {
    e == CheckpointBegun || e.WroteTmp? || e == FlushedTmp || e == RenamedTmp
  }

  /** Until the directory is synced, no step looks at the pending changes. */
  lemma WithNext(crc: Crc, m: Sys, stale: seq<Change>, e: Event)
    requires IsPipeline(e) || IsEarly(e)
    ensures Next(crc, With(m, stale), e) == With(Next(crc, m, e), stale)
  {
    if e == RenamedTmp {
      RenameWith(m, stale);
    } else if IsPipeline(e) {
      WithPipeline(crc, m, stale, e);
    } else {
      SameSnapshotNow(crc, m, With(m, stale));
      hide SnapshotNow;
    }
  }

  lemma WithPipeline(crc: Crc, m: Sys, stale: seq<Change>, e: Event)
    requires IsPipeline(e)
    ensures Next(crc, With(m, stale), e) == With(Next(crc, m, e), stale)
  {
    hide Buffer, W.Submittable, SnapshotNow, Live, Kept, W.HeaderBytes;
  }

  lemma RenameWith(m: Sys, stale: seq<Change>)
    ensures Rename(With(m, stale)) == With(Rename(m), stale)
  {
    if m.phase == TmpFlushed && m.tmp.synced <= |m.tmp.bytes| {
      var c := SetSnapshot(m.tmp.bytes[..m.tmp.synced]);
      assert stale + m.disk.pending + [c] == stale + (m.disk.pending + [c]);
    }
  }

  lemma EarlyInv(crc: Crc, m: Sys, e: Event, gs: seq<Seg>, s0: nat) returns (gs': seq<Seg>)
    requires Inv(crc, m, gs, s0) && (IsPipeline(e) || IsEarly(e))
    ensures Inv(crc, Next(crc, m, e), gs', s0) && gs != [] && (gs' == gs || gs' == Grown(m, gs))
  {
    hide Inv, PipeInv, FileInv, CheckpointBegin, TmpWrite, TmpFlush, Rename, Grown;
    SegmentsNotEmpty(crc, m, gs, s0);
    if IsPipeline(e) {
      hide Next;
      var s0';
      gs', s0' := PipelineInv(crc, m, e, gs, s0);
    } else {
      gs' := gs;
      match e
      case CheckpointBegun => CheckpointBeginKeeps(crc, m, gs, s0);
      case WroteTmp(n) => TmpKeeps(crc, m, TmpWrite(crc, m, n), n, gs, s0);
      case FlushedTmp => TmpKeeps(crc, m, TmpFlush(crc, m), 0, gs, s0);
      case RenamedTmp => RenameKeeps(crc, m, gs, s0);
    }
  }

  lemma EarlyPhase(crc: Crc, m: Sys, e: Event)
    requires IsPipeline(e) || IsEarly(e)
    ensures Early(m.phase) ==> Early(Next(crc, m, e).phase)
  {
    hide Buffer, W.Submittable, SnapshotNow;
  }

  /** A stale change stays one while the durable part stays the same and only the active segment grows. */
  lemma StaleAcross(crc: Crc, s: Sys, t: Sys, gs: seq<Seg>, gs': seq<Seg>, s0: nat, cs: seq<Change>)
    requires AllStale(crc, s.hist, s.durable, gs, s0, cs) && KeepsDurable(s, t) && |t.hist| < U64_MAX
    requires gs != [] && |gs'| == |gs| && gs' == gs[|gs| - 1 := gs'[|gs| - 1]] && gs'[|gs| - 1].id == gs[|gs| - 1].id
    ensures AllStale(crc, t.hist, t.durable, gs', s0, cs)
  {
    hide StaleOk, KeepsDurable;
    forall i | 0 <= i < |cs| ensures StaleOk(crc, t.hist, t.durable, gs', s0, cs[i]) {
      OneAcross(crc, s, t, gs, gs', s0, cs[i]);
    }
  }

  lemma OneAcross(crc: Crc, s: Sys, t: Sys, gs: seq<Seg>, gs': seq<Seg>, s0: nat, c: Change)
    requires StaleOk(crc, s.hist, s.durable, gs, s0, c) && KeepsDurable(s, t) && |t.hist| < U64_MAX
    requires gs != [] && |gs'| == |gs| && gs' == gs[|gs| - 1 := gs'[|gs| - 1]] && gs'[|gs| - 1].id == gs[|gs| - 1].id
    ensures StaleOk(crc, t.hist, t.durable, gs', s0, c)
  {
    hide SnapOk;
    if c.SetSnapshot? {
      var at: nat :| s0 <= at <= s.durable && SnapOk(crc, s.hist, Some(c.bytes), at);
      assert s.hist[..at] == s.hist[..s.durable][..at] == t.hist[..at];
      SnapOkPrefix(crc, s.hist, t.hist, Some(c.bytes), at);
    }
  }

  lemma EarlyGood(crc: Crc, m: Sys, stale: seq<Change>, e: Event, gs: seq<Seg>, s0: nat) returns (gs': seq<Seg>)
    requires Good(crc, m, stale, gs, s0) && Early(m.phase) && (IsPipeline(e) || IsEarly(e))
    ensures Good(crc, Next(crc, m, e), stale, gs', s0) && KeepsDurable(m, Next(crc, m, e))
  {
    hide Inv, Next, PipeInv, FileInv, AllStale, KeepsDurable, OnlyAdds;
    gs' := EarlyInv(crc, m, e, gs, s0);
    EarlyPhase(crc, m, e);
    var t := Next(crc, m, e);
    SegmentsNotEmpty(crc, m, gs, s0);
    SegmentsNotEmpty(crc, t, gs', s0);
    Durable(m);
    Durable(t);
    LiveStep(crc, m, e);
    AddsDurable(m, t);
    StaleAcross(crc, m, t, gs, gs', s0, stale);
  }

  /** The segments left after some are removed keep the file invariant. */
  lemma LeftFiles(crc: Crc, s: Sys, gs: seq<Seg>, left: seq<Seg>)
    requires FileInv(crc, s, gs) && Ascending(left) && Among(left, gs) && left != []
    requires left[|left| - 1] == gs[|gs| - 1]
    ensures FileInv(crc, s, left)
  {
    hide SegBytes, ActiveOk, Complete;
    NotEmpty(crc, s, gs);
    forall i | 0 <= i < |left|
      ensures SegOk(s.hist, left[i]) && left[i].end <= s.durable && left[i].id >= 1
      ensures i < |left| - 1 ==> Complete(crc, s, left[i])
    {
      assert left[i] in gs;
      Member(crc, s, gs, left[i]);
      assert i < |left| - 1 ==> left[i].id < left[|left| - 1].id;
    }
  }

  /** The first sync of the directory in a checkpoint settles everything stale. */
  lemma SyncOver(crc: Crc, m: Sys, stale: seq<Change>, gs: seq<Seg>, s0: nat) returns (left: seq<Seg>)
    requires Good(crc, m, stale, gs, s0) && m.phase == Renamed
    ensures Inv(crc, SyncDir(With(m, stale)), left, m.durable)
  {
    hide PipeInv, FileInv, DirInv, Left, AllStale;
    var s := With(m, stale);
    EarlyStale(crc, m, stale, gs, s0);
    WithParts(crc, m, stale, gs, s0);
    SegmentsNotEmpty(crc, m, gs, s0);
    var at;
    left, at := KeptStale(crc, m, gs, s0, m.disk.names, s.disk.pending, _ => true);
    Quiescent(crc, m);
    Quiescent(crc, s);
    EarlyDir(crc, m, gs, s0);
    SyncedNames(crc, m, stale);
    LeftParts(crc, m, gs, s0, Live(s.disk), left, at);
    LeftFiles(crc, s, gs, left);
    var t := SyncDir(s);
    SyncRenamedShape(s);
    DirStep(crc, s, t, left);
    SnapshotNowOk(crc, m);
    DurableDir(crc, t, left, SnapshotNow(crc, m));
  }

  lemma SyncRenamedShape(s: Sys)
    requires s.phase == Renamed
    ensures SyncDir(s) == s.(phase := SnapshotDurable, disk := s.disk.(names := Live(s.disk), pending := []))
  {
  }

  lemma SyncedNames(crc: Crc, m: Sys, stale: seq<Change>)
    requires m.disk.pending == [SetSnapshot(SnapshotNow(crc, m))]
    ensures Live(With(m, stale).disk).snapshot == Some(SnapshotNow(crc, m))
  {
    hide SnapshotNow;
    KeptMore(m.disk.names, stale, SetSnapshot(SnapshotNow(crc, m)));
  }

  lemma LeftParts(crc: Crc, s: Sys, gs: seq<Seg>, s0: nat, names: Names, left: seq<Seg>, at: nat)
    requires Left(crc, s, gs, s0, names, left, at)
    ensures gs != [] && left != [] && names.wals == Ids(left) && Ascending(left) && Among(left, gs)
    ensures left[|left| - 1] == gs[|gs| - 1]
  {
    hide SnapOk, Ids, Chain, Ascending, Among;
  }

  lemma DurableDir(crc: Crc, t: Sys, gs: seq<Seg>, now: Bytes)
    requires gs != [] && t.phase == SnapshotDurable && t.disk.pending == [] && t.disk.names.wals == Ids(gs)
    requires t.disk.names.snapshot == Some(now) && SnapOk(crc, t.hist, Some(now), t.durable)
    ensures DirInv(crc, t, gs, t.durable)
  {
    hide SnapOk, Ids;
  }

  // ------------------------------------------------------------------ crashes over stale changes

  /** Whichever changes survive, stale ones or new, what is left reaches the durable point. */
  lemma AnySurvivors(crc: Crc, m: Sys, stale: seq<Change>, gs: seq<Seg>, s0: nat, keep: nat -> bool)
    returns (left: seq<Seg>, at: nat)
    requires Good(crc, m, stale, gs, s0)
    ensures var s := With(m, stale);
      PipeInv(s) && FileInv(crc, s, gs) && Survives(crc, s, gs, CrashNames(s, keep), left, at)
  {
    hide Inv, PipeInv, FileInv, Survives, Left, AllStale, Kept;
    var s := With(m, stale);
    WithParts(crc, m, stale, gs, s0);
    if stale == [] {
      WithNone(m);
      left, at := Survivors(crc, m, gs, s0, keep);
    } else {
      EarlyStale(crc, m, stale, gs, s0);
      left, at := KeptStale(crc, m, gs, s0, m.disk.names, s.disk.pending, keep);
      LeftWith(crc, m, stale, gs, s0, CrashNames(s, keep), left, at);
      LeftSurvives(crc, s, gs, s0, CrashNames(s, keep), left, at);
    }
  }

  lemma LeftWith(crc: Crc, m: Sys, stale: seq<Change>, gs: seq<Seg>, s0: nat, names: Names, left: seq<Seg>, at: nat)
    requires Left(crc, m, gs, s0, names, left, at)
    ensures Left(crc, With(m, stale), gs, s0, names, left, at)
  {
    hide SnapOk, Chain, Ids, Ascending, Among;
  }

  /** A crash over stale changes recovers everything durable, and leaves nothing stale. */
  lemma GoodCrash(crc: Crc, m: Sys, stale: seq<Change>, gs: seq<Seg>, s0: nat, keep: nat -> bool, cut: nat)
    returns (gs': seq<Seg>, s0': nat)
    requires Good(crc, m, stale, gs, s0) && Reads(crc, With(m, stale), keep, cut)
    ensures var t := Crash(crc, With(m, stale), keep, cut); Inv(crc, t, gs', s0') && KeepsDurable(With(m, stale), t)
  {
    hide Good, Inv, PipeInv, FileInv, Survives, Crash, CrashNames, With, Reads, Readback;
    var s := With(m, stale);
    var left, at := AnySurvivors(crc, m, stale, gs, s0, keep);
    ReadsBack(crc, s, gs, left, at, keep, cut);
    var k;
    gs', s0', k := SurvivorsReopen(crc, s, gs, left, at, keep, cut);
    assert s.hist[..k][..s.durable] == s.hist[..s.durable];
  }

  lemma GoodRecovers(crc: Crc, m: Sys, stale: seq<Change>, gs: seq<Seg>, s0: nat, keep: nat -> bool, cut: nat)
    returns (k: nat)
    requires Good(crc, m, stale, gs, s0) && Reads(crc, With(m, stale), keep, cut)
    ensures RecoversFold(crc, With(m, stale), keep, cut, k)
  {
    hide Reads, Readback, Good, PipeInv, FileInv, Fold, Recover, CrashImage, CrashNames, Survives, FilesKnown;
    hide FoundWell, With;
    var s := With(m, stale);
    var left, at := AnySurvivors(crc, m, stale, gs, s0, keep);
    ReadsBack(crc, s, gs, left, at, keep, cut);
    var r := SurvivorsRecover(crc, s, gs, left, at, keep, cut);
    k := r.sequence;
    NextIs(s);
  }

  // ------------------------------------------------------------------ a kill

  lemma LiveIsKept(s: Sys)
    ensures Live(s.disk) == CrashNames(s, All())
  {
    hide Kept;
    KeptSame(s.disk.names, s.disk.pending, All(), _ => true);
  }

  lemma {:induction false} OthersStay(ids: seq<u64>, id: u64, other: u64)
    requires other in ids && other != id
    ensures other in Without(ids, id)
    decreases |ids|
  {
    if ids[0] != other { OthersStay(ids[1..], id, other); }
  }

  /** A name that no change removes stays. */
  lemma {:induction false} NameStays(n: Names, cs: seq<Change>, keep: nat -> bool, id: u64)
    requires id in n.wals && forall i :: 0 <= i < |cs| ==> cs[i] != RemoveWal(id)
    ensures id in Kept(n, cs, keep).wals
    decreases |cs|
  {
    if cs != [] {
      var k := |cs| - 1;
      NameStays(n, cs[..k], keep, id);
      if cs[k].RemoveWal? { OthersStay(Kept(n, cs[..k], keep).wals, cs[k].id, id); }
    }
  }

  /** A process killed where the active segment's entry is on disk: what its directory is made of. */
  ghost predicate Base(crc: Crc, s: Sys, gs: seq<Seg>, s0: nat) {
    && gs != [] && s.disk.names.wals == Ids(gs) && Chain(s0, gs) && s0 <= s.durable
    && SnapOk(crc, s.hist, s.disk.names.snapshot, s0) && AllStale(crc, s.hist, s.durable, gs, s0, s.disk.pending)
  }

  lemma BaseOf(crc: Crc, m: Sys, stale: seq<Change>, gs: seq<Seg>, s0: nat)
    requires Good(crc, m, stale, gs, s0) && m.segment in m.disk.names.wals
    ensures Base(crc, With(m, stale), gs, s0)
  {
    hide PipeInv, FileInv, DirInv, Left, AllStale;
    SegmentsNotEmpty(crc, m, gs, s0);
    if Early(m.phase) {
      EarlyStale(crc, m, stale, gs, s0);
      EarlyDir(crc, m, gs, s0);
    } else {
      WithNone(m);
      LateDir(crc, m, gs, s0);
    }
  }

  lemma LateDir(crc: Crc, m: Sys, gs: seq<Seg>, s0: nat)
    requires FileInv(crc, m, gs) && gs != [] && DirInv(crc, m, gs, s0) && !Early(m.phase)
    requires m.segment in m.disk.names.wals
    ensures Base(crc, m, gs, s0)
  {
    hide FileInv, SnapOk, Chain, SnapshotNow;
    NotEmpty(crc, m, gs);
    AscendingOf(crc, m, gs);
    BelowDurable(crc, m, gs);
    LastIdAlone(gs);
    forall i | 0 <= i < |m.disk.pending| ensures StaleOk(crc, m.hist, m.durable, gs, s0, m.disk.pending[i]) {
      EndsAtMost(crc, m, gs);
    }
  }

  lemma LastIdAlone(gs: seq<Seg>)
    requires gs != [] && Ascending(gs)
    ensures gs[|gs| - 1].id !in Ids(gs[..|gs| - 1])
  {
  }

  lemma EndsAtMost(crc: Crc, m: Sys, gs: seq<Seg>)
    requires FileInv(crc, m, gs)
    ensures forall j :: 0 <= j < |gs| ==> gs[j].end <= m.durable
  {
  }

  /** The next process sees the active segment, whether or not its entry is on disk. */
  lemma ActiveLive(crc: Crc, m: Sys, stale: seq<Change>, gs: seq<Seg>, s0: nat)
    requires Good(crc, m, stale, gs, s0)
    ensures m.segment in Live(With(m, stale).disk).wals
  {
    hide PipeInv, FileInv, DirInv, AllStale, Base, Kept;
    SegmentsNotEmpty(crc, m, gs, s0);
    NotEmpty(crc, m, gs);
    if m.segment in m.disk.names.wals {
      BaseOf(crc, m, stale, gs, s0);
      BaseLive(crc, With(m, stale), gs, s0);
    } else {
      WithNone(m);
      UnnamedAdds(crc, m, gs, s0);
      KeepOne(m.disk.names, AddWal(m.segment));
      if Early(m.phase) { EarlyDir(crc, m, gs, s0); }
    }
  }

  lemma BaseLive(crc: Crc, s: Sys, gs: seq<Seg>, s0: nat)
    requires Base(crc, s, gs, s0) && s.segment == gs[|gs| - 1].id
    ensures s.segment in Live(s.disk).wals
  {
    hide SnapOk, Chain, Kept;
    assert Ids(gs)[|gs| - 1] == s.segment;
    forall i | 0 <= i < |s.disk.pending| ensures s.disk.pending[i] != RemoveWal(s.segment) {
      assert StaleOk(crc, s.hist, s.durable, gs, s0, s.disk.pending[i]);
    }
    NameStays(s.disk.names, s.disk.pending, _ => true, s.segment);
  }

  lemma UnnamedAdds(crc: Crc, m: Sys, gs: seq<Seg>, s0: nat)
    requires gs != [] && DirInv(crc, m, gs, s0) && m.segment == gs[|gs| - 1].id && m.segment !in m.disk.names.wals
    ensures (m.phase == NewCreated || m.phase == Opening) && m.disk.pending == [AddWal(m.segment)]
  {
    hide SnapOk, Chain, SnapshotNow;
    assert Ids(gs)[|gs| - 1] == m.segment;
  }

  /** What the next process reads: r, for both readers; g is the active segment up to its last whole record. */
  ghost predicate Sees(crc: Crc, s: Sys, gs: seq<Seg>, r: Recovered, g: Seg) {
    && Recover(Engine, crc, LiveImage(s)) == Success(r) && Recover(Migration, crc, LiveImage(s)) == Success(r)
    && Live(s.disk).wals != [] && s.segment in s.disk.files && r.high == s.segment == g.id
    && gs != [] && gs[|gs| - 1].id == g.id && gs[|gs| - 1].base == g.base && gs[|gs| - 1].end <= g.end
    && SegOk(s.hist, g) && s.durable <= g.end == r.sequence <= s.durable + |s.inflight| <= |s.hist|
    && r.values == Fold(s.hist, r.sequence)
    && var b := s.disk.files[s.segment].bytes;
    && r.lastGood == |SegBytes(crc, s.hist, g)| <= |b| && b[..r.lastGood] == SegBytes(crc, s.hist, g)
    && r.torn == (|b| != r.lastGood)
  }

  lemma KillSees(crc: Crc, m: Sys, stale: seq<Change>, gs: seq<Seg>, s0: nat) returns (r: Recovered, g: Seg)
    requires Good(crc, m, stale, gs, s0) && Opens(crc, With(m, stale))
    ensures Sees(crc, With(m, stale), gs, r, g)
  {
    hide Good, PipeInv, FileInv, Fold, Recover, CrashImage, CrashNames, Survives, FilesKnown, FoundWell, With;
    hide Sees, Live;
    hide RecoversTo, Found, Reads, Readback;
    var s := With(m, stale);
    var left, at := AnySurvivors(crc, m, stale, gs, s0, All());
    ReadsBack(crc, s, gs, left, at, All(), Whole(s));
    r := SurvivorsRecover(crc, s, gs, left, at, All(), Whole(s));
    ActiveLive(crc, m, stale, gs, s0);
    SameSegment(m, stale);
    LiveIsKept(s);
    LastLeft(crc, s, gs, left, at);
    g := RecoveredFound(crc, s, gs, left, at, All(), Whole(s), r);
    SeesIntro(crc, s, gs, left, r, g);
  }

  lemma SameSegment(m: Sys, stale: seq<Change>)
    ensures With(m, stale).segment == m.segment && With(m, stale).next == m.next
  {
  }

  lemma LastLeft(crc: Crc, s: Sys, gs: seq<Seg>, left: seq<Seg>, at: nat)
    requires FileInv(crc, s, gs) && Survives(crc, s, gs, CrashNames(s, All()), left, at)
    requires s.segment in CrashNames(s, All()).wals
    ensures gs != [] && left != [] && left[|left| - 1] == gs[|gs| - 1] && s.segment == gs[|gs| - 1].id
    ensures s.segment in s.disk.files
  {
    hide FileInv, SnapOk, Chain, CrashNames;
    NotEmpty(crc, s, gs);
    AscendingOf(crc, s, gs);
    var i :| 0 <= i < |left| && Ids(left)[i] == s.segment;
    assert left[i] in gs && left[|left| - 1] in gs;
    TopId(crc, s, gs, left[|left| - 1]);
    var j :| 0 <= j < |gs| && gs[j] == left[i];
  }

  lemma RecoveredFound(crc: Crc, s: Sys, gs: seq<Seg>, left: seq<Seg>, at: nat, keep: nat -> bool, cut: nat,
                       r: Recovered)
    returns (g: Seg)
    requires RecoversTo(crc, s, gs, keep, cut, r, left, at) && left != []
    ensures left[|left| - 1].id == g.id && left[|left| - 1].base == g.base && left[|left| - 1].end <= g.end
    ensures SegOk(s.hist, g) && s.durable <= g.end == r.sequence <= s.durable + |s.inflight| <= |s.hist|
    ensures r.values == Fold(s.hist, r.sequence) && r.high == g.id && r.lastGood == |SegBytes(crc, s.hist, g)|
    ensures var b := Survivor(s, g.id, cut);
      r.lastGood <= |b| && b[..r.lastGood] == SegBytes(crc, s.hist, g) && r.torn == (|b| != r.lastGood)
  {
    hide Found, Reaches, Fold, SegBytes, Survivor, FilesKnown, Survives;
    g := Found(crc, s, left, cut)[|left| - 1];
  }

  lemma SeesIntro(crc: Crc, s: Sys, gs: seq<Seg>, left: seq<Seg>, r: Recovered, g: Seg)
    requires Recover(Engine, crc, LiveImage(s)) == Success(r) && Recover(Migration, crc, LiveImage(s)) == Success(r)
    requires s.segment in Live(s.disk).wals && s.segment in s.disk.files && r.high == g.id
    requires gs != [] && gs[|gs| - 1].id == g.id == s.segment
    requires gs[|gs| - 1].base == g.base && gs[|gs| - 1].end <= g.end
    requires SegOk(s.hist, g) && s.durable <= g.end == r.sequence <= s.durable + |s.inflight| <= |s.hist|
    requires r.values == Fold(s.hist, r.sequence)
    requires r.lastGood == |SegBytes(crc, s.hist, g)|
    requires var b := Survivor(s, g.id, Whole(s));
      r.lastGood <= |b| && b[..r.lastGood] == SegBytes(crc, s.hist, g) && r.torn == (|b| != r.lastGood)
    ensures Sees(crc, s, gs, r, g)
  {
    hide Recover, Live, SegBytes, Fold, LiveImage;
    var b := s.disk.files[s.segment].bytes;
    assert b[..|b|] == b;
  }

  /** The engine that the next process has. */
  function Reread(s: Sys, r: Recovered): Sys
    requires r.sequence <= |s.hist| && s.segment in s.disk.files
  {
    Sys(s.hist[..r.sequence], r.sequence, r.sequence, r.values, [], [], Idle, false, false, false, Running, File([], 0),
        s.segment,
        s.disk.(files := s.disk.files[s.segment := Repaired(s.disk.files[s.segment], r)]))
  }

  lemma KillIs(crc: Crc, s: Sys, gs: seq<Seg>, r: Recovered, g: Seg)
    requires Sees(crc, s, gs, r, g)
    ensures r.sequence <= |s.hist| && s.segment in s.disk.files && Kill(crc, s) == Reread(s, r)
  {
    hide Recover, LiveImage, Live, SegBytes, Fold;
  }

  /** The same without the changes that were pending. */
  function Cleared(s: Sys, r: Recovered): Sys
    requires r.sequence <= |s.hist| && s.segment in s.disk.files
  {
    var t := Reread(s, r);
    t.(disk := t.disk.(pending := []))
  }

  lemma ClearedWith(s: Sys, r: Recovered)
    requires r.sequence <= |s.hist| && s.segment in s.disk.files
    ensures With(Cleared(s, r), s.disk.pending) == Reread(s, r)
  {
    assert s.disk.pending + [] == s.disk.pending;
  }

  lemma RereadFile(crc: Crc, s: Sys, gs: seq<Seg>, r: Recovered, g: Seg)
    requires Sees(crc, s, gs, r, g) && Settled(crc, s)
    ensures SegOk(s.hist, g) && s.segment in s.disk.files
    ensures Repaired(s.disk.files[s.segment], r) == File(SegBytes(crc, s.hist, g), |SegBytes(crc, s.hist, g)|)
  {
    hide Recover, LiveImage, Live, SegBytes, Fold;
    var b := s.disk.files[s.segment].bytes;
    assert b[..|b|] == b;
  }

  lemma ClearedPipe(s: Sys, r: Recovered)
    requires PipeInv(s) && r.sequence <= |s.hist| && s.segment in s.disk.files && r.values == Fold(s.hist, r.sequence)
    ensures PipeInv(Cleared(s, r))
  {
    Durable(s);
    FoldPrefix(s.hist, r.sequence, r.sequence);
    RecoveringPipe(Cleared(s, r)) by { hide Fold, W.Submittable, Repaired; }
  }

  lemma ClearedFiles(crc: Crc, s: Sys, gs: seq<Seg>, r: Recovered, g: Seg)
    requires FileInv(crc, s, gs) && Sees(crc, s, gs, r, g) && Settled(crc, s)
    ensures r.sequence <= |s.hist| && s.segment in s.disk.files && gs != []
    ensures FileInv(crc, Cleared(s, r), gs[|gs| - 1 := g])
  {
    hide FileInv, Sees, Settled, SegBytes, Complete, ActiveOk;
    SeesRange(crc, s, gs, r, g);
    var t, n, gs' := Cleared(s, r), |gs| - 1, gs[|gs| - 1 := g];
    AscendingOf(crc, s, gs);
    EndsAtMost(crc, s, gs);
    forall i | 0 <= i < n ensures SegOk(t.hist, gs'[i]) && Complete(crc, t, gs'[i]) && gs'[i].id >= 1 {
      ClearedOther(crc, s, gs, r, i);
    }
    ClearedActive(crc, s, gs, r, g);
    Member(crc, s, gs, gs[n]);
    FileInvIntro(crc, t, gs');
  }

  lemma SeesRange(crc: Crc, s: Sys, gs: seq<Seg>, r: Recovered, g: Seg)
    requires Sees(crc, s, gs, r, g)
    ensures s.durable <= r.sequence <= |s.hist| && s.segment in s.disk.files && gs != []
    ensures SegOk(s.hist, g) && g.end == r.sequence
    ensures g.id == gs[|gs| - 1].id == s.segment && g.base == gs[|gs| - 1].base
    ensures r.values == Fold(s.hist, r.sequence)
  {
    hide Recover, LiveImage, Live, SegBytes, Fold;
  }

  lemma ClearedOther(crc: Crc, s: Sys, gs: seq<Seg>, r: Recovered, i: nat)
    requires FileInv(crc, s, gs) && s.durable <= r.sequence <= |s.hist| && s.segment in s.disk.files && i < |gs| - 1
    ensures SegOk(Cleared(s, r).hist, gs[i]) && Complete(crc, Cleared(s, r), gs[i]) && gs[i].id >= 1
  {
    hide FileInv, SegBytes, Repaired, ActiveOk;
    var t, g := Cleared(s, r), gs[i];
    NotEmpty(crc, s, gs);
    AscendingOf(crc, s, gs);
    Member(crc, s, gs, g);
    assert s.hist[..g.end] == t.hist[..g.end];
    SegBytesPrefix(crc, s.hist, t.hist, g);
  }

  lemma ClearedActive(crc: Crc, s: Sys, gs: seq<Seg>, r: Recovered, g: Seg)
    requires Sees(crc, s, gs, r, g) && Settled(crc, s) && r.sequence <= |s.hist| && s.segment in s.disk.files
    ensures SegOk(Cleared(s, r).hist, g) && ActiveOk(crc, Cleared(s, r), g)
  {
    hide Sees, Settled, SegBytes, Repaired;
    SeesRange(crc, s, gs, r, g);
    RereadFile(crc, s, gs, r, g);
    var t := Cleared(s, r);
    assert s.hist[..g.end] == t.hist[..g.end];
    SegBytesPrefix(crc, s.hist, t.hist, g);
    var b := SegBytes(crc, t.hist, g);
    assert b + [] == b;
  }

  lemma ClearedDir(crc: Crc, s: Sys, gs: seq<Seg>, s0: nat, r: Recovered, g: Seg)
    requires Base(crc, s, gs, s0) && s.durable <= r.sequence <= |s.hist| < U64_MAX && s.segment in s.disk.files
    requires g.id == gs[|gs| - 1].id && g.base == gs[|gs| - 1].base
    ensures DirInv(crc, Cleared(s, r), gs[|gs| - 1 := g], s0)
  {
    hide SnapOk, Chain, Repaired, SnapshotNow;
    var t := Cleared(s, r);
    ChainLast(s0, gs, g);
    assert Ids(gs[|gs| - 1 := g]) == Ids(gs);
    assert s.hist[..s0] == t.hist[..s0];
    SnapOkPrefix(crc, s.hist, t.hist, s.disk.names.snapshot, s0);
  }

  lemma ClearedKeeps(s: Sys, r: Recovered)
    requires s.durable <= r.sequence <= |s.hist| && s.segment in s.disk.files
    ensures KeepsDurable(s, Reread(s, r)) && KeepsDurable(s, Cleared(s, r)) && |Cleared(s, r).hist| <= |s.hist|
  {
    hide Repaired;
    assert s.hist[..r.sequence][..s.durable] == s.hist[..s.durable];
  }

  lemma BaseParts(crc: Crc, s: Sys, gs: seq<Seg>, s0: nat)
    requires Base(crc, s, gs, s0)
    ensures gs != [] && AllStale(crc, s.hist, s.durable, gs, s0, s.disk.pending)
  {
    hide SnapOk, Chain, AllStale;
  }

  lemma ClearedPhase(s: Sys, r: Recovered)
    requires r.sequence <= |s.hist| && s.segment in s.disk.files
    ensures Cleared(s, r).phase == Running
  {
  }

  /** The opening found the directory settled: the engine keeps the invariant, the stale changes before it. */
  lemma KillGood(crc: Crc, m: Sys, stale: seq<Change>, gs: seq<Seg>, s0: nat) returns (m': Sys, gs': seq<Seg>)
    requires Good(crc, m, stale, gs, s0) && Opens(crc, With(m, stale)) && Settled(crc, With(m, stale))
    ensures var s := With(m, stale);
      && Kill(crc, s) == With(m', s.disk.pending) && Good(crc, m', s.disk.pending, gs', s0)
      && KeepsDurable(s, Kill(crc, s))
  {
    hide Good, PipeInv, FileInv, DirInv, Sees, Recover, LiveImage, Base, Reread, Cleared, AllStale, Settled, SegOk;
    hide KeepsDurable, SegBytes, With, Kill, Fold, Opens;
    var s := With(m, stale);
    var r, g := KillSees(crc, m, stale, gs, s0);
    GoodParts(crc, m, stale, gs, s0);
    SettledNamed(crc, s);
    BaseOf(crc, m, stale, gs, s0);
    BaseParts(crc, s, gs, s0);
    KillIs(crc, s, gs, r, g);
    SeesRange(crc, s, gs, r, g);
    Durable(s);
    m', gs' := Cleared(s, r), gs[|gs| - 1 := g];
    ClearedWith(s, r);
    ClearedKeeps(s, r);
    ClearedPipe(s, r);
    ClearedFiles(crc, s, gs, r, g);
    ClearedDir(crc, s, gs, s0, r, g);
    StaleAcross(crc, s, m', gs, gs', s0, s.disk.pending);
    ClearedPhase(s, r);
    GoodIntro(crc, m', s.disk.pending, gs', s0);
  }

  lemma GoodParts(crc: Crc, m: Sys, stale: seq<Change>, gs: seq<Seg>, s0: nat)
    requires Good(crc, m, stale, gs, s0)
    ensures PipeInv(With(m, stale)) && FileInv(crc, With(m, stale), gs)
    ensures With(m, stale).segment == m.segment && With(m, stale).disk.names == m.disk.names
  {
    hide Inv, AllStale, PipeInv, FileInv;
    WithParts(crc, m, stale, gs, s0);
  }

  lemma GoodIntro(crc: Crc, m: Sys, stale: seq<Change>, gs: seq<Seg>, s0: nat)
    requires PipeInv(m) && FileInv(crc, m, gs) && gs != [] && DirInv(crc, m, gs, s0) && m.phase == Running
    requires AllStale(crc, m.hist, m.durable, gs, s0, stale)
    ensures Good(crc, m, stale, gs, s0)
  {
    hide PipeInv, FileInv, DirInv, AllStale;
  }

  lemma SettledNamed(crc: Crc, s: Sys)
    requires Settled(crc, s)
    ensures s.segment in s.disk.names.wals
  {
    hide Recover, LiveImage;
  }
}
