/** A crash of the engine at any point, and what recovery makes of whatever survives. */
module EngineCrash {
  import opened Bytes
  import opened Options
  import opened Store
  import W = SegmentWal
  import opened SegmentReplay
  import Snap = Snapshot
  import opened DirectoryRecovery
  import opened EngineHistory
  import opened DiskModel
  import opened SegmentNames
  import opened EngineModel
  import opened EngineSteps

  // ------------------------------------------------------------------ which segments survive

  /** A selection of the segments that keeps their order and ends at the durable point. */
  ghost predicate Selected(s: Sys, gs: seq<Seg>, all: seq<Seg>) {
    && Ascending(gs) && Among(gs, all)
    && (gs != [] ==> gs[|gs| - 1].end == s.durable)
  }

  /** What is known of one segment. */
  lemma Member(crc: Crc, s: Sys, gs: seq<Seg>, g: Seg)
    requires FileInv(crc, s, gs) && g in gs
    ensures SegOk(s.hist, g) && g.end <= s.durable && g.id >= 1
    ensures g.id == s.segment ==> ActiveOk(crc, s, g)
    ensures g.id != s.segment ==> Complete(crc, s, g)
  {
    hide SegBytes, InFile;
    NotEmpty(crc, s, gs);
    var i :| 0 <= i < |gs| && gs[i] == g;
    assert SegOk(s.hist, gs[i]);
    assert i < |gs| - 1 ==> gs[i].id < gs[|gs| - 1].id;
    assert i > 0 ==> gs[0].id < gs[i].id;
  }

  /** What survives of the directory: a snapshot and a chain of segments that reach the durable point. */
  ghost predicate Survives(crc: Crc, s: Sys, gs: seq<Seg>, names: Names, left: seq<Seg>, at: nat) {
    && names.wals == Ids(left) && SnapOk(crc, s.hist, names.snapshot, at) && at <= s.durable
    && Selected(s, left, gs) && Chain(at, left) && (left == [] ==> at == s.durable)
  }

  /** Whichever unsynced directory changes survive, what is left reaches the durable point. */
  lemma Survivors(crc: Crc, s: Sys, gs: seq<Seg>, s0: nat, keep: nat -> bool) returns (left: seq<Seg>, at: nat)
    requires Inv(crc, s, gs, s0)
    ensures Survives(crc, s, gs, CrashNames(s, keep), left, at)
  {
    hide PipeInv, FileInv, DirInv, Survives, CrashNames, Chain;
    NotEmpty(crc, s, gs);
    BelowDurable(crc, s, gs);
    left, at := gs, s0;
    if s.phase == Renamed {
      Quiescent(crc, s);
      at := SurviveRename(crc, s, gs, s0, keep);
    } else if s.phase == NewCreated || s.phase == Opening {
      left := SurviveAdd(crc, s, gs, s0, keep);
    } else if s.phase == Removing {
      left := SurviveRemove(crc, s, gs, s0, keep);
    } else {
      SurviveQuiet(crc, s, gs, s0, keep);
    }
  }

  lemma SurviveQuiet(crc: Crc, s: Sys, gs: seq<Seg>, s0: nat, keep: nat -> bool)
    requires FileInv(crc, s, gs) && DirInv(crc, s, gs, s0) && Chain(s.durable, gs)
    requires !(s.phase in {Renamed, NewCreated, Opening, Removing})
    ensures Survives(crc, s, gs, CrashNames(s, keep), gs, s0)
  {
    hide FileInv, DirInv, Selected, SnapOk, Chain, Ids, Kept;
    AllSelected(crc, s, gs);
    NotEmpty(crc, s, gs);
    QuietDir(crc, s, gs, s0);
    NoChange(s.disk.names, keep);
  }

  lemma QuietDir(crc: Crc, s: Sys, gs: seq<Seg>, s0: nat)
    requires gs != [] && DirInv(crc, s, gs, s0) && !(s.phase in {Renamed, NewCreated, Opening, Removing})
    ensures s.disk.pending == [] && s.disk.names.wals == Ids(gs) && SnapOk(crc, s.hist, s.disk.names.snapshot, s0)
    ensures s0 <= s.durable && (Chain(s0, gs) || s0 == s.durable)
  {
    hide SnapOk, Chain, Ids, SnapshotNow;
  }

  lemma SurviveRename(crc: Crc, s: Sys, gs: seq<Seg>, s0: nat, keep: nat -> bool) returns (at: nat)
    requires FileInv(crc, s, gs) && DirInv(crc, s, gs, s0) && Chain(s.durable, gs) && s.phase == Renamed
    requires s.durable == s.next == |s.hist| < U64_MAX && s.index == Fold(s.hist, s.durable)
    ensures Survives(crc, s, gs, CrashNames(s, keep), gs, at)
  {
    AllSelected(crc, s, gs);
    hide FileInv, Selected, SnapOk, Chain, SnapshotNow, Ids, Kept, Fold;
    SnapshotNowOk(crc, s);
    OneChange(s.disk.names, SetSnapshot(SnapshotNow(crc, s)), keep);
    at := if keep(0) then s.durable else s0;
  }

  lemma SurviveAdd(crc: Crc, s: Sys, gs: seq<Seg>, s0: nat, keep: nat -> bool) returns (left: seq<Seg>)
    requires FileInv(crc, s, gs) && DirInv(crc, s, gs, s0) && Chain(s.durable, gs)
    requires s.phase == NewCreated || s.phase == Opening
    ensures Survives(crc, s, gs, CrashNames(s, keep), left, s0)
  {
    hide FileInv, DirInv, SnapOk, Chain, Ids, Kept, Selected;
    AllSelected(crc, s, gs);
    NotEmpty(crc, s, gs);
    AddDir(crc, s, gs, s0);
    OneChange(s.disk.names, AddWal(s.segment), keep);
    AddedIds(gs, s.segment);
    left := gs;
    if !keep(0) {
      left := gs[..|gs| - 1];
      DropLast(crc, s, gs);
      BelowPart(crc, s, gs, left);
    }
  }

  lemma AddDir(crc: Crc, s: Sys, gs: seq<Seg>, s0: nat)
    requires gs != [] && DirInv(crc, s, gs, s0) && (s.phase == NewCreated || s.phase == Opening)
    ensures s.disk.pending == [AddWal(s.segment)] && s.disk.names.wals == Ids(gs[..|gs| - 1]) && s0 == s.durable
    ensures SnapOk(crc, s.hist, s.disk.names.snapshot, s0)
    ensures |gs| > 1 ==> gs[|gs| - 2].end == s.durable
  {
    hide SnapOk, Chain, SnapshotNow;
  }

  lemma NoIds()
    ensures Ids([]) == []
  {
  }

  lemma DropLast(crc: Crc, s: Sys, gs: seq<Seg>)
    requires FileInv(crc, s, gs) && (|gs| > 1 ==> gs[|gs| - 2].end == s.durable)
    ensures gs != [] && Among(gs[..|gs| - 1], gs) && Selected(s, gs[..|gs| - 1], gs)
  {
    hide SegBytes, ActiveOk, Complete;
  }

  lemma SurviveRemove(crc: Crc, s: Sys, gs: seq<Seg>, s0: nat, keep: nat -> bool) returns (left: seq<Seg>)
    requires FileInv(crc, s, gs) && DirInv(crc, s, gs, s0) && s.phase == Removing
    ensures Survives(crc, s, gs, CrashNames(s, keep), left, s0)
  {
    NotEmpty(crc, s, gs);
    AscendingOf(crc, s, gs);
    ActiveEnd(crc, s, gs);
    hide FileInv, SnapOk, Chain, SnapshotNow, Kept, Ids, Among;
    left := RemovedSegs(s.disk.names, s.disk.pending, keep, gs, s.segment);
    RemovalsOnly(s.disk.names, s.disk.pending, keep);
    BelowPart(crc, s, gs, left);
  }

  lemma AscendingOf(crc: Crc, s: Sys, gs: seq<Seg>)
    requires FileInv(crc, s, gs)
    ensures Ascending(gs)
  {
  }

  lemma AllSelected(crc: Crc, s: Sys, gs: seq<Seg>)
    requires FileInv(crc, s, gs)
    ensures Selected(s, gs, gs)
  {
  }

  /** Some of the segments all begin at or before the durable point. */
  lemma BelowPart(crc: Crc, s: Sys, gs: seq<Seg>, left: seq<Seg>)
    requires FileInv(crc, s, gs) && Among(left, gs)
    ensures Chain(s.durable, left)
  {
    forall i | 0 <= i < |left| ensures left[i].base <= s.durable {
      Member(crc, s, gs, left[i]);
    }
    ChainBelow(s.durable, left);
  }

  lemma NoChange(n: Names, keep: nat -> bool)
    ensures Kept(n, [], keep) == n
  {
  }

  lemma OneChange(n: Names, c: Change, keep: nat -> bool)
    ensures Kept(n, [c], keep) == if keep(0) then Changed(n, c) else n
  {
    assert [c][..0] == [];
  }

  // ------------------------------------------------------------------ what is in the files

  /** The last segment as it would be with the whole batch in it, if it is the active one. */
  ghost function Full(s: Sys, left: seq<Seg>): seq<Seg>
    requires left != []
  {
    var g := left[|left| - 1];
    if g.id == s.segment then left[|left| - 1 := g.(end := s.durable + |s.inflight|)] else left
  }

  /** The length that survives of the last file. */
  function LastCut(s: Sys, left: seq<Seg>, cut: nat): nat
    requires left != []
  {
    |Survivor(s, left[|left| - 1].id, cut)|
  }

  /** b is a beginning of the file of full that contains all of the file of g. */
  ghost predicate Begins(crc: Crc, hist: History, g: Seg, full: Seg, b: Bytes) {
    && SegOk(hist, g) && SegOk(hist, full) && full.id == g.id && full.base == g.base && g.end <= full.end
    && |SegBytes(crc, hist, g)| <= |b| <= |SegBytes(crc, hist, full)|
    && b == SegBytes(crc, hist, full)[..|b|]
  }

  /** The active file is a beginning of the file with the whole batch. */
  lemma ActivePrefix(crc: Crc, s: Sys, g: Seg, cut: nat)
    requires PipeInv(s) && SegOk(s.hist, g) && ActiveOk(crc, s, g)
    ensures Begins(crc, s.hist, g, g.(end := s.durable + |s.inflight|), Survivor(s, g.id, cut))
  {
    GrownBytes(crc, s, g);
    InflightBound(s);
    hide PipeInv, SegBytes, Buffer, InFile;
    InFilePrefix(crc, s);
    var base, all, got := SegBytes(crc, s.hist, g), Buffer(crc, s.inflight), InFile(crc, s);
    var f, b := s.disk.files[g.id], Survivor(s, g.id, cut);
    assert f.bytes[..|f.bytes|] == f.bytes;
    PrefixOfSum(base, all, got, |b|);
  }

  lemma PrefixOfSum(base: Bytes, all: Bytes, got: Bytes, n: nat)
    requires |got| <= |all| && got == all[..|got|] && n <= |base| + |got|
    ensures (base + got)[..n] == (base + all)[..n]
  {
  }

  lemma InFilePrefix(crc: Crc, s: Sys)
    ensures var b, i := Buffer(crc, s.inflight), InFile(crc, s); |i| <= |b| && i == b[..|i|]
  {
    hide Buffer;
    var b := Buffer(crc, s.inflight);
    assert b[..|b|] == b;
  }

  /** The surviving files, segment by segment. */
  ghost predicate FilesKnown(crc: Crc, s: Sys, left: seq<Seg>, cut: nat)
    requires left != []
  {
    var n, full := |left| - 1, Full(s, left);
    && AllOk(s.hist, full) && AllOk(s.hist, left)
    && Begins(crc, s.hist, left[n], full[n], Survivor(s, left[n].id, cut))
    && (forall i :: 0 <= i < n ==>
      SegOk(s.hist, left[i]) && full[i] == left[i] && Survivor(s, left[i].id, cut) == SegBytes(crc, s.hist, left[i]))
  }

  lemma FullOk(crc: Crc, s: Sys, gs: seq<Seg>, left: seq<Seg>, cut: nat)
    requires PipeInv(s) && FileInv(crc, s, gs) && Selected(s, left, gs) && left != []
    ensures FilesKnown(crc, s, left, cut)
  {
    hide PipeInv, FileInv, SegBytes, InFile, Begins, Selected, Survivor;
    var n, full := |left| - 1, Full(s, left);
    SelectedAt(s, left, gs, n);
    LastKnown(crc, s, gs, left[n], cut);
    BeginsOk(crc, s.hist, left[n], full[n], Survivor(s, left[n].id, cut));
    forall i | 0 <= i < n
      ensures SegOk(s.hist, left[i]) && full[i] == left[i]
      ensures Survivor(s, left[i].id, cut) == SegBytes(crc, s.hist, left[i])
    {
      OtherKnown(crc, s, gs, left, i, cut);
    }
  }

  lemma BeginsOk(crc: Crc, hist: History, g: Seg, full: Seg, b: Bytes)
    requires Begins(crc, hist, g, full, b)
    ensures SegOk(hist, g) && SegOk(hist, full)
  {
    hide SegBytes;
  }

  lemma SelectedAt(s: Sys, left: seq<Seg>, gs: seq<Seg>, i: nat)
    requires Selected(s, left, gs) && i < |left|
    ensures left[i] in gs && (i < |left| - 1 ==> left[i].id < left[|left| - 1].id)
  {
  }

  lemma OtherKnown(crc: Crc, s: Sys, gs: seq<Seg>, left: seq<Seg>, i: nat, cut: nat)
    requires FileInv(crc, s, gs) && Selected(s, left, gs) && i < |left| - 1
    ensures SegOk(s.hist, left[i]) && Survivor(s, left[i].id, cut) == SegBytes(crc, s.hist, left[i])
  {
    hide FileInv, SegBytes, Selected, ActiveOk;
    SelectedAt(s, left, gs, i);
    SelectedAt(s, left, gs, |left| - 1);
    TopId(crc, s, gs, left[|left| - 1]);
    Member(crc, s, gs, left[i]);
  }

  lemma LastKnown(crc: Crc, s: Sys, gs: seq<Seg>, g: Seg, cut: nat)
    requires PipeInv(s) && FileInv(crc, s, gs) && g in gs
    ensures var full := if g.id == s.segment then g.(end := s.durable + |s.inflight|) else g;
      Begins(crc, s.hist, g, full, Survivor(s, g.id, cut))
  {
    Member(crc, s, gs, g);
    hide PipeInv, FileInv, SegBytes, InFile, ActiveOk;
    if g.id == s.segment {
      ActivePrefix(crc, s, g, cut);
    } else {
      var b := SegBytes(crc, s.hist, g);
      assert b[..|b|] == b;
    }
  }

  lemma InflightBound(s: Sys)
    requires PipeInv(s)
    ensures s.durable + |s.inflight| <= |s.hist| < U64_MAX && Sound(s.hist)
  {
    hide Fold;
    InflightSpan(s);
  }

  /** No segment has a higher id than the active one. */
  lemma TopId(crc: Crc, s: Sys, gs: seq<Seg>, g: Seg)
    requires FileInv(crc, s, gs) && g in gs
    ensures g.id <= s.segment
  {
    hide SegBytes;
    NotEmpty(crc, s, gs);
    var i :| 0 <= i < |gs| && gs[i] == g;
    assert i < |gs| - 1 ==> gs[i].id < gs[|gs| - 1].id;
  }

  /** The files found after a crash are the files of the surviving segments, the last one cut. */
  lemma ImageIsFiles(crc: Crc, s: Sys, left: seq<Seg>, keep: nat -> bool, cut: nat)
    requires left != [] && FilesKnown(crc, s, left, cut) && CrashNames(s, keep).wals == Ids(left)
    ensures CrashImage(s, keep, cut).wals == Files(crc, s.hist, Full(s, left), LastCut(s, left, cut))
  {
    hide SegBytes, CrashNames, Survivor;
    var n, c, full := |left| - 1, LastCut(s, left, cut), Full(s, left);
    var a, b := CrashImage(s, keep, cut).wals, Files(crc, s.hist, full, c);
    forall i | 0 <= i < |left| ensures a[i] == b[i] {
      assert a[i] == Survivor(s, left[i].id, cut);
      assert SegOk(s.hist, full[i]);
      if i < n { assert full[i] == left[i]; }
    }
  }

  /** kept is full cut after its last whole record before c, and loses nothing of g. */
  ghost predicate CutWell(crc: Crc, hist: History, g: Seg, full: Seg, kept: Seg, b: Bytes) {
    && SegOk(hist, full) && SegOk(hist, kept) && kept.id == g.id && kept.base == g.base
    && g.end <= kept.end <= full.end
    && |SegBytes(crc, hist, kept)| <= |b| && b[..|SegBytes(crc, hist, kept)|] == SegBytes(crc, hist, kept)
  }

  /** The records kept by a cut of a segment's records after the first m bytes. */
  lemma CutSpan(crc: Crc, hist: History, base: nat, mid: nat, end: nat, m: nat)
    requires base <= mid <= end <= |hist| <= U64_MAX
    requires |Records(crc, Span(hist, base, mid))| <= m <= |Records(crc, Span(hist, base, end))|
    ensures var k := WholeRecords(crc, Span(hist, base, end), m);
      && mid <= base + k <= end
      && var done := Records(crc, Span(hist, base, base + k));
      |done| <= m && Records(crc, Span(hist, base, end))[..m][..|done|] == done
  {
    hide Records, WholeRecords, Span;
    var all, mine := Span(hist, base, end), Span(hist, base, mid);
    SpanConcat(hist, base, mid, end);
    assert all[..|mine|] == mine;
    FittingRecords(crc, all, m, |mine|);
    var k := WholeRecords(crc, all, m);
    CutRecords(crc, all, m);
    SpanConcat(hist, base, base + k, end);
    assert all[..k] == Span(hist, base, base + k);
  }

  /** A cut keeps every record of a segment that was there before. */
  lemma CutKeeps(crc: Crc, hist: History, g: Seg, full: Seg, b: Bytes)
    requires Begins(crc, hist, g, full, b)
    ensures |b| >= W.HEADER_SIZE && CutWell(crc, hist, g, full, CutSeg(crc, hist, full, |b|), b)
  {
    hide W.HeaderBytes, Records, WholeRecords, Span;
    var m, all := |b| - W.HEADER_SIZE, Records(crc, Span(hist, full.base, full.end));
    CutSpan(crc, hist, full.base, g.end, full.end, m);
    var h, kept := W.HeaderBytes(crc, W.Header(full.id, full.base + 1)), CutSeg(crc, hist, full, |b|);
    assert b == h + all[..m];
    PrefixOfPart(h, all[..m], Records(crc, Span(hist, full.base, kept.end)));
  }

  lemma PrefixOfPart(h: Bytes, part: Bytes, done: Bytes)
    requires |done| <= |part| && part[..|done|] == done
    ensures (h + part)[..|h + done|] == h + done
  {
  }

  lemma {:induction false} HighIsLast(high: u64, gs: seq<Seg>)
    requires Ascending(gs) && gs != [] && high <= gs[|gs| - 1].id
    ensures HighId(high, gs) == gs[|gs| - 1].id
    decreases |gs|
  {
    if |gs| == 1 {
      assert gs[1..] == [];
    } else {
      assert gs[0].id < gs[|gs| - 1].id;
      HighIsLast(Larger(high, gs[0].id), gs[1..]);
    }
  }

  lemma {:induction false} CoverIsLast(k: nat, gs: seq<Seg>)
    requires gs != [] && k <= gs[|gs| - 1].end && forall i :: 0 <= i < |gs| ==> gs[i].end <= gs[|gs| - 1].end
    ensures Cover(k, gs) == gs[|gs| - 1].end
  {
    CoverAtLeast(k, gs);
    CoverAtMost(k, gs, gs[|gs| - 1].end);
  }

  /** The segments as recovery finds them. */
  ghost function Found(crc: Crc, s: Sys, left: seq<Seg>, cut: nat): seq<Seg>
    requires left != [] && FilesKnown(crc, s, left, cut)
  {
    CutKeeps(crc, s.hist, left[|left| - 1], Full(s, left)[|left| - 1], Survivor(s, left[|left| - 1].id, cut));
    AfterCut(crc, s.hist, Full(s, left), LastCut(s, left, cut))
  }

  /** The found segments reach some k between the durable point and the end of the batch. */
  ghost predicate Reaches(s: Sys, left: seq<Seg>, found: seq<Seg>, at: nat)
    requires left != [] && |found| == |left|
  {
    var n := |left| - 1;
    && AllOk(s.hist, found) && Ascending(found) && Ids(found) == Ids(left)
    && Chain(at, found) && Cover(at, found) == found[n].end
    && s.durable <= found[n].end <= s.durable + |s.inflight| <= |s.hist|
    && (forall i :: 0 <= i < |found| ==> found[i].end <= found[n].end)
    && (forall i :: 0 <= i < n ==> found[i] == left[i])
  }

  lemma FoundReaches(crc: Crc, s: Sys, gs: seq<Seg>, left: seq<Seg>, at: nat, cut: nat)
    requires PipeInv(s) && FileInv(crc, s, gs) && Selected(s, left, gs) && left != [] && FilesKnown(crc, s, left, cut)
    requires Chain(at, left) && at <= s.durable
    ensures |Found(crc, s, left, cut)| == |left| && Reaches(s, left, Found(crc, s, left, cut), at)
    ensures CutWell(crc, s.hist, left[|left| - 1], Full(s, left)[|left| - 1], Found(crc, s, left, cut)[|left| - 1],
                    Survivor(s, left[|left| - 1].id, cut))
  {
    hide PipeInv, FileInv, SegBytes, InFile, Chain, Cover, Survivor, Selected, CutWell, FilesKnown, Reaches, Found;
    InflightBound(s);
    EndsBelow(crc, s, gs, left);
    FoundShape(crc, s, left, cut);
    var found := Found(crc, s, left, cut);
    SelectedAscends(s, left, gs);
    ReachesIntro(s, left, found[|left| - 1], at);
  }

  lemma SelectedAscends(s: Sys, left: seq<Seg>, gs: seq<Seg>)
    requires Selected(s, left, gs) && left != []
    ensures Ascending(left) && left[|left| - 1].end == s.durable
  {
  }

  lemma FoundShape(crc: Crc, s: Sys, left: seq<Seg>, cut: nat)
    requires left != [] && FilesKnown(crc, s, left, cut)
    ensures var n, found := |left| - 1, Found(crc, s, left, cut);
      && |found| == |left| && found == left[n := found[n]] && AllOk(s.hist, found)
      && found[n].id == left[n].id && found[n].base == left[n].base
      && left[n].end <= found[n].end <= Full(s, left)[n].end
      && CutWell(crc, s.hist, left[n], Full(s, left)[n], found[n], Survivor(s, left[n].id, cut))
  {
    hide SegBytes, CutSeg, Survivor, Begins;
    var n := |left| - 1;
    CutKeeps(crc, s.hist, left[n], Full(s, left)[n], Survivor(s, left[n].id, cut));
  }

  lemma ReachesIntro(s: Sys, left: seq<Seg>, g: Seg, at: nat)
    requires left != [] && Ascending(left) && AllOk(s.hist, left[|left| - 1 := g]) && Chain(at, left)
    requires left[|left| - 1].end == s.durable && at <= s.durable && s.durable + |s.inflight| <= |s.hist|
    requires g.id == left[|left| - 1].id && g.base == left[|left| - 1].base
    requires s.durable <= g.end <= Full(s, left)[|left| - 1].end
    requires forall i :: 0 <= i < |left| ==> left[i].end <= s.durable
    ensures Reaches(s, left, left[|left| - 1 := g], at)
  {
    hide Chain, Cover, SegOk, Ids;
    var found := left[|left| - 1 := g];
    SameIds(found, left);
    ChainLast(at, left, g);
    CoverIsLast(at, found);
  }

  lemma EndsBelow(crc: Crc, s: Sys, gs: seq<Seg>, left: seq<Seg>)
    requires FileInv(crc, s, gs) && Selected(s, left, gs)
    ensures forall i :: 0 <= i < |left| ==> left[i].end <= s.durable
  {
    hide FileInv, SegBytes;
    forall i | 0 <= i < |left| ensures left[i].end <= s.durable {
      assert left[i] in gs;
      Member(crc, s, gs, left[i]);
    }
  }

  // ------------------------------------------------------------------ recovery after the crash

  /** What recovery says about the found segments. */
  ghost predicate Says(crc: Crc, s: Sys, left: seq<Seg>, found: seq<Seg>, cut: nat, r: Recovered)
    requires left != [] && |found| == |left|
  {
    var n := |left| - 1;
    && SegOk(s.hist, found[n]) && found[n].end <= |s.hist| < U64_MAX
    && r.sequence == found[n].end && r.values == Fold(s.hist, r.sequence) && r.high == left[n].id
    && r.lastGood == |SegBytes(crc, s.hist, found[n])| && r.torn == (LastCut(s, left, cut) != r.lastGood)
  }

  /** Every operation that the surviving files hold, the last one cut, can be read back. */
  ghost predicate Readback(crc: Crc, s: Sys, left: seq<Seg>, cut: nat) {
    left == [] || (AllOk(s.hist, Full(s, left)) && Legible(crc, s.hist, Full(s, left), LastCut(s, left, cut)))
  }

  lemma RecoverNoWal(reader: Reader, crc: Crc, hist: History, image: Image, at: nat)
    requires Sound(hist) && SnapOk(crc, hist, image.snapshot, at) && image.wals == []
    ensures at <= |hist| < U64_MAX && Recover(reader, crc, image) == Success(Recovered(Fold(hist, at), at, 0, 0, false))
  {
    hide Sound, Fold, Snap.ReadSnapshot;
    LoadsFold(reader, crc, hist, image.snapshot, at);
    SnapBound(crc, hist, image.snapshot, at);
  }

  lemma RecoverFound(reader: Reader, crc: Crc, s: Sys, left: seq<Seg>, at: nat, keep: nat -> bool, cut: nat)
    returns (r: Recovered)
    requires left != [] && FilesKnown(crc, s, left, cut) && Sound(s.hist) && Ascending(left)
    requires |Found(crc, s, left, cut)| == |left| && Reaches(s, left, Found(crc, s, left, cut), at)
    requires CrashNames(s, keep).wals == Ids(left) && SnapOk(crc, s.hist, CrashNames(s, keep).snapshot, at)
    requires Readback(crc, s, left, cut)
    ensures Recover(reader, crc, CrashImage(s, keep, cut)) == Success(r)
    ensures Says(crc, s, left, Found(crc, s, left, cut), cut, r)
  {
    var full, c, n := Full(s, left), LastCut(s, left, cut), |left| - 1;
    CutKeeps(crc, s.hist, left[n], full[n], Survivor(s, left[n].id, cut));
    ImageIsFiles(crc, s, left, keep, cut);
    hide SegBytes, Fold, SnapOk, Chain, Survivor, CrashNames, Sound, Cover, Recover, CutSeg;
    hide Legible;
    var found, snap := Found(crc, s, left, cut), CrashNames(s, keep).snapshot;
    RecoverImage(reader, crc, s.hist, snap, at, full, c);
    assert CrashImage(s, keep, cut) == Image(snap, Files(crc, s.hist, full, c));
    SameIds(full, left);
    HighIsLast(0, full);
    r := Recovered(Fold(s.hist, found[n].end), found[n].end, left[n].id, |SegBytes(crc, s.hist, found[n])|,
                   c != |SegBytes(crc, s.hist, found[n])|);
  }

  lemma FoundFails(reader: Reader, crc: Crc, s: Sys, left: seq<Seg>, at: nat, keep: nat -> bool, cut: nat)
    requires left != [] && FilesKnown(crc, s, left, cut) && Sound(s.hist) && Ascending(left)
    requires |Found(crc, s, left, cut)| == |left| && Reaches(s, left, Found(crc, s, left, cut), at)
    requires CrashNames(s, keep).wals == Ids(left) && SnapOk(crc, s.hist, CrashNames(s, keep).snapshot, at)
    requires !Readback(crc, s, left, cut)
    ensures Recover(reader, crc, CrashImage(s, keep, cut)).Failure?
  {
    var full, c, n := Full(s, left), LastCut(s, left, cut), |left| - 1;
    CutKeeps(crc, s.hist, left[n], full[n], Survivor(s, left[n].id, cut));
    ImageIsFiles(crc, s, left, keep, cut);
    hide SegBytes, Fold, SnapOk, Chain, Survivor, CrashNames, Sound, Cover, Recover, CutSeg;
    hide Legible;
    var snap := CrashNames(s, keep).snapshot;
    ImageFails(reader, crc, s.hist, snap, at, full, c);
    assert CrashImage(s, keep, cut) == Image(snap, Files(crc, s.hist, full, c));
  }

  lemma SameIds(a: seq<Seg>, b: seq<Seg>)
    requires |a| == |b| && (forall i :: 0 <= i < |a| ==> a[i].id == b[i].id) && Ascending(b)
    ensures Ascending(a) && Ids(a) == Ids(b)
  {
  }

  /** The recovered map and sequence, and the segments they come from. */
  ghost predicate RecoversTo(crc: Crc, s: Sys, gs: seq<Seg>, keep: nat -> bool, cut: nat, r: Recovered,
                             left: seq<Seg>, at: nat) {
    && s.durable <= r.sequence <= s.durable + |s.inflight| <= |s.hist| < U64_MAX
    && r.values == Fold(s.hist, r.sequence)
    && Survives(crc, s, gs, CrashNames(s, keep), left, at)
    && (left == [] ==> r == Recovered(Fold(s.hist, s.durable), s.durable, 0, 0, false))
    && (left != [] ==> FilesKnown(crc, s, left, cut) && FoundWell(crc, s, left, at, cut, r))
  }

  /** What is found and said of surviving segments. */
  ghost predicate FoundWell(crc: Crc, s: Sys, left: seq<Seg>, at: nat, cut: nat, r: Recovered)
    requires left != [] && FilesKnown(crc, s, left, cut)
  {
    var found, n := Found(crc, s, left, cut), |left| - 1;
    && |found| == |left| && Reaches(s, left, found, at) && Says(crc, s, left, found, cut, r)
    && CutWell(crc, s.hist, left[n], Full(s, left)[n], found[n], Survivor(s, left[n].id, cut))
  }

  /**
   * After a crash at any point, both readers recover if and only if every operation in the surviving files can
   * be read back; then they yield exactly the fold of the operations 1 to k for some k that is at least
   * durable_seq and at most the end of the batch in flight.
   */
  lemma CrashRecovers(crc: Crc, s: Sys, gs: seq<Seg>, s0: nat, keep: nat -> bool, cut: nat)
    returns (r: Recovered, left: seq<Seg>, at: nat)
    requires Inv(crc, s, gs, s0)
    ensures PipeInv(s) && FileInv(crc, s, gs) && Survives(crc, s, gs, CrashNames(s, keep), left, at)
    ensures Recover(Engine, crc, CrashImage(s, keep, cut)).Success? <==> Readback(crc, s, left, cut)
    ensures Recover(Migration, crc, CrashImage(s, keep, cut)).Success? <==> Readback(crc, s, left, cut)
    ensures Readback(crc, s, left, cut) ==> RecoversTo(crc, s, gs, keep, cut, r, left, at)
    ensures Readback(crc, s, left, cut) ==>
      Recover(Engine, crc, CrashImage(s, keep, cut)) == Recover(Migration, crc, CrashImage(s, keep, cut)) == Success(r)
  {
    hide DirInv, FileInv, PipeInv, Survives, RecoversTo, Recover, CrashNames, Readback;
    left, at := Survivors(crc, s, gs, s0, keep);
    if Readback(crc, s, left, cut) {
      r := SurvivorsRecover(crc, s, gs, left, at, keep, cut);
    } else {
      r := NOTHING;
      SurvivorsFail(crc, s, gs, left, at, keep, cut);
    }
  }

  /** What survives of the directory decides what recovery finds. */
  lemma SurvivorsRecover(crc: Crc, s: Sys, gs: seq<Seg>, left: seq<Seg>, at: nat, keep: nat -> bool, cut: nat)
    returns (r: Recovered)
    requires PipeInv(s) && FileInv(crc, s, gs) && Survives(crc, s, gs, CrashNames(s, keep), left, at)
    requires Readback(crc, s, left, cut)
    ensures Recover(Engine, crc, CrashImage(s, keep, cut)) == Success(r)
    ensures Recover(Migration, crc, CrashImage(s, keep, cut)) == Success(r)
    ensures RecoversTo(crc, s, gs, keep, cut, r, left, at)
  {
    hide DirInv, FileInv, PipeInv, SegBytes, Fold, SnapOk, Chain, Survivor, CrashNames, Sound;
    hide FilesKnown, Reaches, CutWell, Found, Recover, Readback;
    InflightBound(s);
    if left == [] {
      var image := CrashImage(s, keep, cut);
      NoIds();
      assert image.wals == [];
      RecoverNoWal(Engine, crc, s.hist, image, at);
      RecoverNoWal(Migration, crc, s.hist, image, at);
      r := Recovered(Fold(s.hist, s.durable), s.durable, 0, 0, false);
    } else {
      FullOk(crc, s, gs, left, cut);
      FoundReaches(crc, s, gs, left, at, cut);
      r := RecoverFound(Engine, crc, s, left, at, keep, cut);
      var m := RecoverFound(Migration, crc, s, left, at, keep, cut);
      FoundEnd(s, left, Found(crc, s, left, cut), at);
    }
  }

  lemma SurvivorsFail(crc: Crc, s: Sys, gs: seq<Seg>, left: seq<Seg>, at: nat, keep: nat -> bool, cut: nat)
    requires PipeInv(s) && FileInv(crc, s, gs) && Survives(crc, s, gs, CrashNames(s, keep), left, at)
    requires !Readback(crc, s, left, cut)
    ensures Recover(Engine, crc, CrashImage(s, keep, cut)).Failure?
    ensures Recover(Migration, crc, CrashImage(s, keep, cut)).Failure?
  {
    NotReadback(crc, s, left, cut);
    hide DirInv, FileInv, PipeInv, SegBytes, Fold, SnapOk, Chain, Survivor, CrashNames, Sound;
    hide FilesKnown, Reaches, CutWell, Found, Recover, Readback;
    InflightBound(s);
    FullOk(crc, s, gs, left, cut);
    FoundReaches(crc, s, gs, left, at, cut);
    FoundFails(Engine, crc, s, left, at, keep, cut);
    FoundFails(Migration, crc, s, left, at, keep, cut);
  }

  lemma NotReadback(crc: Crc, s: Sys, left: seq<Seg>, cut: nat)
    requires !Readback(crc, s, left, cut)
    ensures left != []
  {
  }

  lemma FoundEnd(s: Sys, left: seq<Seg>, found: seq<Seg>, at: nat)
    requires left != [] && |found| == |left| && Reaches(s, left, found, at)
    ensures s.durable <= found[|left| - 1].end <= s.durable + |s.inflight| <= |s.hist|
  {
  }
}
