/** One crash of the Python engine at any file step, and what loading finds. */
module PythonCrash {
  import opened Bytes
  import opened KeyOrder
  import opened Options
  import opened Store
  import W = SegmentWal
  import opened SegmentReplay
  import Snap = Snapshot
  import opened DirectoryRecovery
  import opened DiskModel
  import opened SegmentNames
  import opened PythonWal
  import PS = PythonSnapshot
  import opened PythonModel

  // ------------------------------------------------------------------ runs keep the invariant

  lemma StepKeepsInv(crc: Crc, s: Py, e: Step, gs: seq<Seg>) returns (gs': seq<Seg>)
    requires PyInv(crc, s, gs)
    ensures PyInv(crc, Next(crc, s, e), gs')
  {
    hide PyInv, Next;
    if e.Appended? || e.Rejected? || e.Fsynced? || e.OpenedNext? || e.Reopened? {
      gs' := SegmentStep(crc, s, e, gs);
    } else {
      gs' := SnapshotStep(crc, s, e, gs);
    }
  }

  lemma SegmentStep(crc: Crc, s: Py, e: Step, gs: seq<Seg>) returns (gs': seq<Seg>)
    requires PyInv(crc, s, gs) && (e.Appended? || e.Rejected? || e.Fsynced? || e.OpenedNext? || e.Reopened?)
    ensures PyInv(crc, Next(crc, s, e), gs')
  {
    hide PyInv, FilesOk, Append, Reject, Fsync, OpenNext, Reopen, Longer, Shorter, Storable;
    gs' := gs;
    NonEmpty(crc, s, gs);
    match e
    case Appended(op) =>
      if Append(crc, s, op) != s {
        gs' := Longer(s, gs);
        AppendMore(crc, s, op);
        MoreKeeps(crc, s, Append(crc, s, op), Some(op), gs);
      }
    case Rejected =>
      if Reject(s) != s { gs' := Longer(s, gs); RejectMore(s); MoreKeeps(crc, s, Reject(s), None, gs); }
    case Fsynced => FsyncKeeps(crc, s, gs);
    case OpenedNext => if OpenNext(s) != s { OpenRoom(s); gs' := gs + [NextSeg(s)]; OpenNextKeeps(crc, s, gs); }
    case Reopened => if Reopen(s) != s { gs' := Shorter(s, gs); ReopenKeeps(crc, s, gs); }
  }

  lemma SnapshotStep(crc: Crc, s: Py, e: Step, gs: seq<Seg>) returns (gs': seq<Seg>)
    requires PyInv(crc, s, gs) && !(e.Appended? || e.Rejected? || e.Fsynced? || e.OpenedNext? || e.Reopened?)
    ensures PyInv(crc, Next(crc, s, e), gs')
  {
    hide PyInv, WriteTmp, SyncTmp, Replace, Retire, FsyncDir;
    gs' := gs;
    match e
    case WroteTmp(n) => TmpOnly(crc, s, n); TmpKeepsNames(crc, s, WriteTmp(crc, s, n), gs);
    case SyncedTmp => TmpOnly(crc, s, 0); TmpKeepsNames(crc, s, SyncTmp(s), gs);
    case ReplacedSnapshot => ReplaceKeeps(crc, s, gs);
    case Retired(id) => RetireKeeps(crc, s, id, gs);
    case FsyncedDir => gs' := FsyncDirKeeps(crc, s, gs);
  }

  lemma NonEmpty(crc: Crc, s: Py, gs: seq<Seg>)
    requires PyInv(crc, s, gs)
    ensures gs != [] && FilesOk(crc, s, gs) && NamesOk(crc, s, gs) && s.installed <= s.durable <= |s.slots| < U64_MAX
  {
    hide FilesOk, SnapshotOk, Ids, SnapAt, StateAt;
    SegsThere(crc, s, gs);
  }

  lemma AppendMore(crc: Crc, s: Py, op: Operation)
    requires Append(crc, s, op) != s
    ensures s.stage == Ready && Storable(op) && |s.slots| + 1 < U64_MAX
    ensures Append(crc, s, op).slots == s.slots + [Some(op)]
  {
    hide Storable, Print;
  }

  lemma RejectMore(s: Py)
    requires Reject(s) != s
    ensures s.stage == Ready && |s.slots| + 1 < U64_MAX && Reject(s).slots == s.slots + [None]
  {
  }

  lemma OpenRoom(s: Py)
    requires OpenNext(s) != s
    ensures s.index < U64_MAX
  {
  }

  lemma TmpOnly(crc: Crc, s: Py, n: nat)
    ensures var t := WriteTmp(crc, s, n); t == s.(tmp := t.tmp)
    ensures var t := SyncTmp(s); t == s.(tmp := t.tmp)
  {
    hide SnapAt;
  }

  lemma {:induction false} RunKeepsInv(crc: Crc, s: Py, es: seq<Step>, gs: seq<Seg>) returns (gs': seq<Seg>)
    requires PyInv(crc, s, gs)
    ensures PyInv(crc, Run(crc, s, es), gs')
    decreases |es|
  {
    hide PyInv, Next;
    gs' := gs;
    if es != [] {
      gs' := StepKeepsInv(crc, s, es[0], gs);
      gs' := RunKeepsInv(crc, Next(crc, s, es[0]), es[1..], gs');
    }
  }

  lemma FreshRun(crc: Crc, es: seq<Step>) returns (gs: seq<Seg>)
    ensures PyInv(crc, Run(crc, FRESH, es), gs)
  {
    hide PyInv, Run, FRESH;
    FreshInv(crc);
    gs := RunKeepsInv(crc, FRESH, es, [Seg(0, 0, 0)]);
  }

  // ------------------------------------------------------------------ reading records in order

  /** The cursor that has applied everything up to number k. */
  function At(slots: Slots, k: nat): Cursor
    requires k <= |slots| < U64_MAX
  {
    Cursor(StateAt(slots, k), k, k + 1)
  }

  /** The last number up to b that a reading from k comes to: that of the last record, if there is one. */
  function Reach(slots: Slots, k: nat, b: nat): (r: nat)
    requires b <= |slots|
    ensures k <= r && (r <= k || r <= b)
    decreases b
  {
    if b <= k then k else if slots[b - 1].Some? then b else Reach(slots, k, b - 1)
  }

  /** Reading the records a + 1 to b at k skips those up to k, and goes on exactly as long as no number is missing. */
  lemma {:induction false} AcceptLogged(slots: Slots, a: nat, b: nat, k: nat)
    requires |slots| < U64_MAX && a <= b <= |slots| && a <= k <= |slots|
    ensures AcceptAll(At(slots, k), Logged(slots, a, b)) ==
      if Gapless(slots, k, b) then Some(At(slots, Reach(slots, k, b))) else None
    decreases b
  {
    if a < b {
      AcceptLogged(slots, a, b - 1, k);
      GaplessMore(slots, k, b);
      hide Gapless;
      if slots[b - 1].Some? {
        var r := W.Record(b, slots[b - 1].value);
        AcceptAllConcat(At(slots, k), Logged(slots, a, b - 1), [r]);
        AcceptSingle(At(slots, if b - 1 > k then Reach(slots, k, b - 1) else k), r);
      }
    }
  }

  lemma AcceptSingle(c: Cursor, r: W.Record)
    ensures AcceptAll(c, [r]) == Accept(c, r)
  {
    assert [r][1..] == [];
  }

  lemma GaplessMore(slots: Slots, k: nat, b: nat)
    requires 0 < b <= |slots|
    ensures Gapless(slots, k, b) <==>
      Gapless(slots, k, b - 1) && (b - 1 > k && slots[b - 1].Some? ==> slots[b - 2].Some?)
  {
  }

  /** From k to what is reached nothing is missing: there are no operations after it, up to b. */
  lemma {:induction false} ReachLast(slots: Slots, k: nat, b: nat)
    requires b <= |slots|
    ensures forall i :: Reach(slots, k, b) <= i < b ==> slots[i].None?
    decreases b
  {
    if k < b && slots[b - 1].None? { ReachLast(slots, k, b - 1); }
  }

  /** Records that are covered change nothing. */
  lemma {:induction false} SkipAll(c: Cursor, rs: seq<W.Record>)
    requires forall i :: 0 <= i < |rs| ==> rs[i].sequence <= c.sequence
    ensures AcceptAll(c, rs) == Some(c)
    decreases |rs|
  {
    if rs != [] { SkipAll(c, rs[1..]); }
  }

  lemma {:induction false} LoggedNumbers(slots: Slots, a: nat, b: nat)
    requires a <= b <= |slots| < U64_MAX
    ensures forall i :: 0 <= i < |Logged(slots, a, b)| ==> Logged(slots, a, b)[i].sequence <= b
    ensures Stored(slots) ==> AllStorable(Logged(slots, a, b))
    decreases b
  {
    hide Storable;
    if a < b { LoggedNumbers(slots, a, b - 1); }
  }

  /** The first w records of a part of the log are those up to some number, and one after d if they reach it. */
  lemma {:induction false} LoggedTake(slots: Slots, a: nat, d: nat, b: nat, w: nat) returns (e: nat)
    requires a <= d <= b <= |slots| < U64_MAX && |Logged(slots, a, d)| <= w <= |Logged(slots, a, b)|
    ensures d <= e <= b && Logged(slots, a, e) == Logged(slots, a, b)[..w]
    ensures w == |Logged(slots, a, b)| ==> e == b
    decreases b
  {
    var rs := Logged(slots, a, b);
    if w == |rs| {
      e := b;
      assert rs[..w] == rs;
    } else {
      if d < b { LoggedLonger(slots, a, d, b); }
      e := LoggedTake(slots, a, d, b - 1, w);
      assert rs[..w] == Logged(slots, a, b - 1)[..w];
    }
  }

  lemma LoggedLonger(slots: Slots, a: nat, d: nat, b: nat)
    requires a <= d < b <= |slots| < U64_MAX
    ensures |Logged(slots, a, d)| <= |Logged(slots, a, b - 1)| <= |Logged(slots, a, b)|
  {
    LoggedSplit(slots, a, d, b - 1);
    LoggedSplit(slots, a, b - 1, b);
  }

  // ------------------------------------------------------------------ loading what is left

  /** The records that are whole in what is left of a segment. */
  ghost function LeftRecords(crc: Crc, s: Py, g: Seg, cut: nat): seq<W.Record>
    requires SegIn(s.slots, g)
  {
    var rs := Logged(s.slots, g.base, g.end);
    rs[..Whole(crc, rs, |Remains(s, g.id, cut)|)]
  }

  /** What reading records from a cursor gives: a gap is an error. */
  function Outcome(c: Cursor, rs: seq<W.Record>): Result<Cursor, LoadError> {
    match AcceptAll(c, rs)
    case None => Failure(Gap)
    case Some(c') => Success(c')
  }

  lemma LeftLoads(crc: Crc, s: Py, g: Seg, cut: nat, c: Cursor)
    requires Stored(s.slots) && FileOk(crc, s, g)
    ensures SegIn(s.slots, g) && LoadFile(crc, c, Remains(s, g.id, cut)) == Outcome(c, LeftRecords(crc, s, g, cut))
  {
    hide LoadFile, AcceptAll, Storable, PrintAll, Whole, Logged, Stored, StateAt;
    var rs, b := Logged(s.slots, g.base, g.end), Remains(s, g.id, cut);
    LoggedNumbers(s.slots, g.base, g.end);
    var all := PrintAll(crc, rs);
    assert all[..|all|] == all;
    assert b == all[..|b|];
    LoadCut(crc, c, rs, |b|);
  }

  ghost predicate KnownFiles(crc: Crc, s: Py, left: seq<Seg>) {
    forall i :: 0 <= i < |left| ==> FileOk(crc, s, left[i])
  }

  ghost function FilesOf(s: Py, left: seq<Seg>, cut: nat): (r: seq<Bytes>)
    ensures |r| == |left|
  {
    seq(|left|, i requires 0 <= i < |left| => Remains(s, left[i].id, cut))
  }

  /** The whole records of all segments that are left, in order. */
  ghost function AllLeft(crc: Crc, s: Py, left: seq<Seg>, cut: nat): seq<W.Record>
    decreases |left|
  {
    if left == [] then []
    else (if SegIn(s.slots, left[0]) then LeftRecords(crc, s, left[0], cut) else []) + AllLeft(crc, s, left[1..], cut)
  }

  lemma {:induction false} FilesLoad(crc: Crc, s: Py, left: seq<Seg>, cut: nat, c: Cursor)
    requires Stored(s.slots) && KnownFiles(crc, s, left)
    ensures LoadFiles(crc, c, FilesOf(s, left, cut)) == Outcome(c, AllLeft(crc, s, left, cut))
    decreases |left|
  {
    hide LoadFile, FileOk, Stored, LeftRecords, Remains, StateAt;
    if left != [] {
      var files := FilesOf(s, left, cut);
      LeftLoads(crc, s, left[0], cut, c);
      assert FilesOf(s, left[1..], cut) == files[1..];
      AcceptAllConcat(c, LeftRecords(crc, s, left[0], cut), AllLeft(crc, s, left[1..], cut));
      var c' := AcceptAll(c, LeftRecords(crc, s, left[0], cut));
      if c'.Some? { FilesLoad(crc, s, left[1..], cut, c'.value); }
    }
  }

  lemma {:induction false} AllLeftConcat(crc: Crc, s: Py, a: seq<Seg>, b: seq<Seg>, cut: nat)
    ensures AllLeft(crc, s, a + b, cut) == AllLeft(crc, s, a, cut) + AllLeft(crc, s, b, cut)
    decreases |a|
  {
    hide LeftRecords;
    if a == [] {
      assert a + b == b;
    } else {
      assert (a + b)[1..] == a[1..] + b;
      AllLeftConcat(crc, s, a[1..], b, cut);
    }
  }

  /** Nothing in them carries a number above the last one taken. */
  lemma {:induction false} AllLeftNumbers(crc: Crc, s: Py, left: seq<Seg>, cut: nat)
    requires |s.slots| < U64_MAX
    ensures forall i :: 0 <= i < |AllLeft(crc, s, left, cut)| ==> AllLeft(crc, s, left, cut)[i].sequence <= |s.slots|
    decreases |left|
  {
    hide Logged, Whole;
    if left != [] {
      if SegIn(s.slots, left[0]) { LoggedNumbers(s.slots, left[0].base, left[0].end); }
      AllLeftNumbers(crc, s, left[1..], cut);
    }
  }

  /** The active file is cut nowhere. */
  predicate Uncut(s: Py, cut: nat) {
    s.index in s.disk.files && |Remains(s, s.index, cut)| == |s.disk.files[s.index].bytes|
  }

  /** What is left of the active segment: everything up to some number that is not below what is synced. */
  lemma LeftActive(crc: Crc, s: Py, g: Seg, cut: nat) returns (e: nat)
    requires FileOk(crc, s, g) && g.id == s.index && s.durable <= |s.slots|
    ensures SegIn(s.slots, g) && s.durable <= e <= |s.slots| && g.base <= e
    ensures LeftRecords(crc, s, g, cut) == Logged(s.slots, g.base, e)
    ensures Uncut(s, cut) ==> e == |s.slots|
  {
    hide PrintAll, Whole, Logged, BaseOk;
    var rs, b := Logged(s.slots, g.base, g.end), Remains(s, g.id, cut);
    LoggedSplit(s.slots, g.base, s.durable, g.end);
    var mine := Logged(s.slots, g.base, s.durable);
    assert rs[..|mine|] == mine && rs[..|rs|] == rs;
    WholeAtLeast(crc, rs, |b|, |mine|);
    if Uncut(s, cut) { WholeAtLeast(crc, rs, |b|, |rs|); }
    e := LoggedTake(s.slots, g.base, s.durable, g.end, Whole(crc, rs, |b|));
  }

  lemma LeftClosed(crc: Crc, s: Py, g: Seg, cut: nat)
    requires FileOk(crc, s, g) && g.id != s.index
    ensures SegIn(s.slots, g) && LeftRecords(crc, s, g, cut) == Logged(s.slots, g.base, g.end)
  {
    hide PrintAll, Whole, Logged;
    var rs := Logged(s.slots, g.base, g.end);
    assert rs[..|rs|] == rs;
    WholeAtLeast(crc, rs, |PrintAll(crc, rs)|, |rs|);
  }

  /** Joined segments from the i-th on, the last one cut, hold what was logged up to some number. */
  lemma {:induction false} JoinedLeft(crc: Crc, s: Py, gs: seq<Seg>, cut: nat, i: nat) returns (e: nat)
    requires FilesOk(crc, s, gs) && i < |gs|
    ensures SegIn(s.slots, gs[i]) && gs[i].base <= e && s.durable <= e <= |s.slots| < U64_MAX
    ensures AllLeft(crc, s, gs[i..], cut) == Logged(s.slots, gs[i].base, e)
    ensures Uncut(s, cut) ==> e == |s.slots|
    decreases |gs| - i
  {
    hide FileOk, Stored, LeftRecords, Logged;
    var g, n := gs[i], |gs| - 1;
    ActiveIs(crc, s, gs);
    SegFileOk(crc, s, g);
    if i == n {
      e := LeftActive(crc, s, g, cut);
      assert gs[n..] == [g];
      AllLeftOne(crc, s, g, cut);
    } else {
      e := JoinedLeft(crc, s, gs, cut, i + 1);
      assert gs[i..][1..] == gs[i + 1..] && gs[i..][0] == g;
      LeftClosed(crc, s, g, cut);
      assert g.end == gs[i + 1].base;
      LoggedSplit(s.slots, g.base, g.end, e);
    }
  }

  lemma AllLeftOne(crc: Crc, s: Py, g: Seg, cut: nat)
    requires SegIn(s.slots, g)
    ensures AllLeft(crc, s, [g], cut) == LeftRecords(crc, s, g, cut)
  {
    hide LeftRecords;
    assert [g][1..] == [];
  }

  lemma LoadsSnapshot(crc: Crc, slots: Slots, image: Image, k: nat)
    requires Stored(slots) && SnapshotOk(crc, slots, image.snapshot, k)
    ensures k <= |slots| < U64_MAX && Load(crc, image) == LoadFiles(crc, At(slots, k), image.wals)
  {
    hide PS.SnapshotBytes, PS.ReadSnapshot, Listing, Snap.PutAll, Storable, LoadFiles;
    var m := StateAt(slots, k);
    if image.snapshot.Some? {
      ListingLists(m);
      StateStorable(slots, k);
      ListingStorable(m);
      PS.SnapshotBack(crc, k, Listing(m));
      Snap.PutAllLists(m, Listing(m));
    }
  }

  lemma {:induction false} StateStorable(slots: Slots, k: nat)
    requires Stored(slots) && k <= |slots|
    ensures forall key :: key in StateAt(slots, k) ==> |key| < 0x1_0000_0000 && |StateAt(slots, k)[key]| == 8
    decreases k
  {
    if k > 0 { StateStorable(slots, k - 1); }
  }

  lemma ListingStorable(m: Map)
    requires forall key :: key in m ==> |key| < 0x1_0000_0000 && |m[key]| == 8
    ensures PS.AllStorableItems(Listing(m))
  {
    hide Listing;
    ListingLists(m);
    var items := Listing(m);
    forall i | 0 <= i < |items| ensures PS.StorableItem(items[i]) {
      assert items[i] in items;
    }
  }

  // ------------------------------------------------------------------ which segments are left

  /** The entry of the first segment is in the directory, synced before or kept by the crash. */
  predicate FirstKept(s: Py, keep: nat -> bool) {
    s.disk.names.wals != [] || keep(0)
  }

  /** The directory after the crash. */
  function Survived(s: Py, keep: nat -> bool): Names {
    Kept(s.disk.names, s.disk.pending, keep)
  }

  /** Nothing but the entry of the first segment was kept. */
  ghost predicate OnlyFirst(s: Py, keep: nat -> bool) {
    forall i: nat :: keep(i) ==> i < |First(s)|
  }

  /** What the crash leaves of the directory when the first entry is there. */
  lemma CrashNamesOf(crc: Crc, s: Py, gs: seq<Seg>, keep: nat -> bool) returns (left: seq<Seg>, at: nat)
    requires gs != [] && NamesOk(crc, s, gs) && gs[|gs| - 1].id == s.index && |s.slots| < U64_MAX && FirstKept(s, keep)
    requires Ascending(gs) && s.durable <= |s.slots|
    ensures Survived(s, keep).wals == Ids(left)
    ensures SnapshotOk(crc, s.slots, Survived(s, keep).snapshot, at) && s.installed <= at <= |s.slots|
    ensures OnlyFirst(s, keep) ==> at == s.installed
    ensures left == gs || (left == gs[..|gs| - 1] && gs[|gs| - 1].base == |s.slots|)
      || (Among(left, gs) && s.installed == |s.slots|)
  {
    hide SnapshotOk, SnapAt, StateAt, Kept, Ids;
    var n, names, first := |gs| - 1, s.disk.names, First(s);
    left, at := gs, s.installed;
    KeepFirst(names, keep);
    KeepTwo(names, first, AddWal(s.index), keep);
    KeepTwo(names, first, SetSnapshot(SnapAt(crc, s.slots, |s.slots|)), keep);
    KeepTwo(names, [], AddWal(s.index), keep);
    assert [] + [AddWal(s.index)] == [AddWal(s.index)];
    SplitIds(gs);
    match s.stage
    case Ready =>
    case Replaced => if keep(|first|) { at := |s.slots|; SnapshotIs(crc, s.slots); }
    case Rotating => if !keep(|first|) { left := gs[..n]; }
    case Installed =>
    case Started => if !keep(0) { left := gs[..n]; }
    case Retiring =>
      left := RemovedSegs(names, s.disk.pending, keep, gs, s.index);
      RemovalsOnly(names, s.disk.pending, keep);
  }

  lemma SplitIds(gs: seq<Seg>)
    requires gs != []
    ensures Ids(gs) == Ids(gs[..|gs| - 1]) + [gs[|gs| - 1].id]
    ensures |gs| == 1 ==> Ids(gs) == [gs[0].id]
    ensures |gs| == 2 ==> Ids(gs[..1]) == [gs[0].id]
  {
  }

  lemma KeepFirst(n: Names, keep: nat -> bool)
    ensures Kept(n, [AddWal(0)], keep) == if keep(0) then Changed(n, AddWal(0)) else n
    ensures Kept(n, [], keep) == n
  {
    KeepTwo(n, [], AddWal(0), keep);
    assert [] + [AddWal(0)] == [AddWal(0)];
  }

  // ------------------------------------------------------------------ the crash

  lemma LeavesImage(s: Py, left: seq<Seg>, keep: nat -> bool, cut: nat)
    requires Survived(s, keep).wals == Ids(left)
    ensures CrashLeaves(s, keep, cut) == Image(Survived(s, keep).snapshot, FilesOf(s, left, cut))
  {
    hide Kept, Remains;
  }

  /** Some of the segments load as what their whole records make of the snapshot. */
  lemma LeftOverLoads(crc: Crc, s: Py, left: seq<Seg>, at: nat, keep: nat -> bool, cut: nat)
    requires Stored(s.slots) && KnownFiles(crc, s, left) && Survived(s, keep).wals == Ids(left)
    requires SnapshotOk(crc, s.slots, Survived(s, keep).snapshot, at)
    ensures at <= |s.slots| < U64_MAX
    ensures Load(crc, CrashLeaves(s, keep, cut)) == Outcome(At(s.slots, at), AllLeft(crc, s, left, cut))
  {
    hide Survived, Remains, StateAt, SnapshotOk, LoadFiles, Load, Stored, KnownFiles, AllLeft, Outcome;
    LeavesImage(s, left, keep, cut);
    LoadsSnapshot(crc, s.slots, CrashLeaves(s, keep, cut), at);
    FilesLoad(crc, s, left, cut, At(s.slots, at));
  }

  /** Loading comes from at to the last number up to e, exactly when no number is missing on the way. */
  ghost predicate LoadsTo(crc: Crc, s: Py, keep: nat -> bool, cut: nat, at: nat, e: nat) {
    && s.installed <= at <= |s.slots| < U64_MAX && s.durable <= e <= |s.slots|
    && Load(crc, CrashLeaves(s, keep, cut)) ==
       if Gapless(s.slots, at, e) then Success(At(s.slots, Reach(s.slots, at, e))) else Failure(Gap)
  }

  /** With the first entry in the directory, loading reads on from the snapshot to at least what is synced. */
  lemma KeptLoads(crc: Crc, s: Py, gs: seq<Seg>, keep: nat -> bool, cut: nat) returns (at: nat, e: nat)
    requires PyInv(crc, s, gs) && FirstKept(s, keep)
    ensures LoadsTo(crc, s, keep, cut, at, e)
    ensures OnlyFirst(s, keep) ==> at == s.installed
    ensures Uncut(s, cut) ==> e == |s.slots|
  {
    hide NamesOk, FileOk, SnapshotOk, Stored, AllLeft, Survived, Load, StateAt, Gapless, Logged, Remains;
    hide FirstKept, OnlyFirst, Uncut;
    NonEmpty(crc, s, gs);
    ActiveIs(crc, s, gs);
    var left;
    left, at := CrashNamesOf(crc, s, gs, keep);
    KnownPart(crc, s, gs, left);
    LeftOverLoads(crc, s, left, at, keep, cut);
    if left == gs || (left == gs[..|gs| - 1] && gs[|gs| - 1].base == |s.slots|) {
      e := JoinedLeft(crc, s, gs, cut, 0);
      assert gs[0..] == gs;
      if left != gs { NewestEmpty(crc, s, gs, cut); }
      FirstBelow(crc, s, gs);
      AcceptLogged(s.slots, gs[0].base, e, at);
    } else {
      e := |s.slots|;
      AllLeftNumbers(crc, s, left, cut);
      SkipAll(At(s.slots, at), AllLeft(crc, s, left, cut));
      NothingLeft(s.slots);
    }
  }

  lemma NothingLeft(slots: Slots)
    ensures Gapless(slots, |slots|, |slots|) && Reach(slots, |slots|, |slots|) == |slots|
  {
  }

  lemma KnownPart(crc: Crc, s: Py, gs: seq<Seg>, left: seq<Seg>)
    requires FilesOk(crc, s, gs) && (left == gs || left == gs[..|gs| - 1] || Among(left, gs))
    ensures KnownFiles(crc, s, left) && Stored(s.slots)
  {
    hide FileOk, Stored;
    forall i | 0 <= i < |left| ensures FileOk(crc, s, left[i]) {
      assert left[i] in gs;
    }
  }

  /** A segment that has just been started adds nothing. */
  lemma NewestEmpty(crc: Crc, s: Py, gs: seq<Seg>, cut: nat)
    requires FilesOk(crc, s, gs) && gs[|gs| - 1].base == |s.slots|
    ensures AllLeft(crc, s, gs[..|gs| - 1], cut) == AllLeft(crc, s, gs, cut)
  {
    hide FileOk, Stored;
    var n := |gs| - 1;
    SegFileOk(crc, s, gs[n]);
    assert gs == gs[..n] + [gs[n]];
    AllLeftConcat(crc, s, gs[..n], [gs[n]], cut);
    AllLeftOne(crc, s, gs[n], cut);
    assert Logged(s.slots, gs[n].base, gs[n].end) == [];
  }

  lemma FirstBelow(crc: Crc, s: Py, gs: seq<Seg>)
    requires gs != [] && NamesOk(crc, s, gs)
    ensures gs[0].base <= s.installed
  {
    hide SnapshotOk, Ids, SnapAt, StateAt;
  }

  /** Where loading comes to when the entry of the first segment is lost. */
  function LostTo(s: Py, keep: nat -> bool): nat {
    if s.stage == Replaced && keep(1) then |s.slots| else 0
  }

  /** Without the first entry, only a snapshot that was just renamed can be found. */
  lemma LostNames(crc: Crc, s: Py, gs: seq<Seg>, keep: nat -> bool)
    requires gs != [] && NamesOk(crc, s, gs) && !FirstKept(s, keep) && |s.slots| < U64_MAX
    ensures SnapshotOk(crc, s.slots, Survived(s, keep).snapshot, LostTo(s, keep))
    ensures Survived(s, keep).wals == if s.stage == Rotating && keep(1) then [s.index] else []
    ensures s.stage == Rotating ==> gs[|gs| - 1].base == |s.slots|
  {
    hide SnapshotOk, SnapAt, StateAt, Kept, Ids;
    var names, first := s.disk.names, First(s);
    KeepFirst(names, keep);
    KeepTwo(names, first, AddWal(s.index), keep);
    KeepTwo(names, first, SetSnapshot(SnapAt(crc, s.slots, |s.slots|)), keep);
    if s.stage == Replaced && keep(1) { SnapshotIs(crc, s.slots); }
  }

  lemma EmptyRemains(crc: Crc, s: Py, g: Seg, cut: nat)
    requires FileOk(crc, s, g) && g.id == s.index && g.base == |s.slots|
    ensures Remains(s, s.index, cut) == []
  {
    assert Logged(s.slots, g.base, g.end) == [];
  }

  lemma LostLoads(crc: Crc, s: Py, gs: seq<Seg>, keep: nat -> bool, cut: nat)
    requires PyInv(crc, s, gs) && !FirstKept(s, keep)
    ensures LostTo(s, keep) <= |s.slots| < U64_MAX
    ensures Load(crc, CrashLeaves(s, keep, cut)) == Success(At(s.slots, LostTo(s, keep)))
  {
    hide NamesOk, FileOk, Kept, Remains, SnapshotOk, Stored, StateAt, Load, LoadFile, FirstKept;
    NonEmpty(crc, s, gs);
    ActiveIs(crc, s, gs);
    LostNames(crc, s, gs, keep);
    LoadsSnapshot(crc, s.slots, CrashLeaves(s, keep, cut), LostTo(s, keep));
    var c, wals := At(s.slots, LostTo(s, keep)), CrashLeaves(s, keep, cut).wals;
    if s.stage == Rotating && keep(1) {
      EmptyRemains(crc, s, gs[|gs| - 1], cut);
      LoadNothing(crc, c);
      assert wals == [[]] && wals[1..] == [];
    } else {
      assert wals == [];
    }
  }

  lemma LoadNothing(crc: Crc, c: Cursor)
    ensures LoadFile(crc, c, []) == Success(c)
  {
  }

  /**
   * After any run, and one crash at any file step: with the entry of the first segment, loading reads on from a
   * snapshot to at least what is synced, and fails exactly when a number is missing on the way; without it, loading
   * finds nothing or the snapshot just renamed.
   */
  lemma CrashOnce(crc: Crc, es: seq<Step>, keep: nat -> bool, cut: nat) returns (at: nat, e: nat)
    ensures var s := Run(crc, FRESH, es); FirstKept(s, keep) ==> LoadsTo(crc, s, keep, cut, at, e)
    ensures var s := Run(crc, FRESH, es);
      FirstKept(s, keep) || (LostTo(s, keep) <= |s.slots| < U64_MAX
        && Load(crc, CrashLeaves(s, keep, cut)) == Success(At(s.slots, LostTo(s, keep))))
  {
    hide PyInv, LoadsTo, Load, CrashLeaves, Run, FRESH, OnlyFirst, Uncut;
    var s := Run(crc, FRESH, es);
    var gs := FreshRun(crc, es);
    at, e := 0, 0;
    if FirstKept(s, keep) {
      at, e := KeptLoads(crc, s, gs, keep, cut);
    } else {
      LostLoads(crc, s, gs, keep, cut);
    }
  }

  // ------------------------------------------------------------------ what every crash keeps

  /** Loading succeeds, with the operations up to some number and every synced one among them. */
  ghost predicate LoadsSynced(crc: Crc, s: Py, keep: nat -> bool, cut: nat) {
    |s.slots| < U64_MAX && s.durable <= |s.slots|
    && exists k :: LoadsAt(crc, s, keep, cut, k) && NoneFrom(s.slots, k, s.durable)
  }

  ghost predicate LoadsAt(crc: Crc, s: Py, keep: nat -> bool, cut: nat, k: nat) {
    k <= |s.slots| < U64_MAX && Load(crc, CrashLeaves(s, keep, cut)) == Success(At(s.slots, k))
  }

  /** No operation was logged under the numbers k + 1 to d. */
  predicate NoneFrom(slots: Slots, k: nat, d: nat) {
    forall i :: k <= i < d && i < |slots| ==> slots[i].None?
  }

  /**
   * When no crash can lose a synced operation or leave a directory that does not load: the entry of the first
   * segment is synced, or nothing is; and since the last installed snapshot no operation was logged after a
   * rejected one.
   */
  predicate CrashProof(s: Py)
    requires s.installed <= |s.slots|
  {
    (s.disk.names.wals != [] || NoneFrom(s.slots, 0, s.durable)) && Gapless(s.slots, s.installed, |s.slots|)
  }

  lemma GaplessPart(slots: Slots, a: nat, b: nat, at: nat, e: nat)
    requires b <= |slots| && e <= b && a <= at && Gapless(slots, a, b)
    ensures Gapless(slots, at, e)
  {
  }

  /** One crash of a state that is crash proof. */
  lemma ProofLoads(crc: Crc, s: Py, gs: seq<Seg>, keep: nat -> bool, cut: nat) returns (k: nat)
    requires PyInv(crc, s, gs) && s.installed <= |s.slots| && CrashProof(s)
    ensures LoadsAt(crc, s, keep, cut, k) && NoneFrom(s.slots, k, s.durable)
  {
    hide PyInv, Load, CrashLeaves, StateAt, Gapless, OnlyFirst, Uncut;
    if FirstKept(s, keep) {
      var at, e := KeptLoads(crc, s, gs, keep, cut);
      GaplessPart(s.slots, s.installed, |s.slots|, at, e);
      ReachLast(s.slots, at, e);
      k := Reach(s.slots, at, e);
    } else {
      LostLoads(crc, s, gs, keep, cut);
      k := LostTo(s, keep);
    }
  }

  /** A gap, and a crash that keeps everything that was synced or written: the directory does not load. */
  lemma GapFails(crc: Crc, s: Py, gs: seq<Seg>)
    requires PyInv(crc, s, gs) && s.installed <= |s.slots| && !Gapless(s.slots, s.installed, |s.slots|)
    ensures s.index in s.disk.files
    ensures Load(crc, CrashLeaves(s, i => i < |First(s)|, |s.disk.files[s.index].bytes|)) == Failure(Gap)
  {
    hide PyInv, Load, StateAt, Gapless, FilesOk, NamesOk;
    NonEmpty(crc, s, gs);
    ActiveThere(crc, s, gs);
    var keep, cut := i => i < |First(s)|, |s.disk.files[s.index].bytes|;
    var at, e := KeptLoads(crc, s, gs, keep, cut);
  }

  lemma ActiveThere(crc: Crc, s: Py, gs: seq<Seg>)
    requires FilesOk(crc, s, gs)
    ensures s.index in s.disk.files && s.disk.files[s.index].synced <= |s.disk.files[s.index].bytes|
  {
    hide FileOk;
    ActiveIs(crc, s, gs);
    FileThere(crc, s, gs[|gs| - 1]);
  }

  lemma FileThere(crc: Crc, s: Py, g: Seg)
    requires FileOk(crc, s, g) && g.id == s.index
    ensures s.index in s.disk.files && s.disk.files[s.index].synced <= |s.disk.files[s.index].bytes|
  {
  }

  /** Cursors at different numbers differ. */
  lemma AtNumber(slots: Slots, k: nat, j: nat)
    requires k <= |slots| < U64_MAX && j <= |slots| && At(slots, k) == At(slots, j)
    ensures k == j
  {
  }

  /**
   * After any run of writes, rejected writes, rotations, checkpoints and clean reopenings from an empty directory:
   * every crash leaves a directory that loads with every synced operation if and only if the state is crash proof.
   */
  lemma EveryCrash(crc: Crc, es: seq<Step>)
    ensures var s := Run(crc, FRESH, es);
      && s.installed <= |s.slots|
      && ((forall keep: nat -> bool, cut: nat :: LoadsSynced(crc, s, keep, cut)) <==> CrashProof(s))
  {
    hide PyInv, LoadsAt, Run, CrashProof, NoneFrom, FRESH;
    var s := Run(crc, FRESH, es);
    var gs := FreshRun(crc, es);
    Bounds(crc, s, gs);
    if CrashProof(s) {
      forall keep: nat -> bool, cut: nat ensures LoadsSynced(crc, s, keep, cut) {
        var k := ProofLoads(crc, s, gs, keep, cut);
      }
    } else {
      var keep, cut := NotProof(crc, s, gs);
      assert !LoadsSynced(crc, s, keep, cut);
    }
  }

  lemma Bounds(crc: Crc, s: Py, gs: seq<Seg>)
    requires PyInv(crc, s, gs)
    ensures s.installed <= s.durable <= |s.slots| < U64_MAX && (s.stage != Ready ==> s.durable == |s.slots|)
  {
    hide FilesOk, NamesOk;
    NonEmpty(crc, s, gs);
    SegsThere(crc, s, gs);
  }

  /** A crash that shows that the state is not crash proof. */
  lemma NotProof(crc: Crc, s: Py, gs: seq<Seg>) returns (keep: nat -> bool, cut: nat)
    requires PyInv(crc, s, gs) && s.installed <= |s.slots| && !CrashProof(s)
    ensures !LoadsSynced(crc, s, keep, cut)
  {
    hide PyInv, Load, CrashLeaves, StateAt, Gapless;
    Bounds(crc, s, gs);
    if !Gapless(s.slots, s.installed, |s.slots|) {
      GapFails(crc, s, gs);
      keep, cut := i => i < |First(s)|, |s.disk.files[s.index].bytes|;
    } else {
      keep, cut := _ => false, 0;
      LostLoads(crc, s, gs, keep, cut);
      forall k | LoadsAt(crc, s, keep, cut, k) ensures k == 0 {
        AtNumber(s.slots, k, 0);
      }
    }
  }

  /** Inside a rotation or a checkpoint of a crash-proof engine, a crash loses nothing at all. */
  lemma CheckpointLosesNothing(crc: Crc, es: seq<Step>, keep: nat -> bool, cut: nat)
    requires var s := Run(crc, FRESH, es); s.installed <= |s.slots| && s.stage != Ready && CrashProof(s)
    ensures var s := Run(crc, FRESH, es); var l := Load(crc, CrashLeaves(s, keep, cut));
      l.Success? && l.value.values == StateAt(s.slots, |s.slots|)
  {
    hide PyInv, Run, Load, CrashLeaves, CrashProof, FRESH;
    var s := Run(crc, FRESH, es);
    var gs := FreshRun(crc, es);
    Bounds(crc, s, gs);
    var k := ProofLoads(crc, s, gs, keep, cut);
    StateRest(s.slots, k, |s.slots|);
  }

  /** Numbers without operations do not change the map. */
  lemma {:induction false} StateRest(slots: Slots, k: nat, b: nat)
    requires k <= b <= |slots| && NoneFrom(slots, k, b)
    ensures StateAt(slots, b) == StateAt(slots, k)
    decreases b
  {
    if k < b { StateRest(slots, k, b - 1); }
  }

  // ------------------------------------------------------------------ witnesses

  /** A synced first operation that a crash loses: the directory was not synced since its segment appeared. */
  lemma FirstEntryLost(crc: Crc, op: Operation, cut: nat)
    requires Storable(op)
    ensures var s := Run(crc, FRESH, [Appended(op), Fsynced]);
      s.durable == 1 && |s.slots| == 1 && Load(crc, CrashLeaves(s, _ => false, cut)) == Success(At(s.slots, 0))
  {
    hide Print, Storable, Load, CrashLeaves;
    assert [Appended(op), Fsynced][1..] == [Fsynced] && [Fsynced][1..] == [];
    var s := Run(crc, FRESH, [Appended(op), Fsynced]);
    var gs := FreshRun(crc, [Appended(op), Fsynced]);
    hide PyInv;
    LostLoads(crc, s, gs, _ => false, cut);
  }

  /** A rejected put, a put and an fsync: what is on disk does not load, though no crash lost anything. */
  lemma RejectedPutBreaks(crc: Crc, op: Operation)
    requires Storable(op)
    ensures var s := Run(crc, FRESH, [Rejected, Appended(op), Fsynced]);
      && s.slots == [None, Some(op)] && s.index in s.disk.files
      && s.disk.files[s.index].synced == |s.disk.files[s.index].bytes|
      && Load(crc, CrashLeaves(s, i => i < 1, |s.disk.files[s.index].bytes|)) == Failure(Gap)
  {
    hide Print, Storable, Load, CrashLeaves, Run, PyInv;
    var es := [Rejected, Appended(op), Fsynced];
    RunThree(crc, FRESH, Rejected, Appended(op), Fsynced);
    var s := Run(crc, FRESH, es);
    var gs := FreshRun(crc, es);
    assert s.slots == [None, Some(op)] && s.slots[1].Some? && s.slots[0].None?;
    GapFails(crc, s, gs);
    SameLeaves(s, i => i < |First(s)|, i => i < 1, |s.disk.files[s.index].bytes|);
  }

  lemma RunThree(crc: Crc, s: Py, a: Step, b: Step, c: Step)
    ensures Run(crc, s, [a, b, c]) == Next(crc, Next(crc, Next(crc, s, a), b), c)
  {
    hide Next;
    assert [a, b, c][1..] == [b, c] && [b, c][1..] == [c] && [c][1..] == [];
    var t := Next(crc, s, a);
    var u := Next(crc, t, b);
    assert Run(crc, t, [b, c]) == Run(crc, u, [c]) == Run(crc, Next(crc, u, c), []);
  }

  lemma SameLeaves(s: Py, a: nat -> bool, b: nat -> bool, cut: nat)
    requires forall i: nat :: a(i) == b(i)
    ensures CrashLeaves(s, a, cut) == CrashLeaves(s, b, cut)
  {
    SameKept(s.disk.names, s.disk.pending, a, b);
  }

  lemma {:induction false} SameKept(n: Names, cs: seq<Change>, a: nat -> bool, b: nat -> bool)
    requires forall i: nat :: a(i) == b(i)
    ensures Kept(n, cs, a) == Kept(n, cs, b)
    decreases |cs|
  {
    if cs != [] { SameKept(n, cs[..|cs| - 1], a, b); }
  }
}
