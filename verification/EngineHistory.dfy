/** What segments and snapshots say about a history of operations, and what recovery makes of them. */
module EngineHistory {
  import opened Bytes
  import opened KeyOrder
  import opened Options
  import opened Store
  import W = SegmentWal
  import opened SegmentReplay
  import Snap = Snapshot
  import opened DirectoryRecovery
  import opened DiskModel

  /** Operation number i + 1 of the history is hist[i]. */
  type History = seq<Operation>

  /** Histories whose operations are within the limits of a submission and can be numbered. */
  ghost predicate Sound(hist: History) {
    |hist| < U64_MAX && forall i :: 0 <= i < |hist| ==> W.Submittable(hist[i])
  }

  /** The map after the first k operations. */
  function Fold(hist: History, k: nat): Map
    requires k <= |hist|
  {
    Apply(map[], hist[..k])
  }

  lemma FoldStep(hist: History, k: nat)
    requires k < |hist|
    ensures Fold(hist, k + 1) == ApplyOne(Fold(hist, k), hist[k])
  {
    assert hist[..k + 1][..k] == hist[..k];
  }

  lemma FoldPrefix(hist: History, n: nat, k: nat)
    requires k <= n <= |hist|
    ensures Fold(hist[..n], k) == Fold(hist, k)
  {
    assert hist[..n][..k] == hist[..k];
  }

  /** The records of operations a + 1 to b. */
  function Span(hist: History, a: nat, b: nat): (rs: seq<W.Record>)
    requires a <= b <= |hist| <= U64_MAX
    ensures |rs| == b - a
    ensures forall i :: 0 <= i < b - a ==> rs[i] == W.Record(a + i + 1, hist[a + i])
  {
    seq(b - a, i requires 0 <= i < b - a => W.Record(a + i + 1, hist[a + i]))
  }

  lemma SpanConcat(hist: History, a: nat, b: nat, c: nat)
    requires a <= b <= c <= |hist| <= U64_MAX
    ensures Span(hist, a, b) + Span(hist, b, c) == Span(hist, a, c)
  {
  }

  lemma SpanSubmittable(hist: History, a: nat, b: nat)
    requires Sound(hist) && a <= b <= |hist|
    ensures forall i :: 0 <= i < b - a ==> W.Submittable(Span(hist, a, b)[i].op)
  {
  }

  function Max(a: nat, b: nat): nat {
    if a >= b then a else b
  }

  /** The cursor that has applied the first k operations. */
  function AtSequence(hist: History, k: nat): Cursor
    requires k <= |hist| < U64_MAX
  {
    Cursor(Fold(hist, k), k, k + 1)
  }

  /** Reading operations a + 1 to b at k >= a skips those up to k and applies the others. */
  lemma {:induction false} AcceptSpan(hist: History, a: nat, b: nat, k: nat)
    requires |hist| < U64_MAX && a <= b <= |hist| && a <= k <= |hist|
    ensures AcceptAll(AtSequence(hist, k), Span(hist, a, b)) == Some(AtSequence(hist, Max(k, b)))
    decreases b - a
  {
    hide W.Readable, Fold;
    var c := AtSequence(hist, k);
    if a == b {
      assert Span(hist, a, b) == [];
    } else {
      var r := W.Record(a + 1, hist[a]);
      assert Span(hist, a, b)[0] == r && Span(hist, a, b)[1..] == Span(hist, a + 1, b);
      if a < k {
        AcceptSpan(hist, a + 1, b, k);
      } else {
        FoldStep(hist, k);
        AcceptSpan(hist, a + 1, b, k + 1);
      }
    }
  }

  // ------------------------------------------------------------------ segments

  ghost predicate SegOk(hist: History, g: Seg) {
    g.base <= g.end <= |hist| < U64_MAX
  }

  /** The complete file of a segment. */
  function SegBytes(crc: Crc, hist: History, g: Seg): Bytes
    requires SegOk(hist, g)
  {
    W.HeaderBytes(crc, W.Header(g.id, g.base + 1)) + Records(crc, Span(hist, g.base, g.end))
  }

  /** The sequence reached by replaying the segments from k. */
  function Cover(k: nat, gs: seq<Seg>): nat
    decreases |gs|
  {
    if gs == [] then k else Cover(Max(k, gs[0].end), gs[1..])
  }

  /** Each segment begins at or before the operation after those already covered. */
  predicate Chain(k: nat, gs: seq<Seg>)
    decreases |gs|
  {
    gs == [] || (gs[0].base <= k && Chain(Max(k, gs[0].end), gs[1..]))
  }

  lemma {:induction false} ChainConcat(k: nat, a: seq<Seg>, b: seq<Seg>)
    ensures Cover(k, a + b) == Cover(Cover(k, a), b)
    ensures Chain(k, a + b) <==> Chain(k, a) && Chain(Cover(k, a), b)
    decreases |a|
  {
    if a == [] {
      assert a + b == b;
    } else {
      assert (a + b)[1..] == a[1..] + b;
      ChainConcat(Max(k, a[0].end), a[1..], b);
    }
  }

  lemma {:induction false} CoverAtLeast(k: nat, gs: seq<Seg>)
    ensures k <= Cover(k, gs)
    ensures forall i :: 0 <= i < |gs| ==> gs[i].end <= Cover(k, gs)
    decreases |gs|
  {
    if gs != [] { CoverAtLeast(Max(k, gs[0].end), gs[1..]); }
  }

  lemma {:induction false} CoverAtMost(k: nat, gs: seq<Seg>, n: nat)
    requires k <= n && forall i :: 0 <= i < |gs| ==> gs[i].end <= n
    ensures Cover(k, gs) <= n
    decreases |gs|
  {
    if gs != [] { CoverAtMost(Max(k, gs[0].end), gs[1..], n); }
  }

  /** A later snapshot covers more, so a chain from an earlier one is a chain from it. */
  lemma {:induction false} ChainLater(k: nat, k': nat, gs: seq<Seg>)
    requires k <= k' && Chain(k, gs)
    ensures Chain(k', gs) && Cover(k', gs) == Max(k', Cover(k, gs))
    decreases |gs|
  {
    if gs != [] {
      ChainLater(Max(k, gs[0].end), Max(k', gs[0].end), gs[1..]);
      CoverAtLeast(Max(k, gs[0].end), gs[1..]);
    }
  }

  /** Segments that begin at or before k form a chain from k, whichever of them are there. */
  lemma {:induction false} ChainBelow(k: nat, gs: seq<Seg>)
    requires forall i :: 0 <= i < |gs| ==> gs[i].base <= k
    ensures Chain(k, gs)
    decreases |gs|
  {
    if gs != [] {
      ChainBelow(Max(k, gs[0].end), gs[1..]);
    }
  }

  /** Changing the last segment without moving its base leaves a chain. */
  lemma ChainLast(k: nat, gs: seq<Seg>, g: Seg)
    requires gs != [] && g.base == gs[|gs| - 1].base && Chain(k, gs)
    ensures Chain(k, gs[|gs| - 1 := g])
  {
    var n := |gs| - 1;
    assert gs == gs[..n] + [gs[n]] && gs[n := g] == gs[..n] + [g];
    ChainConcat(k, gs[..n], [gs[n]]);
    ChainConcat(k, gs[..n], [g]);
    assert [gs[n]][1..] == [] && [g][1..] == [];
  }

  /** Every operation of which the cut segment file holds at least the length field can be read back. */
  ghost predicate SegLegible(crc: Crc, hist: History, g: Seg, cut: nat)
    requires SegOk(hist, g)
  {
    cut >= W.HEADER_SIZE && CutLegible(crc, Span(hist, g.base, g.end), cut - W.HEADER_SIZE)
  }

  /** The result of replaying a segment whose records reach at least the point it starts from. */
  lemma ReplaySegBytes(reader: Reader, crc: Crc, hist: History, g: Seg, cut: nat, k: nat)
    requires Sound(hist) && SegOk(hist, g) && g.base <= k <= |hist|
    requires W.HEADER_SIZE <= cut <= |SegBytes(crc, hist, g)| && SegLegible(crc, hist, g, cut)
    ensures var whole := WholeRecords(crc, Span(hist, g.base, g.end), cut - W.HEADER_SIZE);
      var end := g.base + whole; var good := |SegBytes(crc, hist, g.(end := end))|;
      && end <= g.end && good <= cut
      && ReplayWal(reader, crc, SegBytes(crc, hist, g)[..cut], Fold(hist, k), k)
        == Success(Replayed(Fold(hist, Max(k, end)), Max(k, end), good, g.id, cut != good))
  {
    hide W.Readable, W.HeaderBytes, W.ReadHeader, Records, ReadAll, Fold, WholeRecords, AcceptAll, Sound, CutLegible;
    var h, rs := W.Header(g.id, g.base + 1), Span(hist, g.base, g.end);
    var n := cut - W.HEADER_SIZE;
    var whole := WholeRecords(crc, rs, n);
    var end := g.base + whole;
    CutFile(crc, hist, g, cut);
    W.HeaderRoundTrip(crc, h, Records(crc, rs)[..n]);
    assert rs[..whole] == Span(hist, g.base, end);
    AcceptSpan(hist, g.base, end, k);
    assert Begin(Fold(hist, k), k, h) == AtSequence(hist, k);
    TruncatedRecords(reader, crc, AtSequence(hist, k), rs, n);
    CutRecords(crc, rs, n);
  }

  /** A cut segment file is its header and its cut records. */
  lemma CutFile(crc: Crc, hist: History, g: Seg, cut: nat)
    requires SegOk(hist, g) && W.HEADER_SIZE <= cut <= |SegBytes(crc, hist, g)|
    ensures var n, rs := cut - W.HEADER_SIZE, Span(hist, g.base, g.end);
      var file := SegBytes(crc, hist, g)[..cut];
      && n <= |Records(crc, rs)| && file[W.HEADER_SIZE..] == Records(crc, rs)[..n]
      && file == W.HeaderBytes(crc, W.Header(g.id, g.base + 1)) + Records(crc, rs)[..n]
  {
    hide W.HeaderBytes, Records;
    var n, rs := cut - W.HEADER_SIZE, Span(hist, g.base, g.end);
    var h, file := W.HeaderBytes(crc, W.Header(g.id, g.base + 1)), SegBytes(crc, hist, g)[..cut];
    assert file == h + Records(crc, rs)[..n];
    assert file[|h|..] == Records(crc, rs)[..n];
  }

  /** Otherwise both readers refuse the segment. */
  lemma ReplaySegFails(reader: Reader, crc: Crc, hist: History, g: Seg, cut: nat, k: nat)
    requires Sound(hist) && SegOk(hist, g) && g.base <= k <= |hist|
    requires W.HEADER_SIZE <= cut <= |SegBytes(crc, hist, g)| && !SegLegible(crc, hist, g, cut)
    ensures ReplayWal(reader, crc, SegBytes(crc, hist, g)[..cut], Fold(hist, k), k) == Failure(W.TotalLenInvalid)
  {
    hide W.Submittable, W.HeaderBytes, W.ReadHeader, Records, ReadAll, Fold, WholeRecords, AcceptAll, Sound, CutLegible;
    var h, rs := W.Header(g.id, g.base + 1), Span(hist, g.base, g.end);
    var n := cut - W.HEADER_SIZE;
    var whole := WholeRecords(crc, rs, n);
    CutFile(crc, hist, g, cut);
    W.HeaderRoundTrip(crc, h, Records(crc, rs)[..n]);
    assert rs[..whole] == Span(hist, g.base, g.base + whole);
    AcceptSpan(hist, g.base, g.base + whole, k);
    assert Begin(Fold(hist, k), k, h) == AtSequence(hist, k);
    SpanSubmittable(hist, g.base, g.end);
    IllegibleRecords(reader, crc, AtSequence(hist, k), rs, n);
  }

  /** A complete segment replays whole, if every operation in it can be read back. */
  lemma ReplayWholeSeg(reader: Reader, crc: Crc, hist: History, g: Seg, k: nat)
    requires Sound(hist) && SegOk(hist, g) && g.base <= k <= |hist| && AllReadable(Span(hist, g.base, g.end))
    ensures var b := SegBytes(crc, hist, g);
      ReplayWal(reader, crc, b, Fold(hist, k), k)
        == Success(Replayed(Fold(hist, Max(k, g.end)), Max(k, g.end), |b|, g.id, false))
  {
    hide W.HeaderBytes, Records, ReplayWal, Fold, WholeRecords, Sound, AllReadable, CutLegible;
    var b, rs := SegBytes(crc, hist, g), Span(hist, g.base, g.end);
    WholeLegible(crc, rs);
    ReplaySegBytes(reader, crc, hist, g, |b|, k);
    assert b[..|b|] == b && rs[..|rs|] == rs;
    FittingRecords(crc, rs, |Records(crc, rs)|, |rs|);
    assert g.(end := g.base + |rs|) == g;
  }

  lemma WholeSegFails(reader: Reader, crc: Crc, hist: History, g: Seg, k: nat)
    requires Sound(hist) && SegOk(hist, g) && g.base <= k <= |hist| && !AllReadable(Span(hist, g.base, g.end))
    ensures ReplayWal(reader, crc, SegBytes(crc, hist, g), Fold(hist, k), k).Failure?
  {
    hide W.HeaderBytes, Records, ReplayWal, Fold, WholeRecords, Sound, AllReadable, CutLegible;
    var b := SegBytes(crc, hist, g);
    WholeLegible(crc, Span(hist, g.base, g.end));
    ReplaySegFails(reader, crc, hist, g, |b|, k);
    assert b[..|b|] == b;
  }

  // ------------------------------------------------------------------ whole directories

  ghost predicate AllOk(hist: History, gs: seq<Seg>) {
    forall i :: 0 <= i < |gs| ==> SegOk(hist, gs[i])
  }

  /** The files of segments, the last one cut. */
  ghost function Files(crc: Crc, hist: History, gs: seq<Seg>, cut: nat): (fs: seq<Bytes>)
    requires AllOk(hist, gs)
    ensures |fs| == |gs|
  {
    seq(|gs|, i requires 0 <= i < |gs| =>
      assert SegOk(hist, gs[i]);
      var b := SegBytes(crc, hist, gs[i]);
      if i == |gs| - 1 && cut <= |b| then b[..cut] else b)
  }

  /** The segment that a cut of its file leaves: it ends with the last record before the cut. */
  ghost function CutSeg(crc: Crc, hist: History, g: Seg, cut: nat): (r: Seg)
    requires SegOk(hist, g) && W.HEADER_SIZE <= cut
    ensures SegOk(hist, r) && r.base == g.base && r.id == g.id && r.end <= g.end
  {
    g.(end := g.base + WholeRecords(crc, Span(hist, g.base, g.end), cut - W.HEADER_SIZE))
  }

  /** The segments that are left when the last one is cut. */
  ghost function AfterCut(crc: Crc, hist: History, gs: seq<Seg>, cut: nat): (r: seq<Seg>)
    requires AllOk(hist, gs) && gs != [] && W.HEADER_SIZE <= cut
    ensures |r| == |gs| && AllOk(hist, r)
  {
    assert SegOk(hist, gs[|gs| - 1]);
    gs[|gs| - 1 := CutSeg(crc, hist, gs[|gs| - 1], cut)]
  }

  function HighId(high: u64, gs: seq<Seg>): u64
    decreases |gs|
  {
    if gs == [] then high else HighId(Larger(high, gs[0].id), gs[1..])
  }

  /** Every operation that the segment files hold, the last file cut, can be read back. */
  ghost predicate Legible(crc: Crc, hist: History, gs: seq<Seg>, cut: nat)
    requires gs != [] && AllOk(hist, gs)
  {
    assert SegOk(hist, gs[|gs| - 1]);
    && SegLegible(crc, hist, gs[|gs| - 1], cut)
    && forall i :: 0 <= i < |gs| - 1 ==> SegOk(hist, gs[i]) && AllReadable(Span(hist, gs[i].base, gs[i].end))
  }

  lemma LegibleTail(crc: Crc, hist: History, gs: seq<Seg>, cut: nat)
    requires |gs| > 1 && AllOk(hist, gs)
    ensures SegOk(hist, gs[0]) && AllOk(hist, gs[1..])
    ensures Legible(crc, hist, gs, cut) <==>
      AllReadable(Span(hist, gs[0].base, gs[0].end)) && Legible(crc, hist, gs[1..], cut)
  {
    hide AllReadable, SegLegible, Span;
    assert SegOk(hist, gs[0]);
    var rest := gs[1..];
    assert forall i :: 0 < i < |gs| ==> gs[i] == rest[i - 1];
    assert forall i :: 0 <= i < |rest| ==> rest[i] == gs[i + 1];
  }

  /** Recovering a chain of segments, the last one cut, yields the fold of the operations they still cover. */
  lemma {:induction false} RecoverChain(reader: Reader, crc: Crc, hist: History, gs: seq<Seg>, cut: nat, so: Recovered)
    requires Sound(hist) && gs != [] && AllOk(hist, gs)
    requires so.sequence <= |hist| && so.values == Fold(hist, so.sequence)
    requires SegOk(hist, gs[|gs| - 1]) && W.HEADER_SIZE <= cut <= |SegBytes(crc, hist, gs[|gs| - 1])|
    requires Chain(so.sequence, AfterCut(crc, hist, gs, cut)) && Legible(crc, hist, gs, cut)
    ensures var left := AfterCut(crc, hist, gs, cut); var k := Cover(so.sequence, left);
      && SegOk(hist, left[|gs| - 1]) && k <= |hist|
      && var good := |SegBytes(crc, hist, left[|gs| - 1])|;
      ReplayAll(reader, crc, Files(crc, hist, gs, cut), so)
        == Success(Recovered(Fold(hist, k), k, HighId(so.high, gs), good, cut != good))
    decreases |gs|
  {
    hide SegBytes, ReplayWal, Fold, Sound, WholeRecords, CutSeg, SegLegible, AllReadable;
    var left, g, files := AfterCut(crc, hist, gs, cut), gs[0], Files(crc, hist, gs, cut);
    assert SegOk(hist, g);
    if |gs| == 1 {
      ReplayCutSeg(reader, crc, hist, g, cut, so.sequence);
      assert left[1..] == [] && gs[1..] == [] && files[1..] == [];
    } else {
      LegibleTail(crc, hist, gs, cut);
      ReplayWholeSeg(reader, crc, hist, g, so.sequence);
      assert AllOk(hist, gs[1..]);
      assert AfterCut(crc, hist, gs[1..], cut) == left[1..];
      assert files[1..] == Files(crc, hist, gs[1..], cut);
      var k := Max(so.sequence, g.end);
      RecoverChain(reader, crc, hist, gs[1..], cut,
        Recovered(Fold(hist, k), k, Larger(so.high, g.id), |SegBytes(crc, hist, g)|, false));
    }
  }

  /** Otherwise neither reader recovers anything. */
  lemma {:induction false} ChainFails(reader: Reader, crc: Crc, hist: History, gs: seq<Seg>, cut: nat, so: Recovered)
    requires Sound(hist) && gs != [] && AllOk(hist, gs)
    requires so.sequence <= |hist| && so.values == Fold(hist, so.sequence)
    requires SegOk(hist, gs[|gs| - 1]) && W.HEADER_SIZE <= cut <= |SegBytes(crc, hist, gs[|gs| - 1])|
    requires Chain(so.sequence, AfterCut(crc, hist, gs, cut)) && !Legible(crc, hist, gs, cut)
    ensures ReplayAll(reader, crc, Files(crc, hist, gs, cut), so).Failure?
    decreases |gs|
  {
    hide SegBytes, ReplayWal, Fold, Sound, WholeRecords, CutSeg, SegLegible, AllReadable;
    var left, g, files := AfterCut(crc, hist, gs, cut), gs[0], Files(crc, hist, gs, cut);
    assert SegOk(hist, g);
    if |gs| == 1 {
      ReplaySegFails(reader, crc, hist, g, cut, so.sequence);
    } else if !AllReadable(Span(hist, g.base, g.end)) {
      WholeSegFails(reader, crc, hist, g, so.sequence);
    } else {
      LegibleTail(crc, hist, gs, cut);
      ReplayWholeSeg(reader, crc, hist, g, so.sequence);
      assert AfterCut(crc, hist, gs[1..], cut) == left[1..];
      assert files[1..] == Files(crc, hist, gs[1..], cut);
      var k := Max(so.sequence, g.end);
      ChainFails(reader, crc, hist, gs[1..], cut,
        Recovered(Fold(hist, k), k, Larger(so.high, g.id), |SegBytes(crc, hist, g)|, false));
    }
  }

  lemma ReplayCutSeg(reader: Reader, crc: Crc, hist: History, g: Seg, cut: nat, k: nat)
    requires Sound(hist) && SegOk(hist, g) && g.base <= k <= |hist|
    requires W.HEADER_SIZE <= cut <= |SegBytes(crc, hist, g)| && SegLegible(crc, hist, g, cut)
    ensures var c := CutSeg(crc, hist, g, cut); var good := |SegBytes(crc, hist, c)|;
      && good <= cut
      && ReplayWal(reader, crc, SegBytes(crc, hist, g)[..cut], Fold(hist, k), k)
        == Success(Replayed(Fold(hist, Max(k, c.end)), Max(k, c.end), good, g.id, cut != good))
  {
    hide SegBytes, ReplayWal, Fold, Sound, WholeRecords, SegLegible;
    ReplaySegBytes(reader, crc, hist, g, cut, k);
  }

  // ------------------------------------------------------------------ snapshots

  /** The snapshot is the print of the map after k operations; without one, k is 0. */
  ghost predicate SnapOk(crc: Crc, hist: History, snap: Option<Bytes>, k: nat) {
    k <= |hist| < U64_MAX &&
    match snap
    case None => k == 0
    case Some(file) => file == Snap.SnapshotBytes(crc, k, Listing(Fold(hist, k))) && |Fold(hist, k)| <= Snap.MAX_COUNT
  }

  lemma {:induction false} FoldItemsValid(hist: History, k: nat)
    requires Sound(hist) && k <= |hist|
    ensures forall key :: key in Fold(hist, k) ==> 0 < |key| <= MAX_KEY && |Fold(hist, k)[key]| <= MAX_VALUE
    decreases k
  {
    if k > 0 {
      FoldItemsValid(hist, k - 1);
      FoldStep(hist, k - 1);
      assert W.Submittable(hist[k - 1]);
    }
  }

  /** A snapshot of the first k operations loads as their fold. */
  lemma LoadsFold(reader: Reader, crc: Crc, hist: History, snap: Option<Bytes>, k: nat)
    requires Sound(hist) && SnapOk(crc, hist, snap, k)
    ensures snap.None? ==> Fold(hist, k) == map[]
    ensures snap.Some? ==> Snap.ReadSnapshot(reader, crc, snap.value) == Success(Snap.Loaded(Fold(hist, k), k))
  {
    hide Snap.SnapshotBytes, Snap.ReadSnapshot, Listing, Snap.ValidItem, Snap.PutAll;
    var m := Fold(hist, k);
    if snap.Some? {
      ListingLists(m);
      FoldItemsValid(hist, k);
      ListingItemsValid(m);
      Snap.SnapshotRoundTrip(reader, crc, k, Listing(m));
      Snap.PutAllLists(m, Listing(m));
    }
  }

  lemma ListingItemsValid(m: Map)
    requires forall key :: key in m ==> 0 < |key| <= MAX_KEY && |m[key]| <= MAX_VALUE
    ensures Snap.AllValid(Listing(m))
  {
    hide Listing;
    ListingLists(m);
    var items := Listing(m);
    forall i | 0 <= i < |items| ensures Snap.ValidItem(items[i]) {
      assert items[i] in items;
    }
  }

  /** Recovery of a whole image: snapshot, then the chain of segments with the last one cut. */
  lemma RecoverImage(reader: Reader, crc: Crc, hist: History, snap: Option<Bytes>, s0: nat, gs: seq<Seg>, cut: nat)
    requires Sound(hist) && SnapOk(crc, hist, snap, s0)
    requires gs != [] && AllOk(hist, gs) && SegOk(hist, gs[|gs| - 1])
    requires W.HEADER_SIZE <= cut <= |SegBytes(crc, hist, gs[|gs| - 1])|
    requires Chain(s0, AfterCut(crc, hist, gs, cut)) && Legible(crc, hist, gs, cut)
    ensures var left := AfterCut(crc, hist, gs, cut); var k := Cover(s0, left);
      && SegOk(hist, left[|gs| - 1]) && k <= |hist|
      && var good := |SegBytes(crc, hist, left[|gs| - 1])|;
      Recover(reader, crc, Image(snap, Files(crc, hist, gs, cut)))
        == Success(Recovered(Fold(hist, k), k, HighId(0, gs), good, cut != good))
  {
    hide Sound, SnapOk, Fold, Snap.ReadSnapshot, ReplayAll, SegBytes, Legible;
    LoadsFold(reader, crc, hist, snap, s0);
    SnapBound(crc, hist, snap, s0);
    RecoverChain(reader, crc, hist, gs, cut, NOTHING.(values := Fold(hist, s0), sequence := s0));
  }

  /** Otherwise neither reader accepts the image. */
  lemma ImageFails(reader: Reader, crc: Crc, hist: History, snap: Option<Bytes>, s0: nat, gs: seq<Seg>, cut: nat)
    requires Sound(hist) && SnapOk(crc, hist, snap, s0)
    requires gs != [] && AllOk(hist, gs) && SegOk(hist, gs[|gs| - 1])
    requires W.HEADER_SIZE <= cut <= |SegBytes(crc, hist, gs[|gs| - 1])|
    requires Chain(s0, AfterCut(crc, hist, gs, cut)) && !Legible(crc, hist, gs, cut)
    ensures Recover(reader, crc, Image(snap, Files(crc, hist, gs, cut))).Failure?
  {
    hide Sound, SnapOk, Fold, Snap.ReadSnapshot, ReplayAll, SegBytes, Legible;
    LoadsFold(reader, crc, hist, snap, s0);
    SnapBound(crc, hist, snap, s0);
    ChainFails(reader, crc, hist, gs, cut, NOTHING.(values := Fold(hist, s0), sequence := s0));
  }

  lemma SnapBound(crc: Crc, hist: History, snap: Option<Bytes>, k: nat)
    requires SnapOk(crc, hist, snap, k)
    ensures k <= |hist| < U64_MAX && (snap.None? ==> k == 0)
  {
  }
}
