/** Replay of a whole BDW4 log: what is accepted, where it stops, and what a cut of a log yields. */
module AtomicReplay {
  import opened Bytes
  import opened KeyOrder
  import opened Options
  import opened Store
  import opened AtomicWal

  // ------------------------------------------------------------------ the log as a value

  /** The frames of the batches, one after the other. */
  function Log(crc: Crc, bs: seq<Batch>): Bytes {
    if bs == [] then [] else Frame(crc, bs[0]) + Log(crc, bs[1..])
  }

  /** The batches can all be printed, and their sequences are admitted one after the other. */
  predicate Admissible(x: Expect, bs: seq<Batch>)
    decreases |bs|
  {
    bs == [] ||
    (Encodable(bs[0].ops) && x.Admits(bs[0].sequence) && Admissible(x.After(bs[0].sequence), bs[1..]))
  }

  /** The expectation after accepting the batches. */
  function AfterAll(x: Expect, bs: seq<Batch>): Expect
    decreases |bs|
  {
    if bs == [] then x else AfterAll(x.After(bs[0].sequence), bs[1..])
  }

  /** The map after the batches, first to last. */
  function ApplyBatches(m: Map, bs: seq<Batch>): Map {
    if bs == [] then m else Apply(ApplyBatches(m, bs[..|bs| - 1]), bs[|bs| - 1].ops)
  }

  function OperationCount(bs: seq<Batch>): nat {
    if bs == [] then 0 else OperationCount(bs[..|bs| - 1]) + |bs[|bs| - 1].ops|
  }

  datatype Scanned = Scanned(batches: seq<Batch>, used: nat, torn: bool, error: Option<WalError>)

  /** Reads frames from the front until the end, a torn tail or a corrupt frame. */
  function Scan(crc: Crc, x: Expect, s: Bytes): (r: Scanned)
    ensures r.used <= |s|
    decreases |s|
  {
    if s == [] then Scanned([], 0, false, None)
    else match ReadFrame(crc, x, s)
      case Torn => Scanned([], 0, true, None)
      case Bad(e) => Scanned([], 0, false, Some(e))
      case Good(b, n) =>
        var r := Scan(crc, x.After(b.sequence), s[n..]);
        r.(batches := [b] + r.batches, used := n + r.used)
  }

  /** How a scan ends at the bytes that follow the accepted frames. */
  predicate Ends(crc: Crc, x: Expect, rest: Bytes, torn: bool, error: Option<WalError>) {
    if rest == [] then !torn && error == None
    else match ReadFrame(crc, x, rest)
      case Torn => torn && error == None
      case Bad(e) => !torn && error == Some(e)
      case Good(_, _) => false
  }

  /** What a scan result must say about the bytes, stated with the printer. */
  predicate Describes(crc: Crc, x: Expect, s: Bytes, r: Scanned) {
    && Admissible(x, r.batches)
    && r.used == |Log(crc, r.batches)| <= |s| && s[..r.used] == Log(crc, r.batches)
    && Ends(crc, AfterAll(x, r.batches), s[r.used..], r.torn, r.error)
  }

  lemma LogFirst(crc: Crc, b: Batch, bs: seq<Batch>)
    ensures Log(crc, [b] + bs) == Frame(crc, b) + Log(crc, bs)
  {
    assert ([b] + bs)[1..] == bs;
  }

  lemma DescribesFirst(crc: Crc, x: Expect, s: Bytes, b: Batch, n: nat, r: Scanned)
    requires ReadFrame(crc, x, s) == Good(b, n)
    ensures Describes(crc, x, s, r.(batches := [b] + r.batches, used := n + r.used))
      <==> Describes(crc, x.After(b.sequence), s[n..], r)
  {
    hide ReadFrame, Frame, Log, Encodable, Expect.Admits, Expect.After, Ends;
    ReadFrameIff(crc, x, s, b, n);
    LogFirst(crc, b, r.batches);
    assert ([b] + r.batches)[1..] == r.batches;
    if n + r.used <= |s| {
      SliceSplit(s, n, r.used);
      PrefixSuffix(Frame(crc, b), Log(crc, r.batches));
      assert s[n..][r.used..] == s[n + r.used..];
      assert s[..n + r.used][..n] == s[..n] && s[..n + r.used][n..] == s[n..][..r.used];
    }
  }

  /**
   * Parsing is canonical: a scan finds exactly the batches whose printed frames the log consists of,
   * up to the first bytes that are not an acceptable frame. Printer and parser undo each other.
   */
  lemma {:induction false} ScanIff(crc: Crc, x: Expect, s: Bytes, r: Scanned)
    ensures Scan(crc, x, s) == r <==> Describes(crc, x, s, r)
    decreases |s|
  {
    hide ReadFrame, Expect.Admits, Expect.After;
    if s != [] && ReadFrame(crc, x, s).Good? {
      ScanGood(crc, x, s, r);
    } else {
      ScanStops(crc, x, s, r);
    }
  }

  /** When no frame is accepted, the description holds of the empty list of batches alone. */
  lemma ScanStops(crc: Crc, x: Expect, s: Bytes, r: Scanned)
    requires s == [] || !ReadFrame(crc, x, s).Good?
    ensures Scan(crc, x, s) == r <==> Describes(crc, x, s, r)
  {
    hide ReadFrame, Frame, Encodable, Expect.Admits, Expect.After;
    if r.batches == [] {
      assert s[0..] == s;
    } else if Describes(crc, x, s, r) {
      var b := r.batches[0];
      FirstFrame(crc, x, s, r);
      assert false;
    }
  }

  lemma FirstFrame(crc: Crc, x: Expect, s: Bytes, r: Scanned)
    requires Describes(crc, x, s, r) && r.batches != []
    ensures s != [] && ReadFrame(crc, x, s) == Good(r.batches[0], |Frame(crc, r.batches[0])|)
  {
    hide ReadFrame, Frame, Encodable, Expect.Admits, Expect.After, Ends;
    var b := r.batches[0];
    var f, l := Frame(crc, b), Log(crc, r.batches[1..]);
    FrameLength(crc, b);
    assert s[..r.used] == f + l;
    assert s[..|f|] == (f + l)[..|f|] == f;
    ReadFrameIff(crc, x, s, b, |f|);
  }

  lemma ScanGood(crc: Crc, x: Expect, s: Bytes, r: Scanned)
    requires s != [] && ReadFrame(crc, x, s).Good?
    ensures Scan(crc, x, s) == r <==> Describes(crc, x, s, r)
    decreases |s|, 0
  {
    hide ReadFrame, Expect.Admits, Expect.After, Encodable, Frame;
    var b, n := ReadFrame(crc, x, s).batch, ReadFrame(crc, x, s).size;
    var q := Scan(crc, x.After(b.sequence), s[n..]);
    ScanIff(crc, x.After(b.sequence), s[n..], q);
    DescribesFirst(crc, x, s, b, n, q);
    assert s[0..] == s;
    if Describes(crc, x, s, r) {
      if r.batches == [] {
        assert false;
      } else {
        FirstFrame(crc, x, s, r);
        assert r.batches[0] == b && |Frame(crc, b)| == n;
        var q' := r.(batches := r.batches[1..], used := |Log(crc, r.batches[1..])|);
        assert r.batches == [b] + r.batches[1..];
        LogFirst(crc, b, r.batches[1..]);
        assert r == q'.(batches := [b] + q'.batches, used := n + q'.used);
        DescribesFirst(crc, x, s, b, n, q');
        ScanIff(crc, x.After(b.sequence), s[n..], q');
      }
    }
  }

  // ------------------------------------------------------------------ concatenation

  lemma {:induction false} LogConcat(crc: Crc, a: seq<Batch>, b: seq<Batch>)
    ensures Log(crc, a + b) == Log(crc, a) + Log(crc, b)
    decreases |a|
  {
    hide Frame;
    if a == [] {
      assert a + b == b;
    } else {
      LogConcat(crc, a[1..], b);
      assert a + b == [a[0]] + (a[1..] + b) && a == [a[0]] + a[1..];
      LogFirst(crc, a[0], a[1..] + b);
      LogFirst(crc, a[0], a[1..]);
    }
  }

  lemma LogSingle(crc: Crc, b: Batch)
    ensures Log(crc, [b]) == Frame(crc, b)
  {
    hide Frame;
    LogFirst(crc, b, []);
    assert Log(crc, []) == [];
  }

  lemma {:induction false} AdmissibleConcat(x: Expect, a: seq<Batch>, b: seq<Batch>)
    ensures Admissible(x, a + b) <==> Admissible(x, a) && Admissible(AfterAll(x, a), b)
    ensures AfterAll(x, a + b) == AfterAll(AfterAll(x, a), b)
    decreases |a|
  {
    hide Encodable, Expect.Admits, Expect.After;
    if a == [] {
      assert a + b == b;
    } else {
      assert (a + b)[1..] == a[1..] + b;
      AdmissibleConcat(x.After(a[0].sequence), a[1..], b);
    }
  }

  lemma AdmissibleSingle(x: Expect, b: Batch)
    ensures Admissible(x, [b]) <==> Encodable(b.ops) && x.Admits(b.sequence)
    ensures AfterAll(x, [b]) == x.After(b.sequence)
  {
    assert [b][1..] == [];
  }

  lemma AdmissibleTake(x: Expect, bs: seq<Batch>, k: nat)
    requires k <= |bs| && Admissible(x, bs)
    ensures Admissible(x, bs[..k])
  {
    assert bs == bs[..k] + bs[k..];
    AdmissibleConcat(x, bs[..k], bs[k..]);
  }

  lemma {:induction false} ApplyBatchesConcat(m: Map, a: seq<Batch>, b: seq<Batch>)
    ensures ApplyBatches(m, a + b) == ApplyBatches(ApplyBatches(m, a), b)
    decreases |b|
  {
    if b == [] {
      assert a + b == a;
    } else {
      hide Apply;
      assert (a + b)[..|a + b| - 1] == a + b[..|b| - 1];
      ApplyBatchesConcat(m, a, b[..|b| - 1]);
    }
  }

  // ------------------------------------------------------------------ truncation

  /** Too short for the frame it announces. */
  predicate Unfinished(s: Bytes) {
    && 0 < |s|
    && (|s| < 4 || (FIXED_PREFIX + TRAILER <= Be32(s, 0) <= MAX_FRAME && |s| < Be32(s, 0)))
  }

  lemma UnfinishedIff(crc: Crc, x: Expect, s: Bytes)
    requires s != []
    ensures ReadFrame(crc, x, s) == Torn <==> Unfinished(s)
  {
    hide Be32;
  }

  /** A proper, non-empty part of a frame or of an unfinished tail is unfinished. */
  lemma PrefixUnfinished(crc: Crc, b: Batch, s: Bytes, n: nat)
    requires 0 < n < |s| && ((s == Frame(crc, b) && Encodable(b.ops)) || Unfinished(s))
    ensures Unfinished(s[..n])
  {
    hide GetBE, OpsBytes;
    if n >= 4 {
      assert s[..n][0..4] == s[0..4];
      if !Unfinished(s) {
        FrameLength(crc, b);
        FrameLayout(crc, s, b);
        assert s[..|s|] == s;
        HeadLayout(s, b);
      }
    }
  }

  /** The number of frames that lie wholly before the cut. */
  function WholeFrames(crc: Crc, bs: seq<Batch>, cut: nat): (k: nat)
    ensures k <= |bs|
  {
    if bs == [] || |Frame(crc, bs[0])| > cut then 0
    else 1 + WholeFrames(crc, bs[1..], cut - |Frame(crc, bs[0])|)
  }

  /** It is the largest number of leading frames that fit before the cut. */
  lemma {:induction false} WholeFramesFit(crc: Crc, bs: seq<Batch>, cut: nat)
    ensures var k := WholeFrames(crc, bs, cut);
      && |Log(crc, bs[..k])| <= cut
      && (k < |bs| ==> cut < |Log(crc, bs[..k])| + |Frame(crc, bs[k])|)
    decreases |bs|
  {
    hide Frame;
    if bs != [] && |Frame(crc, bs[0])| <= cut {
      var f := |Frame(crc, bs[0])|;
      WholeFramesFit(crc, bs[1..], cut - f);
      var k := WholeFrames(crc, bs[1..], cut - f);
      assert bs[..k + 1] == [bs[0]] + bs[1..][..k];
      LogFirst(crc, bs[0], bs[1..][..k]);
    } else {
      assert bs[..0] == [];
    }
  }

  lemma LogSplit(crc: Crc, bs: seq<Batch>, k: nat)
    requires k <= |bs|
    ensures k == |bs| ==> Log(crc, bs) == Log(crc, bs[..k])
    ensures k < |bs| ==> Log(crc, bs) == Log(crc, bs[..k]) + (Frame(crc, bs[k]) + Log(crc, bs[k + 1..]))
  {
    hide Frame, Log;
    if k < |bs| {
      assert bs == bs[..k] + ([bs[k]] + bs[k + 1..]);
      LogConcat(crc, bs[..k], [bs[k]] + bs[k + 1..]);
      LogFirst(crc, bs[k], bs[k + 1..]);
    } else {
      assert bs[..k] == bs;
    }
  }

  /** A cut log is its whole frames and a part of the next frame or of the tail. */
  lemma CutShape(crc: Crc, bs: seq<Batch>, tail: Bytes, cut: nat)
    requires cut <= |Log(crc, bs)| + |tail|
    ensures var k := WholeFrames(crc, bs, cut); var done := Log(crc, bs[..k]);
      var next := if k < |bs| then Frame(crc, bs[k]) else tail;
      && |done| <= cut && cut - |done| <= |next| && (k < |bs| ==> cut - |done| < |next|)
      && (Log(crc, bs) + tail)[..cut] == done + next[..cut - |done|]
  {
    hide Frame, Log, WholeFrames;
    var k := WholeFrames(crc, bs, cut);
    var done := Log(crc, bs[..k]);
    WholeFramesFit(crc, bs, cut);
    LogSplit(crc, bs, k);
    if k < |bs| {
      CutConcat(done, Frame(crc, bs[k]), Log(crc, bs[k + 1..]), tail, cut);
    } else {
      CutConcat(done, tail, [], [], cut);
      assert done + (tail + []) + [] == done + tail;
    }
  }

  lemma CutConcat(a: Bytes, b: Bytes, c: Bytes, d: Bytes, cut: nat)
    requires |a| <= cut <= |a| + |b|
    ensures (a + (b + c) + d)[..cut] == a + b[..cut - |a|]
  {
  }

  /**
   * Whatever the cut, replay yields exactly the batches whose frames lie wholly before it: never part
   * of a batch, the last good position is that frame boundary, and the tail is torn exactly when the
   * cut is not a boundary. No property of the checksum is used.
   */
  lemma TruncatedLog(crc: Crc, x: Expect, bs: seq<Batch>, tail: Bytes, cut: nat)
    requires Admissible(x, bs) && (tail == [] || Unfinished(tail))
    requires cut <= |Log(crc, bs)| + |tail|
    ensures var k := WholeFrames(crc, bs, cut); var good := |Log(crc, bs[..k])|;
      Scan(crc, x, (Log(crc, bs) + tail)[..cut]) == Scanned(bs[..k], good, cut != good, None)
  {
    hide Frame, Log, Unfinished, ReadFrame, WholeFrames;
    var k := WholeFrames(crc, bs, cut);
    var done, s := Log(crc, bs[..k]), (Log(crc, bs) + tail)[..cut];
    var next := if k < |bs| then Frame(crc, bs[k]) else tail;
    CutShape(crc, bs, tail, cut);
    AdmissibleTake(x, bs, k);
    var rest := next[..cut - |done|];
    PrefixSuffix(done, rest);
    if rest != [] {
      if k < |bs| {
        EncodableAt(x, bs, k);
        PrefixUnfinished(crc, bs[k], next, |rest|);
      } else if |rest| < |tail| {
        PrefixUnfinished(crc, Batch(0, []), tail, |rest|);
      } else {
        assert rest == tail;
      }
      UnfinishedIff(crc, AfterAll(x, bs[..k]), rest);
    }
    ScanIff(crc, x, s, Scanned(bs[..k], |done|, cut != |done|, None));
  }

  lemma {:induction false} EncodableAt(x: Expect, bs: seq<Batch>, k: nat)
    requires Admissible(x, bs) && k < |bs|
    ensures Encodable(bs[k].ops)
    decreases k
  {
    if k > 0 { EncodableAt(x.After(bs[0].sequence), bs[1..], k - 1); }
  }

  /** The whole round trip: an uncut log replays to its batches, with nothing left over. */
  lemma RoundTrip(crc: Crc, x: Expect, bs: seq<Batch>)
    ensures Scan(crc, x, Log(crc, bs)) == Scanned(bs, |Log(crc, bs)|, false, None) <==> Admissible(x, bs)
  {
    hide Frame, Log, ReadFrame, Admissible;
    var l := Log(crc, bs);
    assert l[..|l|] == l && l[|l|..] == [];
    ScanIff(crc, x, l, Scanned(bs, |l|, false, None));
  }

  /** Every log without corruption is the print of its batches and possibly one unfinished frame. */
  lemma CleanLog(crc: Crc, x: Expect, s: Bytes)
    requires Scan(crc, x, s).error == None
    ensures var r := Scan(crc, x, s);
      && Admissible(x, r.batches) && r.used <= |s| && s == Log(crc, r.batches) + s[r.used..]
      && r.used == |Log(crc, r.batches)|
      && (if r.torn then Unfinished(s[r.used..]) else r.used == |s|)
  {
    hide Frame, Log, ReadFrame, Admissible, Unfinished;
    var r := Scan(crc, x, s);
    ScanIff(crc, x, s, r);
    assert s == s[..r.used] + s[r.used..];
    if s[r.used..] != [] { UnfinishedIff(crc, AfterAll(x, r.batches), s[r.used..]); }
  }

  /** The kept part of a repaired log scans clean, to the same batches, and further batches can be appended. */
  lemma RepairedLogAppends(crc: Crc, x: Expect, s: Bytes, b: Batch)
    requires Scan(crc, x, s).error == None
    requires Encodable(b.ops) && AfterAll(x, Scan(crc, x, s).batches).Admits(b.sequence)
    ensures var r := Scan(crc, x, s); var kept := s[..r.used];
      && Scan(crc, x, kept) == Scanned(r.batches, r.used, false, None)
      && Scan(crc, x, kept + Frame(crc, b)) == Scanned(r.batches + [b], r.used + |Frame(crc, b)|, false, None)
  {
    hide Frame, Log, ReadFrame, Admissible, Unfinished, Expect.Admits, Expect.After, Encodable;
    var r := Scan(crc, x, s);
    CleanLog(crc, x, s);
    assert s[..r.used] == Log(crc, r.batches);
    RoundTrip(crc, x, r.batches);
    LogConcat(crc, r.batches, [b]);
    LogSingle(crc, b);
    AdmissibleConcat(x, r.batches, [b]);
    AdmissibleSingle(AfterAll(x, r.batches), b);
    RoundTrip(crc, x, r.batches + [b]);
  }
}
