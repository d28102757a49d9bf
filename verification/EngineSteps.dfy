/** Every step of the engine other than a crash keeps the invariant. */
module EngineSteps {
  import opened Bytes
  import opened KeyOrder
  import opened Options
  import opened Store
  import W = SegmentWal
  import opened SegmentReplay
  import Snap = Snapshot
  import opened EngineHistory
  import opened DiskModel
  import opened SegmentNames
  import opened EngineModel

  // ------------------------------------------------------------------ frames

  /** A segment reads the same in two histories that agree up to its end. */
  lemma SegBytesPrefix(crc: Crc, h1: History, h2: History, g: Seg)
    requires SegOk(h1, g) && SegOk(h2, g) && h1[..g.end] == h2[..g.end]
    ensures SegBytes(crc, h1, g) == SegBytes(crc, h2, g)
  {
    forall i | g.base <= i < g.end ensures h1[i] == h2[i] {
      assert h1[..g.end][i] == h2[..g.end][i];
    }
    assert Span(h1, g.base, g.end) == Span(h2, g.base, g.end);
  }

  lemma SnapOkPrefix(crc: Crc, h1: History, h2: History, snap: Option<Bytes>, k: nat)
    requires SnapOk(crc, h1, snap, k) && k <= |h2| < U64_MAX && h1[..k] == h2[..k]
    ensures SnapOk(crc, h2, snap, k)
  {
  }

  /** Histories that agree on the durable part. */
  ghost predicate SameDurable(s: Sys, t: Sys) {
    s.durable == t.durable <= |s.hist| && t.durable <= |t.hist| < U64_MAX && s.hist[..s.durable] == t.hist[..s.durable]
  }

  lemma SegAcross(crc: Crc, s: Sys, t: Sys, g: Seg)
    requires SameDurable(s, t) && SegOk(s.hist, g) && g.end <= s.durable
    ensures SegOk(t.hist, g) && SegBytes(crc, t.hist, g) == SegBytes(crc, s.hist, g)
  {
    assert s.hist[..g.end] == s.hist[..s.durable][..g.end] == t.hist[..g.end];
    SegBytesPrefix(crc, s.hist, t.hist, g);
  }

  /** FileInv depends on files, active segment, the durable history and what the writer has in the file. */
  lemma FileFrame(crc: Crc, s: Sys, t: Sys, gs: seq<Seg>)
    requires FileInv(crc, s, gs) && SameDurable(s, t)
    requires t.disk.files == s.disk.files && t.segment == s.segment && InFile(crc, t) == InFile(crc, s)
    requires t.writer == Flushed ==> s.writer == Flushed
    requires (t.writer.Holding? || t.writer.Dead?) ==> t.writer.written <= |Buffer(crc, t.inflight)|
    ensures FileInv(crc, t, gs)
  {
    hide SegBytes, InFile, Buffer;
    forall i | 0 <= i < |gs|
      ensures SegOk(t.hist, gs[i]) && SegBytes(crc, t.hist, gs[i]) == SegBytes(crc, s.hist, gs[i])
    {
      assert SegOk(s.hist, gs[i]);
      SegAcross(crc, s, t, gs[i]);
    }
  }

  /** DirInv depends on disk names, pending changes, phase, snapshot and the durable history. */
  lemma DirFrame(crc: Crc, s: Sys, t: Sys, gs: seq<Seg>, s0: nat)
    requires gs != [] && DirInv(crc, s, gs, s0) && SameDurable(s, t)
    requires t.disk.names == s.disk.names && t.disk.pending == s.disk.pending && t.segment == s.segment
    requires t.phase == s.phase && (s.phase != Running ==> t.index == s.index && t.next == s.next && t.tmp == s.tmp)
    ensures DirInv(crc, t, gs, s0)
  {
    hide SnapOk, SnapshotNow, Chain;
    SnapDurable(crc, s, t, s.disk.names.snapshot, s0);
    SameSnapshotNow(crc, s, t);
  }

  lemma SameSnapshotNow(crc: Crc, s: Sys, t: Sys)
    ensures t.index == s.index && t.next == s.next ==> SnapshotNow(crc, t) == SnapshotNow(crc, s)
  {
    hide Snap.SnapshotBytes, Listing;
  }

  lemma SnapDurable(crc: Crc, s: Sys, t: Sys, snap: Option<Bytes>, k: nat)
    requires SameDurable(s, t) && SnapOk(crc, s.hist, snap, k) && k <= s.durable
    ensures SnapOk(crc, t.hist, snap, k)
  {
    assert s.hist[..k] == s.hist[..s.durable][..k] == t.hist[..k];
    SnapOkPrefix(crc, s.hist, t.hist, snap, k);
  }

  /** A step that touches neither the disk nor the durable history nor what the writer has in the file. */
  lemma Quiet(crc: Crc, s: Sys, t: Sys, gs: seq<Seg>, s0: nat)
    requires Inv(crc, s, gs, s0) && PipeInv(t) && SameDurable(s, t)
    requires t.disk == s.disk && t.segment == s.segment && t.phase == s.phase
    requires InFile(crc, t) == InFile(crc, s) && (t.writer == Flushed ==> s.writer == Flushed)
    requires (t.writer.Holding? || t.writer.Dead?) ==> t.writer.written <= |Buffer(crc, t.inflight)|
    requires s.phase != Running ==> t.index == s.index && t.next == s.next && t.tmp == s.tmp
    ensures Inv(crc, t, gs, s0)
  {
    hide PipeInv, FileInv, DirInv, InFile, Buffer, SameDurable;
    NotEmpty(crc, s, gs);
    FileFrame(crc, s, t, gs);
    DirFrame(crc, s, t, gs, s0);
  }

  lemma NotEmpty(crc: Crc, s: Sys, gs: seq<Seg>)
    requires FileInv(crc, s, gs)
    ensures gs != [] && SegOk(s.hist, gs[|gs| - 1]) && ActiveOk(crc, s, gs[|gs| - 1])
    ensures s.segment == gs[|gs| - 1].id && s.segment in s.disk.files
  {
  }

  lemma Durable(s: Sys)
    requires PipeInv(s)
    ensures s.durable <= |s.hist| < U64_MAX && SameDurable(s, s)
  {
  }

  /** A step that only rewrites the active file and the state of the writer. */
  lemma Rewrites(crc: Crc, s: Sys, t: Sys, f': File, gs: seq<Seg>, s0: nat)
    requires Inv(crc, s, gs, s0) && PipeInv(t)
    requires t == WithFile(s, s.segment, f').(writer := t.writer) && s.segment in s.disk.files
    requires var f := s.disk.files[s.segment];
      && f.synced <= f'.synced <= |f'.bytes| && |InFile(crc, s)| <= |InFile(crc, t)|
      && InFile(crc, t)[..|InFile(crc, s)|] == InFile(crc, s)
      && f'.bytes == f.bytes + InFile(crc, t)[|InFile(crc, s)|..]
      && (t.writer == Flushed ==> f'.synced == |f'.bytes|)
    requires (t.writer.Holding? || t.writer.Dead?) ==> t.writer.written <= |Buffer(crc, t.inflight)|
    ensures Inv(crc, t, gs, s0)
  {
    hide PipeInv, InFile, Buffer, DirInv;
    ActiveWrite(crc, s, t, f', gs);
    hide FileInv;
    NotEmpty(crc, s, gs);
    Durable(s);
    DirFrame(crc, s, t, gs, s0);
  }

  /** The active file is replaced by one that holds what the writer has in it now. */
  lemma ActiveWrite(crc: Crc, s: Sys, t: Sys, f': File, gs: seq<Seg>)
    requires FileInv(crc, s, gs)
    requires t == WithFile(s, s.segment, f').(writer := t.writer) && s.segment in s.disk.files
    requires var f := s.disk.files[s.segment];
      && f.synced <= f'.synced <= |f'.bytes| && |InFile(crc, s)| <= |InFile(crc, t)|
      && InFile(crc, t)[..|InFile(crc, s)|] == InFile(crc, s)
      && f'.bytes == f.bytes + InFile(crc, t)[|InFile(crc, s)|..]
      && (t.writer == Flushed ==> f'.synced == |f'.bytes|)
    requires (t.writer.Holding? || t.writer.Dead?) ==> t.writer.written <= |Buffer(crc, t.inflight)|
    ensures FileInv(crc, t, gs)
  {
    hide SegBytes, InFile, Buffer;
    var n := |gs| - 1;
    OthersComplete(crc, s, t, gs);
    Rejoin(SegBytes(crc, s.hist, gs[n]), InFile(crc, s), InFile(crc, t));
  }

  lemma Rejoin(a: Bytes, b: Bytes, c: Bytes)
    requires |b| <= |c| && c[..|b|] == b
    ensures a + b + c[|b|..] == a + c
  {
    assert c == c[..|b|] + c[|b|..];
  }

  lemma OthersComplete(crc: Crc, s: Sys, t: Sys, gs: seq<Seg>)
    requires FileInv(crc, s, gs) && t.hist == s.hist
    requires forall id :: id in s.disk.files && id != s.segment ==>
      id in t.disk.files && t.disk.files[id] == s.disk.files[id]
    ensures forall i :: 0 <= i < |gs| - 1 ==> SegOk(t.hist, gs[i]) && Complete(crc, t, gs[i])
  {
    hide SegBytes, ActiveOk;
    NotEmpty(crc, s, gs);
    forall i | 0 <= i < |gs| - 1 ensures SegOk(t.hist, gs[i]) && Complete(crc, t, gs[i]) {
      assert SegOk(s.hist, gs[i]) && Complete(crc, s, gs[i]);
      assert gs[i].id < gs[|gs| - 1].id;
    }
  }

  // ------------------------------------------------------------------ submitters and writer

  lemma SubmitKeeps(crc: Crc, s: Sys, op: Operation, gs: seq<Seg>, s0: nat)
    requires Inv(crc, s, gs, s0)
    ensures Inv(crc, Submit(s, op), gs, s0)
  {
    var t := Submit(s, op);
    if t != s {
      hide PipeInv, FileInv, DirInv, InFile, SameDurable, Buffer;
      SubmitPipe(s, op);
      SubmitDurable(s, op);
      SameInFile(crc, s, t);
      NotEmpty(crc, s, gs);
      Quiet(crc, s, t, gs, s0);
    }
  }

  lemma SubmitDurable(s: Sys, op: Operation)
    requires PipeInv(s) && Submit(s, op) != s
    ensures SameDurable(s, Submit(s, op))
  {
    hide W.Submittable, Fold;
  }

  lemma SubmitPipe(s: Sys, op: Operation)
    requires PipeInv(s)
    ensures PipeInv(Submit(s, op))
  {
    hide W.Submittable;
    var t := Submit(s, op);
    if t != s {
      var n := |s.hist|;
      assert t.hist[..n] == s.hist;
      FoldStep(t.hist, n);
      assert Fold(t.hist, n) == Fold(s.hist, n) by { FoldPrefix(t.hist, n, n); }
      assert forall i :: 0 <= i < n ==> t.hist[i] == s.hist[i];
      hide Fold;
    }
  }

  lemma SameInFile(crc: Crc, s: Sys, t: Sys)
    ensures t.writer == s.writer && t.inflight == s.inflight ==> InFile(crc, t) == InFile(crc, s)
  {
    hide Buffer;
  }

  lemma TakePipe(s: Sys, walBatch: nat)
    requires PipeInv(s)
    ensures PipeInv(Take(s, walBatch))
  {
    hide Fold, Sound;
  }

  lemma TakeKeeps(crc: Crc, s: Sys, walBatch: nat, gs: seq<Seg>, s0: nat)
    requires Inv(crc, s, gs, s0)
    ensures Inv(crc, Take(s, walBatch), gs, s0)
  {
    var t := Take(s, walBatch);
    if t != s {
      hide PipeInv, FileInv, DirInv, Buffer, SameDurable;
      TakePipe(s, walBatch);
      assert InFile(crc, s) == [] && InFile(crc, t) == [];
      TakeDurable(s, walBatch);
      Quiet(crc, s, t, gs, s0);
    }
  }

  lemma TakeDurable(s: Sys, walBatch: nat)
    requires PipeInv(s)
    ensures SameDurable(s, Take(s, walBatch))
  {
    hide Fold;
  }

  lemma ClosePipe(s: Sys)
    requires PipeInv(s)
    ensures PipeInv(Close(s)) && PipeInv(Stop(s))
  {
    hide Fold, Sound;
  }

  lemma ExitPipe(s: Sys)
    requires PipeInv(s)
    ensures PipeInv(Exit(s))
  {
    hide Fold, Sound;
  }

  lemma FailPipe(s: Sys)
    requires PipeInv(s)
    ensures PipeInv(Fail(s))
  {
    hide Fold, Sound;
  }

  lemma ClosingPipe(s: Sys, t: Sys)
    requires PipeInv(s) && (t == Close(s) || t == Stop(s) || t == Exit(s) || t == Fail(s))
    ensures PipeInv(t) && SameDurable(s, t)
  {
    Durable(s);
    hide PipeInv;
    ClosePipe(s);
    ExitPipe(s);
    FailPipe(s);
  }

  lemma ClosingShape(crc: Crc, s: Sys, t: Sys)
    requires t == Close(s) || t == Stop(s) || t == Exit(s) || t == Fail(s)
    ensures t.disk == s.disk && t.segment == s.segment && t.phase == s.phase && t.index == s.index && t.next == s.next
    ensures t.tmp == s.tmp && t.inflight == s.inflight
    ensures InFile(crc, s) == InFile(crc, t) && (t.writer == Flushed ==> s.writer == Flushed)
    ensures t.writer.Holding? || t.writer.Dead? ==>
      (s.writer.Holding? || s.writer.Dead?) && t.writer.written == s.writer.written
  {
    hide Buffer;
  }

  lemma ClosingKeeps(crc: Crc, s: Sys, t: Sys, gs: seq<Seg>, s0: nat)
    requires Inv(crc, s, gs, s0) && (t == Close(s) || t == Stop(s) || t == Exit(s) || t == Fail(s))
    ensures Inv(crc, t, gs, s0)
  {
    hide PipeInv, FileInv, DirInv, Buffer, SameDurable, Close, Stop, Exit, Fail, InFile;
    ClosingPipe(s, t);
    NotEmpty(crc, s, gs);
    ClosingShape(crc, s, t);
    Quiet(crc, s, t, gs, s0);
  }

  /** The batch is the next part of the history. */
  lemma InflightSpan(s: Sys)
    requires PipeInv(s)
    ensures s.durable + |s.inflight| <= |s.hist| < U64_MAX
    ensures RecordsOf(s.inflight) == Span(s.hist, s.durable, s.durable + |s.inflight|)
  {
    hide W.Submittable, Fold;
  }

  lemma WriterPipe(crc: Crc, s: Sys, t: Sys, n: nat)
    requires PipeInv(s) && (t == WriteTo(crc, s, n) || t == Flush(crc, s))
    ensures PipeInv(t)
  {
    hide Fold, Sound, Buffer;
  }

  /** Writing more of the batch changes only the active file. */
  lemma WriteKeeps(crc: Crc, s: Sys, n: nat, gs: seq<Seg>, s0: nat)
    requires Inv(crc, s, gs, s0)
    ensures Inv(crc, WriteTo(crc, s, n), gs, s0)
  {
    hide PipeInv, FileInv, DirInv, Buffer, WriteTo, InFile;
    var t := WriteTo(crc, s, n);
    if t != s {
      WriterPipe(crc, s, t, n);
      NotEmpty(crc, s, gs);
      WriteShape(crc, s, n);
      Rewrites(crc, s, t, t.disk.files[s.segment], gs, s0);
    }
  }

  lemma WriteShape(crc: Crc, s: Sys, n: nat)
    requires WriteTo(crc, s, n) != s && s.segment in s.disk.files
    ensures var t := WriteTo(crc, s, n);
      && s.segment in t.disk.files && t == WithFile(s, s.segment, t.disk.files[s.segment]).(writer := Holding(n))
      && n <= |Buffer(crc, t.inflight)| && |InFile(crc, s)| <= |InFile(crc, t)|
      && InFile(crc, t)[..|InFile(crc, s)|] == InFile(crc, s)
      && t.disk.files[s.segment].synced == s.disk.files[s.segment].synced
      && t.disk.files[s.segment].bytes == s.disk.files[s.segment].bytes + InFile(crc, t)[|InFile(crc, s)|..]
  {
    hide Buffer;
    TakeTwice(Buffer(crc, s.inflight), s.writer.written, n);
  }

  lemma TakeTwice(b: Bytes, m: nat, n: nat)
    requires m <= n <= |b|
    ensures b[..n][..m] == b[..m] && b[..n][m..] == b[m..n]
  {
  }

  lemma FlushKeeps(crc: Crc, s: Sys, gs: seq<Seg>, s0: nat)
    requires Inv(crc, s, gs, s0)
    ensures Inv(crc, Flush(crc, s), gs, s0)
  {
    var t := Flush(crc, s);
    if t != s {
      hide PipeInv, FileInv, DirInv, Buffer;
      WriterPipe(crc, s, t, 0);
      NotEmpty(crc, s, gs);
      WholeAndNothing(Buffer(crc, s.inflight), s.disk.files[s.segment].bytes);
      Rewrites(crc, s, t, t.disk.files[s.segment], gs, s0);
    }
  }

  lemma WholeAndNothing(b: Bytes, f: Bytes)
    ensures b[..|b|] == b && b[|b|..] == [] && f + [] == f
  {
  }

  /** The active segment, grown by the batch. */
  ghost function Grown(s: Sys, gs: seq<Seg>): seq<Seg>
    requires gs != []
  {
    gs[|gs| - 1 := gs[|gs| - 1].(end := s.durable + |s.inflight|)]
  }

  lemma GrownBytes(crc: Crc, s: Sys, g: Seg)
    requires PipeInv(s) && SegOk(s.hist, g) && g.end == s.durable
    ensures SegOk(s.hist, g.(end := s.durable + |s.inflight|))
    ensures SegBytes(crc, s.hist, g.(end := s.durable + |s.inflight|))
      == SegBytes(crc, s.hist, g) + Buffer(crc, s.inflight)
  {
    hide PipeInv, W.HeaderBytes, Records, RecordsOf, Span;
    InflightSpan(s);
    var e := s.durable + |s.inflight|;
    SpanConcat(s.hist, g.base, s.durable, e);
    RecordsConcat(crc, Span(s.hist, g.base, s.durable), Span(s.hist, s.durable, e));
    var header := W.HeaderBytes(crc, W.Header(g.id, g.base + 1));
    Assoc(header, Records(crc, Span(s.hist, g.base, s.durable)), Buffer(crc, s.inflight));
  }

  lemma Assoc(a: Bytes, b: Bytes, c: Bytes)
    ensures a + (b + c) == a + b + c
  {
  }

  lemma PublishKeeps(crc: Crc, s: Sys, gs: seq<Seg>, s0: nat)
    requires Inv(crc, s, gs, s0) && Publish(s) != s
    ensures Inv(crc, Publish(s), Grown(s, gs), s0)
  {
    var t, gs' := Publish(s), Grown(s, gs);
    hide PipeInv, FileInv, DirInv, Publish;
    NotEmpty(crc, s, gs);
    PublishPipe(s);
    PublishFiles(crc, s, gs);
    PublishDir(crc, s, gs, s0);
  }

  lemma PublishDir(crc: Crc, s: Sys, gs: seq<Seg>, s0: nat)
    requires gs != [] && PipeInv(s) && DirInv(crc, s, gs, s0) && Publish(s) != s
    ensures DirInv(crc, Publish(s), Grown(s, gs), s0)
  {
    hide SnapOk, Chain, SnapshotNow, PipeInv, Publish;
    PublishPipe(s);
    ChainIfRunning(crc, s, gs, s0);
    ChainLast(s0, gs, Grown(s, gs)[|gs| - 1]);
    assert Ids(Grown(s, gs)) == Ids(gs);
  }

  lemma ChainIfRunning(crc: Crc, s: Sys, gs: seq<Seg>, s0: nat)
    requires gs != [] && PipeInv(s) && DirInv(crc, s, gs, s0) && s.inflight != []
    ensures s.phase == Running && Chain(s0, gs)
  {
    hide Fold, Sound, SnapOk, Chain, SnapshotNow;
  }

  lemma PublishPipe(s: Sys)
    requires PipeInv(s) && Publish(s) != s
    ensures PipeInv(Publish(s)) && s.inflight != []
    ensures Publish(s) == s.(durable := s.durable + |s.inflight|, inflight := [], writer := Idle) && s.writer == Flushed
    ensures s.durable <= Publish(s).durable
  {
    hide Fold, Sound;
  }

  lemma PublishFiles(crc: Crc, s: Sys, gs: seq<Seg>)
    requires PipeInv(s) && FileInv(crc, s, gs) && Publish(s) != s
    ensures FileInv(crc, Publish(s), Grown(s, gs))
  {
    hide SegBytes, Buffer, PipeInv, Publish;
    NotEmpty(crc, s, gs);
    PublishPipe(s);
    GrownBytes(crc, s, gs[|gs| - 1]);
    var t, gs', n := Publish(s), Grown(s, gs), |gs| - 1;
    OthersComplete(crc, s, t, gs);
    forall i | 0 <= i < n ensures SegOk(t.hist, gs'[i]) && Complete(crc, t, gs'[i]) && gs'[i].end <= t.durable {
      assert gs'[i] == gs[i] && gs[i].end <= s.durable;
    }
    assert gs'[n] == gs[n].(end := s.durable + |s.inflight|);
    PublishActive(crc, s, gs[n]);
    forall i | 0 <= i < |gs'| ensures SegOk(t.hist, gs'[i]) && gs'[i].end <= t.durable {
    }
  }

  lemma PublishActive(crc: Crc, s: Sys, g: Seg)
    requires PipeInv(s) && SegOk(s.hist, g) && ActiveOk(crc, s, g) && Publish(s) != s
    ensures var g' := g.(end := s.durable + |s.inflight|); SegOk(s.hist, g') && ActiveOk(crc, Publish(s), g')
  {
    hide SegBytes, Buffer, PipeInv, Publish;
    PublishPipe(s);
    GrownBytes(crc, s, g);
    var b := s.disk.files[g.id].bytes;
    assert b + [] == b;
  }

  // ------------------------------------------------------------------ checkpoint

  /** While a checkpoint runs, nothing is queued or in flight and everything accepted is durable. */
  lemma Quiescent(crc: Crc, s: Sys)
    requires PipeInv(s) && s.phase != Running
    ensures s.writer == Idle && s.inflight == [] && s.queue == [] && s.durable == s.next == |s.hist| < U64_MAX
    ensures s.index == Fold(s.hist, s.durable) && InFile(crc, s) == [] && !s.closed && !s.failed
  {
    hide Fold;
    Durable(s);
  }

  /** A step that changes only phase, temporary file, names and pending changes of an idle engine. */
  lemma DirStep(crc: Crc, s: Sys, t: Sys, gs: seq<Seg>)
    requires PipeInv(s) && FileInv(crc, s, gs)
    requires s.writer == Idle && s.inflight == [] && s.queue == [] && !s.closed && !s.failed
    requires t == s.(phase := t.phase, tmp := t.tmp, disk := s.disk.(names := t.disk.names, pending := t.disk.pending))
    ensures PipeInv(t) && FileInv(crc, t, gs)
  {
    hide FileInv, PipeInv, SameDurable;
    DirStepPipe(s, t);
    assert InFile(crc, s) == InFile(crc, t) == [];
    hide InFile;
    FileFrame(crc, s, t, gs);
  }

  lemma DirStepPipe(s: Sys, t: Sys)
    requires PipeInv(s) && s.writer == Idle && s.inflight == [] && s.queue == [] && !s.closed && !s.failed
    requires t == s.(phase := t.phase, tmp := t.tmp, disk := s.disk.(names := t.disk.names, pending := t.disk.pending))
    ensures PipeInv(t) && SameDurable(s, t)
  {
    Durable(s);
    hide Fold, Sound;
  }

  lemma CheckpointBeginKeeps(crc: Crc, s: Sys, gs: seq<Seg>, s0: nat)
    requires Inv(crc, s, gs, s0)
    ensures Inv(crc, CheckpointBegin(s), gs, s0)
  {
    hide PipeInv, FileInv, DirInv;
    var t := CheckpointBegin(s);
    if t != s {
      IdleWhenDurable(s);
      NotEmpty(crc, s, gs);
      DirStep(crc, s, t, gs);
      CheckpointBeginDir(crc, s, gs, s0);
    }
  }

  lemma CheckpointBeginDir(crc: Crc, s: Sys, gs: seq<Seg>, s0: nat)
    requires gs != [] && DirInv(crc, s, gs, s0)
    ensures DirInv(crc, CheckpointBegin(s), gs, s0)
  {
    hide SnapOk, Chain, SnapshotNow, Ids;
  }

  lemma IdleWhenDurable(s: Sys)
    requires PipeInv(s) && s.next <= s.durable && !s.closed
    ensures s.writer == Idle && s.inflight == [] && s.queue == [] && !s.failed
  {
    hide Fold, Sound;
  }

  lemma TmpKeeps(crc: Crc, s: Sys, t: Sys, n: nat, gs: seq<Seg>, s0: nat)
    requires Inv(crc, s, gs, s0) && (t == TmpWrite(crc, s, n) || t == TmpFlush(crc, s))
    ensures Inv(crc, t, gs, s0)
  {
    hide PipeInv, FileInv, DirInv, SnapshotNow, InFile;
    if t != s {
      NotEmpty(crc, s, gs);
      Quiescent(crc, s);
      DirStep(crc, s, t, gs);
      TmpDir(crc, s, t, n, gs, s0);
    }
  }

  lemma TmpDir(crc: Crc, s: Sys, t: Sys, n: nat, gs: seq<Seg>, s0: nat)
    requires gs != [] && DirInv(crc, s, gs, s0) && (t == TmpWrite(crc, s, n) || t == TmpFlush(crc, s))
    ensures DirInv(crc, t, gs, s0)
  {
    hide SnapOk, Chain, SnapshotNow, Ids;
    SameSnapshotNow(crc, s, t);
    var now := SnapshotNow(crc, s);
    assert now[..|now|] == now;
  }

  lemma RenameKeeps(crc: Crc, s: Sys, gs: seq<Seg>, s0: nat)
    requires Inv(crc, s, gs, s0)
    ensures Inv(crc, Rename(s), gs, s0)
  {
    hide PipeInv, FileInv, DirInv, InFile;
    var t := Rename(s);
    if t != s {
      NotEmpty(crc, s, gs);
      Quiescent(crc, s);
      DirStep(crc, s, t, gs);
      RenameDir(crc, s, gs, s0);
    }
  }

  lemma RenameDir(crc: Crc, s: Sys, gs: seq<Seg>, s0: nat)
    requires gs != [] && DirInv(crc, s, gs, s0)
    ensures DirInv(crc, Rename(s), gs, s0)
  {
    hide SnapOk, Chain, SnapshotNow, Ids;
    SameSnapshotNow(crc, s, Rename(s));
    var now := SnapshotNow(crc, s);
    assert now[..|now|] == now;
  }

  /** The snapshot of a quiescent engine is right for everything accepted. */
  lemma SnapshotNowOk(crc: Crc, s: Sys)
    requires s.durable == s.next == |s.hist| < U64_MAX
    requires s.index == Fold(s.hist, s.durable) && |s.index| <= Snap.MAX_COUNT
    ensures SnapOk(crc, s.hist, Some(SnapshotNow(crc, s)), s.durable)
  {
    hide Fold, Snap.SnapshotBytes, Listing;
  }

  lemma KeepOne(n: Names, c: Change)
    ensures Kept(n, [c], _ => true) == Changed(n, c)
    ensures Kept(n, [], _ => true) == n
  {
    assert [c][..0] == [];
  }

  lemma BelowDurable(crc: Crc, s: Sys, gs: seq<Seg>)
    requires FileInv(crc, s, gs)
    ensures Chain(s.durable, gs)
  {
    hide SegBytes, ActiveOk, Complete;
    forall i | 0 <= i < |gs| ensures gs[i].base <= s.durable {
      assert SegOk(s.hist, gs[i]);
    }
    ChainBelow(s.durable, gs);
  }

  /** The segments after all covered ones are gone. */
  lemma OnlyActive(crc: Crc, s: Sys, gs: seq<Seg>)
    requires FileInv(crc, s, gs)
    ensures FileInv(crc, s, [gs[|gs| - 1]]) && Ids([gs[|gs| - 1]]) == [s.segment]
  {
    hide SegBytes, ActiveOk, Complete;
    NotEmpty(crc, s, gs);
    var n := |gs| - 1;
    assert AllOk(s.hist, [gs[n]]);
    assert n > 0 ==> gs[0].id < gs[n].id;
  }

  lemma SyncDirKeeps(crc: Crc, s: Sys, gs: seq<Seg>, s0: nat) returns (gs': seq<Seg>, s0': nat)
    requires Inv(crc, s, gs, s0)
    ensures Inv(crc, SyncDir(s), gs', s0')
    ensures s.phase in {NewDurable, Removing} && SyncDir(s) != s ==> gs != [] && gs' == [gs[|gs| - 1]]
  {
    hide PipeInv, FileInv, DirInv, InFile, SyncDir;
    var t := SyncDir(s);
    gs', s0' := gs, s0;
    if t != s {
      SyncDirShape(s);
      NotEmpty(crc, s, gs);
      Quiescent(crc, s);
      DirStep(crc, s, t, gs);
      BelowDurable(crc, s, gs);
      if s.phase == Renamed {
        s0' := s.durable;
        SyncRenamed(crc, s, gs, s0);
      } else if s.phase == NewCreated || s.phase == Opening {
        SyncAdded(crc, s, gs, s0);
      } else {
        OnlyActive(crc, t, gs);
        gs' := [gs[|gs| - 1]];
        BelowDurable(crc, t, gs');
        SyncRemoved(crc, s, gs, gs', s0);
      }
    }
  }

  lemma SyncDirShape(s: Sys)
    requires SyncDir(s) != s
    ensures var t := SyncDir(s);
      t == s.(phase := t.phase, disk := s.disk.(names := Live(s.disk), pending := []))
    ensures s.phase in {Renamed, NewCreated, Opening, NewDurable, Removing}
    ensures s.phase == NewDurable || s.phase == Removing ==>
      Live(s.disk).wals == [s.segment] && SyncDir(s).phase == Running
    ensures s.phase == Renamed ==> SyncDir(s).phase == SnapshotDurable
    ensures s.phase == NewCreated ==> SyncDir(s).phase == NewDurable
    ensures s.phase == Opening ==> SyncDir(s).phase == Running
  {
    hide Live;
  }

  lemma SyncRenamed(crc: Crc, s: Sys, gs: seq<Seg>, s0: nat)
    requires gs != [] && DirInv(crc, s, gs, s0) && s.phase == Renamed && SyncDir(s) != s
    requires s.durable == s.next == |s.hist| < U64_MAX && s.index == Fold(s.hist, s.durable)
    ensures DirInv(crc, SyncDir(s), gs, s.durable)
  {
    hide SnapOk, Chain, SnapshotNow, Ids, SyncDir, Fold, Kept;
    SyncDirShape(s);
    SnapshotNowOk(crc, s);
    KeepOne(s.disk.names, SetSnapshot(SnapshotNow(crc, s)));
  }

  lemma SyncAdded(crc: Crc, s: Sys, gs: seq<Seg>, s0: nat)
    requires gs != [] && DirInv(crc, s, gs, s0) && (s.phase == NewCreated || s.phase == Opening) && SyncDir(s) != s
    requires Chain(s.durable, gs) && s.segment == gs[|gs| - 1].id
    ensures DirInv(crc, SyncDir(s), gs, s0)
  {
    hide SnapOk, Chain, SnapshotNow, SyncDir, Kept, Ids;
    SyncDirShape(s);
    KeepOne(s.disk.names, AddWal(s.segment));
    AddedIds(gs, s.segment);
  }

  lemma AddedIds(gs: seq<Seg>, id: u64)
    requires gs != [] && gs[|gs| - 1].id == id
    ensures Ids(gs[..|gs| - 1]) + [id] == Ids(gs)
    ensures |gs| == 1 ==> [] + [id] == Ids(gs)
  {
  }

  lemma SyncRemoved(crc: Crc, s: Sys, gs: seq<Seg>, gs': seq<Seg>, s0: nat)
    requires gs != [] && DirInv(crc, s, gs, s0) && (s.phase == NewDurable || s.phase == Removing) && SyncDir(s) != s
    requires gs' != [] && Chain(s.durable, gs') && Ids(gs') == [s.segment]
    ensures DirInv(crc, SyncDir(s), gs', s0)
  {
    hide SnapOk, Chain, SnapshotNow, SyncDir, Kept, Ids;
    SyncDirShape(s);
    RemovalsOnly(s.disk.names, s.disk.pending, _ => true);
  }

  lemma CloseOldKeeps(crc: Crc, s: Sys, gs: seq<Seg>, s0: nat)
    requires Inv(crc, s, gs, s0)
    ensures Inv(crc, CloseOld(s), gs, s0)
  {
    hide PipeInv, FileInv, DirInv, InFile;
    var t := CloseOld(s);
    if t != s {
      NotEmpty(crc, s, gs);
      Quiescent(crc, s);
      var f := t.disk.files[s.segment];
      var u := WithFile(s, s.segment, f);
      CloseOldFile(crc, s, u, f, gs);
      OtherFilesPipe(s, f);
      DirStep(crc, u, t, gs);
      CloseOldDir(crc, s, gs, s0);
    }
  }

  lemma OtherFilesPipe(s: Sys, f: File)
    requires PipeInv(s)
    ensures PipeInv(WithFile(s, s.segment, f))
  {
    hide Fold, Sound;
  }

  lemma CloseOldDir(crc: Crc, s: Sys, gs: seq<Seg>, s0: nat)
    requires gs != [] && DirInv(crc, s, gs, s0)
    ensures DirInv(crc, CloseOld(s), gs, s0)
  {
    hide SnapOk, Chain, SnapshotNow, Ids;
  }

  lemma CloseOldFile(crc: Crc, s: Sys, u: Sys, f: File, gs: seq<Seg>)
    requires FileInv(crc, s, gs) && s.segment in s.disk.files && s.writer == Idle && InFile(crc, s) == []
    requires f == s.disk.files[s.segment].(synced := |s.disk.files[s.segment].bytes|) && u == WithFile(s, s.segment, f)
    ensures FileInv(crc, u, gs)
  {
    NotEmpty(crc, s, gs);
    SameInFile(crc, s, u);
    assert f.bytes + [] == f.bytes;
    hide FileInv, InFile, Buffer;
    ActiveWrite(crc, s, u, f, gs);
  }

  /** The segment a rotation starts. */
  function Fresh(s: Sys): Seg
    requires s.segment < U64_MAX
  {
    Seg(s.segment + 1, s.durable, s.durable)
  }

  lemma RotateKeeps(crc: Crc, s: Sys, gs: seq<Seg>, s0: nat)
    requires Inv(crc, s, gs, s0) && Rotate(crc, s) != s
    ensures Inv(crc, Rotate(crc, s), gs + [Fresh(s)], s0)
  {
    hide PipeInv, FileInv, DirInv, InFile, W.HeaderBytes;
    NotEmpty(crc, s, gs);
    Quiescent(crc, s);
    RotatePipe(crc, s);
    RotateFiles(crc, s, Rotate(crc, s), gs);
    ActiveEnd(crc, s, gs);
    RotateDir(crc, s, gs, s0);
  }

  lemma ActiveEnd(crc: Crc, s: Sys, gs: seq<Seg>)
    requires FileInv(crc, s, gs)
    ensures gs != [] && gs[|gs| - 1].end == s.durable
  {
    hide SegBytes;
  }

  lemma RotatePipe(crc: Crc, s: Sys)
    requires PipeInv(s)
    ensures PipeInv(Rotate(crc, s))
  {
    hide Fold, Sound, W.HeaderBytes;
  }

  lemma RotateDir(crc: Crc, s: Sys, gs: seq<Seg>, s0: nat)
    requires gs != [] && DirInv(crc, s, gs, s0) && Rotate(crc, s) != s
    requires gs[|gs| - 1].end == s.durable
    ensures DirInv(crc, Rotate(crc, s), gs + [Fresh(s)], s0)
  {
    hide SnapOk, Chain, SnapshotNow, W.HeaderBytes;
    assert (gs + [Fresh(s)])[..|gs|] == gs;
  }

  lemma RotateFiles(crc: Crc, s: Sys, t: Sys, gs: seq<Seg>)
    requires FileInv(crc, s, gs) && s.writer == Idle && InFile(crc, s) == [] && s.inflight == []
    requires s.durable == s.next == |s.hist| && s.phase == OldClosed && t == Rotate(crc, s) && t != s
    ensures FileInv(crc, t, gs + [Fresh(s)])
  {
    hide SegBytes, W.HeaderBytes;
    NotEmpty(crc, s, gs);
    var g, n := Fresh(s), |gs|;
    var gs' := gs + [g];
    FreshBytes(crc, s.hist, g);
    var old_ := s.disk.files[s.segment];
    assert SegBytes(crc, s.hist, gs[n - 1]) + [] == SegBytes(crc, s.hist, gs[n - 1]);
    forall i | 0 <= i < n ensures SegOk(t.hist, gs'[i]) && Complete(crc, t, gs'[i]) && gs'[i].id < g.id {
      assert gs'[i] == gs[i] && SegOk(s.hist, gs[i]);
      if i < n - 1 {
        assert Complete(crc, s, gs[i]) && gs[i].id < gs[n - 1].id;
      }
    }
    assert ActiveOk(crc, t, g);
  }

  /** An empty segment file is its header. */
  lemma FreshBytes(crc: Crc, hist: History, g: Seg)
    requires SegOk(hist, g) && g.base == g.end
    ensures SegBytes(crc, hist, g) == W.HeaderBytes(crc, W.Header(g.id, g.base + 1))
  {
    hide W.HeaderBytes;
    assert Span(hist, g.base, g.end) == [];
    assert W.HeaderBytes(crc, W.Header(g.id, g.base + 1)) + [] == W.HeaderBytes(crc, W.Header(g.id, g.base + 1));
  }

  lemma RemoveKeeps(crc: Crc, s: Sys, id: u64, gs: seq<Seg>, s0: nat)
    requires Inv(crc, s, gs, s0)
    ensures Inv(crc, Remove(s, id), gs, s0)
  {
    hide PipeInv, FileInv, DirInv, InFile, Live;
    var t := Remove(s, id);
    if t != s {
      NotEmpty(crc, s, gs);
      Quiescent(crc, s);
      DirStep(crc, s, t, gs);
      RemoveDir(crc, s, id, gs, s0);
    }
  }

  lemma RemoveDir(crc: Crc, s: Sys, id: u64, gs: seq<Seg>, s0: nat)
    requires gs != [] && DirInv(crc, s, gs, s0)
    ensures DirInv(crc, Remove(s, id), gs, s0)
  {
    hide SnapOk, Chain, SnapshotNow, Ids, Live;
  }
}
