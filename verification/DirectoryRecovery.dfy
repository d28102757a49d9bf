/** Recovery of the v1 engine from a directory image, by the engine itself and by the migration reader. */
module DirectoryRecovery {
  import opened Bytes
  import opened KeyOrder
  import opened Options
  import opened Store
  import W = SegmentWal
  import opened SegmentReplay
  import Snap = Snapshot

  /** The snapshot, if there is one, and the segment files in name order. */
  datatype Image = Image(snapshot: Option<Bytes>, wals: seq<Bytes>)

  /** The map, the last sequence, the highest segment id, and how the last segment ended. */
  datatype Recovered = Recovered(values: Map, sequence: u64, high: u64, lastGood: nat, torn: bool)

  datatype RecoverError = SnapshotRejected(why: Snap.SnapshotError) | SegmentRejected(reason: W.ReadError)

  /** Replays the segments in order; the engine refuses a torn segment that is not the last. */
  function ReplayAll(reader: Reader, crc: Crc, wals: seq<Bytes>, so: Recovered): Result<Recovered, RecoverError>
    decreases |wals|
  {
    if wals == [] then Success(so)
    else match ReplayWal(reader, crc, wals[0], so.values, so.sequence)
      case Failure(e) => Failure(SegmentRejected(e))
      case Success(p) =>
        if reader == Engine && p.torn && |wals| > 1 then Failure(SegmentRejected(W.TornNonFinal))
        else ReplayAll(reader, crc, wals[1..],
          Recovered(p.values, p.sequence, Larger(so.high, p.segment), p.lastGood, p.torn))
  }

  const NOTHING := Recovered(map[], 0, 0, 0, false)

  /** What a reader recovers from an image. */
  function Recover(reader: Reader, crc: Crc, image: Image): Result<Recovered, RecoverError> {
    match image.snapshot
    case None => ReplayAll(reader, crc, image.wals, NOTHING)
    case Some(file) =>
      match Snap.ReadSnapshot(reader, crc, file)
      case Failure(e) => Failure(SnapshotRejected(e))
      case Success(l) => ReplayAll(reader, crc, image.wals, NOTHING.(values := l.values, sequence := l.sequence))
  }

  /** The migration reader's loop over a directory. */
  method ReadDirectory(crc: Crc, image: Image) returns (r: Result<Recovered, RecoverError>)
    ensures r == Recover(Migration, crc, image)
  {
    hide ReplayWal;
    var so := NOTHING;
    if image.snapshot.Some? {
      var l := Snap.LoadWhole(crc, image.snapshot.value);
      if l.Failure? { return Failure(SnapshotRejected(l.error)); }
      so := so.(values := l.value.values, sequence := l.value.sequence);
    }
    assert image.wals[0..] == image.wals;
    for i := 0 to |image.wals|
      invariant Recover(Migration, crc, image) == ReplayAll(Migration, crc, image.wals[i..], so)
    {
      assert image.wals[i..][1..] == image.wals[i + 1..];
      var rr := ReplaySegment(crc, image.wals[i], so.values, so.sequence);
      if rr.Failure? { return Failure(SegmentRejected(rr.error)); }
      var p := rr.value;
      so := Recovered(p.values, p.sequence, Larger(so.high, p.segment), p.lastGood, p.torn);
    }
    return Success(so);
  }

  // ------------------------------------------------------------------ the two readers

  /** No segment but the last is torn, as the migration reader replays them. */
  predicate TornOnlyLast(crc: Crc, wals: seq<Bytes>, values: Map, sequence: u64)
    decreases |wals|
  {
    wals == [] ||
    match ReplayWal(Migration, crc, wals[0], values, sequence)
    case Failure(_) => true
    case Success(p) => (p.torn ==> |wals| == 1) && TornOnlyLast(crc, wals[1..], p.values, p.sequence)
  }

  lemma ReplayWalAgree(crc: Crc, file: Bytes, values: Map, sequence: u64)
    ensures var e := ReplayWal(Engine, crc, file, values, sequence);
      var m := ReplayWal(Migration, crc, file, values, sequence);
      e == m || (e.Failure? && m.Failure?)
  {
    hide ReadAll, W.ReadHeader;
    var h := W.ReadHeader(crc, file);
    if h.Success? { ReadAllAgree(crc, Begin(values, sequence, h.value), file[W.HEADER_SIZE..]); }
  }

  lemma {:induction false} ReplayAllAgree(crc: Crc, wals: seq<Bytes>, so: Recovered, r: Recovered)
    ensures ReplayAll(Engine, crc, wals, so) == Success(r) <==>
      ReplayAll(Migration, crc, wals, so) == Success(r) && TornOnlyLast(crc, wals, so.values, so.sequence)
    decreases |wals|
  {
    hide ReplayWal;
    if wals != [] {
      ReplayWalAgree(crc, wals[0], so.values, so.sequence);
      var p := ReplayWal(Migration, crc, wals[0], so.values, so.sequence);
      if p.Success? {
        var v := p.value;
        ReplayAllAgree(crc, wals[1..],
          Recovered(v.values, v.sequence, Larger(so.high, v.segment), v.lastGood, v.torn), r);
      }
    }
  }

  /** The engine's extra demands on an image: a bounded snapshot count, and no torn segment before the last. */
  predicate EngineDemands(crc: Crc, image: Image) {
    match image.snapshot
    case None => TornOnlyLast(crc, image.wals, map[], 0)
    case Some(file) =>
      match Snap.ReadSnapshot(Migration, crc, file)
      case Failure(_) => true
      case Success(l) =>
        |file| >= 28 && Be64(file, 16) <= Snap.MAX_COUNT && TornOnlyLast(crc, image.wals, l.values, l.sequence)
  }

  /**
   * On every image the engine accepts, the migration reader recovers the same map and sequence; and the
   * engine accepts exactly the images that the migration reader accepts and that meet its extra demands.
   */
  lemma DirectoryReadersAgree(crc: Crc, image: Image, r: Recovered)
    ensures Recover(Engine, crc, image) == Success(r) <==>
      Recover(Migration, crc, image) == Success(r) && EngineDemands(crc, image)
  {
    hide Snap.ReadSnapshot, ReplayAll, TornOnlyLast;
    match image.snapshot
    case None =>
      ReplayAllAgree(crc, image.wals, NOTHING, r);
    case Some(file) =>
      var e, m := Snap.ReadSnapshot(Engine, crc, file), Snap.ReadSnapshot(Migration, crc, file);
      ShortSnapshot(crc, file);
      if e.Success? { Snap.SnapshotReadersAgree(crc, file, e.value); }
      if m.Success? {
        Snap.SnapshotReadersAgree(crc, file, m.value);
        ReplayAllAgree(crc, image.wals, NOTHING.(values := m.value.values, sequence := m.value.sequence), r);
      }
  }

  lemma ShortSnapshot(crc: Crc, file: Bytes)
    ensures |file| < 28 ==> Snap.ReadSnapshot(Engine, crc, file).Failure?
    ensures |file| < 28 ==> Snap.ReadSnapshot(Migration, crc, file).Failure?
  {
  }

  // ------------------------------------------------------------------ what is refused

  lemma {:induction false} BadSegment(reader: Reader, crc: Crc, wals: seq<Bytes>, so: Recovered, i: nat)
    requires i < |wals| && W.ReadHeader(crc, wals[i]).Failure?
    ensures ReplayAll(reader, crc, wals, so).Failure?
    decreases i
  {
    hide W.ReadHeader, ReadAll;
    if i > 0 {
      var w := ReplayWal(reader, crc, wals[0], so.values, so.sequence);
      if w.Success? {
        var p := w.value;
        BadSegment(reader, crc, wals[1..],
          Recovered(p.values, p.sequence, Larger(so.high, p.segment), p.lastGood, p.torn), i - 1);
      }
    }
  }

  /** One refused file refuses the directory: a snapshot that cannot be loaded, or a segment without a valid header. */
  lemma DamagedDirectory(reader: Reader, crc: Crc, image: Image, i: nat)
    requires (image.snapshot.Some? && Snap.ReadSnapshot(reader, crc, image.snapshot.value).Failure?)
      || (i < |image.wals| && forall h :: !W.HeaderIs(crc, image.wals[i], h))
    ensures Recover(reader, crc, image).Failure?
    ensures image.snapshot.Some? ==>
      var l := Snap.ReadSnapshot(reader, crc, image.snapshot.value);
      l.Failure? ==> Recover(reader, crc, image) == Failure(SnapshotRejected(l.error))
  {
    hide Snap.ReadSnapshot, ReplayAll, W.ReadHeader, W.HeaderIs;
    var so := NOTHING;
    var refused := image.snapshot.Some? && Snap.ReadSnapshot(reader, crc, image.snapshot.value).Failure?;
    if !refused {
      if image.snapshot.Some? {
        var l := Snap.ReadSnapshot(reader, crc, image.snapshot.value).value;
        so := so.(values := l.values, sequence := l.sequence);
      }
      var h := W.ReadHeader(crc, image.wals[i]);
      if h.Success? { W.ReadHeaderIff(crc, image.wals[i], h.value); }
      BadSegment(reader, crc, image.wals, so, i);
    }
  }

  // ------------------------------------------------------------------ what is recovered

  lemma {:induction false} ReadAllKeys(reader: Reader, crc: Crc, c: Cursor, s: Bytes)
    requires KeysValid(c.values)
    ensures KeysValid(ReadAll(reader, crc, c, s).cursor.values)
    decreases |s|
  {
    hide W.ReadRecord;
    if s != [] {
      var p := W.ReadRecord(reader, crc, s);
      if p.Good? && Accept(c, p.record).Some? {
        W.ReadRecordIff(reader, crc, s, p.record, p.size);
        ReadAllKeys(reader, crc, Accept(c, p.record).value, s[p.size..]);
      }
    }
  }

  lemma {:induction false} ReadItemsKeys(reader: Reader, file: Bytes, pos: nat, count: nat, m: Map)
    requires |file| >= 28 && KeysValid(m)
    ensures Snap.ReadItems(reader, file, pos, count, m).Success? ==>
      KeysValid(Snap.ReadItems(reader, file, pos, count, m).value.values)
    decreases count
  {
    if count > 0 {
      var a := Snap.ReadItem(reader, file, pos);
      Snap.ReadItemsStep(reader, file, pos, count, m);
      if a.Success? {
        ReadItemsKeys(reader, file, a.value.next, count - 1, m[a.value.item.key := a.value.item.value]);
      }
    }
  }

  lemma {:induction false} ReplayAllKeys(reader: Reader, crc: Crc, wals: seq<Bytes>, so: Recovered)
    requires KeysValid(so.values)
    ensures ReplayAll(reader, crc, wals, so).Success? ==> KeysValid(ReplayAll(reader, crc, wals, so).value.values)
    decreases |wals|
  {
    hide ReadAll, W.ReadHeader, KeysValid;
    if wals != [] {
      var h := W.ReadHeader(crc, wals[0]);
      if h.Success? {
        ReadAllKeys(reader, crc, Begin(so.values, so.sequence, h.value), wals[0][W.HEADER_SIZE..]);
        var w := ReplayWal(reader, crc, wals[0], so.values, so.sequence);
        if w.Success? {
          var p := w.value;
          ReplayAllKeys(reader, crc, wals[1..],
            Recovered(p.values, p.sequence, Larger(so.high, p.segment), p.lastGood, p.torn));
        }
      }
    }
  }

  /** Every key either reader recovers is non-empty and at most 2^20 bytes long. */
  lemma RecoveredKeysValid(reader: Reader, crc: Crc, image: Image)
    requires Recover(reader, crc, image).Success?
    ensures KeysValid(Recover(reader, crc, image).value.values)
  {
    hide Snap.ReadItems, ReplayAll, Snap.HeaderError;
    if image.snapshot.Some? {
      var file := image.snapshot.value;
      if |file| >= 28 { ReadItemsKeys(reader, file, 24, Be64(file, 16), map[]); }
      var l := Snap.ReadSnapshot(reader, crc, file).value;
      ReplayAllKeys(reader, crc, image.wals, NOTHING.(values := l.values, sequence := l.sequence));
    } else {
      ReplayAllKeys(reader, crc, image.wals, NOTHING);
    }
  }
}
