/** The engine's own recovery: snapshot items and log records go into the index one by one as they are read. */
module IndexRecovery {
  import opened Bytes
  import opened KeyOrder
  import opened Options
  import opened Store
  import W = SegmentWal
  import opened SegmentReplay
  import Snap = Snapshot
  import opened DirectoryRecovery
  import opened CompactPartition
  import opened CompactIndex

  /** A file is refused for a reason of its own, or the index has no room for what it says. */
  datatype LoadError<E> = Refused(why: E) | IndexFull

  /** Whether the index can take an operation: a removal always, a put when its partition has room. */
  ghost predicate Room(index: Index, op: Operation)
    requires |index.parts| > 0
    reads index.parts
  {
    op.kind == Delete || index.Fits(op.key, op.value)
  }

  /** Applies one operation to the index, when there is room. */
  method ApplyTo(index: Index, op: Operation) returns (ok: bool)
    requires index.Valid()
    modifies index`size, index`model, index.parts, index.Arrays()
    ensures index.Valid() && fresh(index.Arrays() - old(index.Arrays()))
    ensures ok == old(Room(index, op))
    ensures index.model == if ok then ApplyOne(old(index.model), op) else old(index.model)
    ensures forall i :: 0 <= i < |index.parts| ==>
      |index.parts[i].arena| <= old(|index.parts[i].arena|) + |op.key| + |op.value|
  {
    hide Index.Fits, ApplyOne;
    SomeParts(index);
    hide Index.Valid;
    ok := true;
    if op.kind == Put {
      ok := index.Put(op.key, op.value);
      ApplyPut(old(index.model), op);
    } else {
      var erased := index.Erase(op.key);
      ApplyPut(old(index.model), op);
    }
  }

  lemma SomeParts(index: Index)
    requires index.Valid()
    ensures |index.parts| > 0
  {
  }

  lemma ApplyPut(m: Map, op: Operation)
    ensures ApplyOne(m, op) == if op.kind == Put then m[op.key := op.value] else m - {op.key}
  {
  }

  /** Applies one operation. No arena is longer afterwards than n and the operation's bytes. */
  method ApplyWithin(index: Index, op: Operation, ghost n: nat) returns (ok: bool)
    requires index.Valid() && index.Within(n)
    modifies index`size, index`model, index.parts, index.Arrays()
    ensures index.Valid() && fresh(index.Arrays() - old(index.Arrays()))
    ensures index.model == if ok then ApplyOne(old(index.model), op) else old(index.model)
    ensures index.Within(n + |op.key| + |op.value|) && (!ok ==> n + |op.key| + |op.value| > OFFSET_LIMIT)
  {
    SomeParts(index);
    hide Index.Valid, ApplyOne;
    ok := ApplyTo(index, op);
  }

  /** The second pass over a snapshot: every item is put as it is read. */
  method LoadItemsInto(file: Bytes, count: nat, index: Index) returns (r: Result<(), LoadError<Snap.SnapshotError>>)
    requires |file| >= 28 && index.Valid() && index.Within(0) && index.model == map[]
    modifies index`size, index`model, index.parts, index.Arrays()
    ensures index.Valid() && fresh(index.Arrays() - old(index.Arrays())) && index.Within(|file|)
    ensures var l := Snap.ReadItems(Engine, file, 24, count, map[]);
      match r
      case Success(_) => l == Success(Snap.Loaded(index.model, 0))
      case Failure(Refused(why)) => l == Failure(why)
      case Failure(IndexFull) => |file| > OFFSET_LIMIT
  {
    hide Index.Valid, Snap.ReadItem, Snap.ReadItems;
    var consumed: nat := 24;
    for i := 0 to count
      invariant index.Valid() && fresh(index.Arrays() - old(index.Arrays()))
      invariant 24 <= consumed <= |file| && index.Within(consumed)
      invariant Snap.ReadItems(Engine, file, 24, count, map[])
        == Snap.ReadItems(Engine, file, consumed, count - i, index.model)
    {
      Snap.ReadItemsStep(Engine, file, consumed, count - i, index.model);
      var a := Snap.ReadItem(Engine, file, consumed);
      if a.Failure? { return Failure(Refused(a.error)); }
      ItemRoom(file, consumed);
      var x := a.value.item;
      var ok := ApplyWithin(index, Operation(Put, x.key, x.value), consumed);
      if !ok { return Failure(IndexFull); }
      consumed := a.value.next;
    }
    Snap.ReadItemsEnd(Engine, file, consumed, index.model);
    if consumed != |file| - 4 { return Failure(Refused(Snap.TrailingBytes)); }
    return Success(());
  }

  lemma ItemRoom(file: Bytes, pos: nat)
    requires |file| >= 28 && Snap.ReadItem(Engine, file, pos).Success?
    ensures var a := Snap.ReadItem(Engine, file, pos).value;
      pos + |a.item.key| + |a.item.value| < a.next <= |file|
  {
    hide Be32;
  }

  /** Loads a snapshot into an empty index: a checksum pass, then a pass that streams the items. */
  method LoadSnapshotInto(crc: Crc, file: Bytes, index: Index)
    returns (r: Result<u64, LoadError<Snap.SnapshotError>>)
    requires index.Valid() && index.Within(0) && index.model == map[]
    modifies index`size, index`model, index.parts, index.Arrays()
    ensures index.Valid() && fresh(index.Arrays() - old(index.Arrays())) && index.Within(|file|)
    ensures var l := Snap.ReadSnapshot(Engine, crc, file);
      match r
      case Success(sequence) => l == Success(Snap.Loaded(index.model, sequence))
      case Failure(Refused(why)) => l == Failure(why)
      case Failure(IndexFull) => |file| > OFFSET_LIMIT
  {
    hide Index.Valid, Snap.HeaderError, Snap.ReadItems, Be64;
    var h := Snap.CheckHeader(crc, file);
    if h.Failure? { return Failure(Refused(h.error)); }
    var items := LoadItemsInto(file, h.value.count, index);
    match items
    case Success(_) => return Success(h.value.sequence);
    case Failure(e) => return Failure(e);
  }

  // ------------------------------------------------------------------ one segment

  /** Where a segment ended: the last sequence applied, the last good position, the segment id, and a torn tail. */
  datatype SegmentEnd = SegmentEnd(sequence: u64, lastGood: nat, segment: u64, torn: bool)

  /** Applies a record that must be the next one, or skips one that is covered. */
  method ApplyRecord(index: Index, rec: W.Record, sequence: u64, expected: u64, ghost n: nat)
    returns (r: Result<bool, LoadError<W.ReadError>>)
    requires index.Valid() && index.Within(n)
    modifies index`size, index`model, index.parts, index.Arrays()
    ensures index.Valid() && fresh(index.Arrays() - old(index.Arrays()))
    ensures index.Within(n + |rec.op.key| + |rec.op.value|)
    ensures var c := Accept(Cursor(old(index.model), sequence, expected), rec);
      match r
      case Success(applied) =>
        c == Some(if applied then Cursor(index.model, rec.sequence, Succ(expected))
                  else Cursor(index.model, sequence, expected))
      case Failure(Refused(why)) => c == None && why == W.SequenceGap
      case Failure(IndexFull) => n + |rec.op.key| + |rec.op.value| > OFFSET_LIMIT
  {
    hide Index.Valid;
    if rec.sequence <= sequence { return Success(false); }
    if rec.sequence != expected { return Failure(Refused(W.SequenceGap)); }
    var ok := ApplyWithin(index, rec.op, n);
    if !ok { return Failure(IndexFull); }
    return Success(true);
  }

  lemma RecordRoom(crc: Crc, s: Bytes)
    requires W.ReadRecord(Engine, crc, s).Good?
    ensures var p := W.ReadRecord(Engine, crc, s);
      |p.record.op.key| + |p.record.op.value| < p.size <= |s|
  {
    hide W.ReadRecord, W.RecordBytes;
    var p := W.ReadRecord(Engine, crc, s);
    W.ReadRecordIff(Engine, crc, s, p.record, p.size);
    W.RecordLength(crc, p.record);
  }

  lemma WithinMore(index: Index, n: nat, m: nat)
    requires index.Within(n)
    ensures n <= m ==> index.Within(m)
  {
  }

  /** Where the loop over a segment stands: file position, last sequence applied, next one expected. */
  datatype At = At(pos: nat, sequence: u64, expected: u64)

  /** What reading makes of the rest of a file. */
  function Onward(crc: Crc, file: Bytes, m: Map, at: At): Read
    requires at.pos <= |file|
  {
    ReadAll(Engine, crc, Cursor(m, at.sequence, at.expected), file[at.pos..])
  }

  /** Reads the next record and applies or skips it; none when the tail is torn. */
  method ReadNext(crc: Crc, file: Bytes, index: Index, at: At, ghost n: nat)
    returns (r: Result<Option<At>, LoadError<W.ReadError>>)
    requires at.pos < |file| && index.Valid() && index.Within(n + at.pos)
    modifies index`size, index`model, index.parts, index.Arrays()
    ensures index.Valid() && fresh(index.Arrays() - old(index.Arrays())) && index.Within(n + |file|)
    ensures var before := Onward(crc, file, old(index.model), at);
      match r
      case Success(None) => before == Read(Cursor(index.model, at.sequence, at.expected), 0, true, None)
      case Success(Some(next)) =>
        && at.pos < next.pos <= |file| && index.Within(n + next.pos)
        && var q := Onward(crc, file, index.model, next);
        before == q.(used := next.pos - at.pos + q.used)
      case Failure(Refused(why)) => before.error == Some(why)
      case Failure(IndexFull) => n + |file| > OFFSET_LIMIT
  {
    hide Index.Valid, Index.Within, W.ReadRecord, Accept, ReadAll;
    var p := EngineRecordAt(crc, file, at.pos);
    ReadStep(Engine, crc, Cursor(index.model, at.sequence, at.expected), file, at.pos);
    WithinMore(index, n + at.pos, n + |file|);
    if p.Torn? { return Success(None); }
    if p.Bad? { return Failure(Refused(p.error)); }
    RecordRoom(crc, file[at.pos..]);
    var applied := ApplyRecord(index, p.record, at.sequence, at.expected, n + at.pos);
    WithinMore(index, n + at.pos + |p.record.op.key| + |p.record.op.value|, n + at.pos + p.size);
    WithinMore(index, n + at.pos + p.size, n + |file|);
    if applied.Failure? { return Failure(applied.error); }
    if applied.value { return Success(Some(At(at.pos + p.size, p.record.sequence, Succ(at.expected)))); }
    return Success(Some(At(at.pos + p.size, at.sequence, at.expected)));
  }

  /** The engine's loop over the records of one segment file. */
  method ReplayInto(crc: Crc, file: Bytes, index: Index, sequence: u64, ghost n: nat)
    returns (r: Result<SegmentEnd, LoadError<W.ReadError>>)
    requires index.Valid() && index.Within(n)
    modifies index`size, index`model, index.parts, index.Arrays()
    ensures index.Valid() && fresh(index.Arrays() - old(index.Arrays())) && index.Within(n + |file|)
    ensures var w := ReplayWal(Engine, crc, file, old(index.model), sequence);
      match r
      case Success(e) => w == Success(Replayed(index.model, e.sequence, e.lastGood, e.segment, e.torn))
      case Failure(Refused(why)) => w == Failure(why)
      case Failure(IndexFull) => n + |file| > OFFSET_LIMIT
  {
    hide Index.Valid, Index.Within, W.ReadHeader, Onward;
    var header := W.ReadHeader(crc, file);
    WithinMore(index, n, n + |file|);
    if header.Failure? { return Failure(Refused(header.error)); }
    WithinMore(index, n, n + W.HEADER_SIZE);
    var at := At(W.HEADER_SIZE, sequence, Begin(map[], sequence, header.value).expected);
    ghost var whole := Onward(crc, file, index.model, at);
    OnwardFrom(crc, file, index.model, sequence, header.value);
    while at.pos < |file|
      invariant W.HEADER_SIZE <= at.pos <= |file|
      invariant index.Valid() && fresh(index.Arrays() - old(index.Arrays())) && index.Within(n + at.pos)
      invariant var q := Onward(crc, file, index.model, at); whole == q.(used := at.pos - W.HEADER_SIZE + q.used)
      decreases |file| - at.pos
    {
      var next := ReadNext(crc, file, index, at, n);
      if next.Failure? { return Failure(next.error); }
      if next.value == None { return Success(SegmentEnd(at.sequence, at.pos, header.value.segment, true)); }
      at := next.value.value;
    }
    OnwardEnds(crc, file, index.model, at);
    return Success(SegmentEnd(at.sequence, at.pos, header.value.segment, false));
  }

  lemma OnwardEnds(crc: Crc, file: Bytes, m: Map, at: At)
    requires at.pos == |file|
    ensures Onward(crc, file, m, at) == Read(Cursor(m, at.sequence, at.expected), 0, false, None)
  {
    ReadEnd(Engine, crc, Cursor(m, at.sequence, at.expected), file[at.pos..]);
  }

  lemma OnwardFrom(crc: Crc, file: Bytes, m: Map, sequence: u64, h: W.Header)
    requires W.ReadHeader(crc, file) == Success(h)
    ensures |file| >= W.HEADER_SIZE
    ensures var r := Onward(crc, file, m, At(W.HEADER_SIZE, sequence, Begin(map[], sequence, h).expected));
      ReplayWal(Engine, crc, file, m, sequence) ==
        if r.error.Some? then Failure(r.error.value)
        else Success(Replayed(r.cursor.values, r.cursor.sequence, W.HEADER_SIZE + r.used, h.segment, r.torn))
  {
    hide ReadAll;
  }

  // ------------------------------------------------------------------ a whole directory

  /** The total length of the first n segment files. */
  function WalBytes(wals: seq<Bytes>, n: nat): nat
    requires n <= |wals|
  {
    if n == 0 then 0 else WalBytes(wals, n - 1) + |wals[n - 1]|
  }

  function SnapshotLength(image: Image): nat {
    match image.snapshot
    case None => 0
    case Some(file) => |file|
  }

  /** The total length of the files of a directory. */
  function ImageBytes(image: Image): nat {
    SnapshotLength(image) + WalBytes(image.wals, |image.wals|)
  }

  lemma {:induction false} WalBytesPart(wals: seq<Bytes>, n: nat, m: nat)
    requires n <= m <= |wals|
    ensures WalBytes(wals, n) <= WalBytes(wals, m)
    decreases m
  {
    if n < m { WalBytesPart(wals, n, m - 1); }
  }

  /** What recovery found, apart from the map, which is in the index. */
  datatype Found = Found(sequence: u64, high: u64, lastGood: nat, torn: bool)

  /** What the segments from i on make of what was found so far. */
  function Rest(crc: Crc, wals: seq<Bytes>, i: nat, m: Map, so: Found): Result<Recovered, RecoverError>
    requires i <= |wals|
  {
    ReplayAll(Engine, crc, wals[i..], Recovered(m, so.sequence, so.high, so.lastGood, so.torn))
  }

  /** Replays the next segment; a torn one must be the last. */
  method ReplayNext(crc: Crc, wals: seq<Bytes>, i: nat, index: Index, so: Found, ghost n: nat)
    returns (r: Result<Found, LoadError<RecoverError>>)
    requires i < |wals| && index.Valid() && index.Within(n)
    modifies index`size, index`model, index.parts, index.Arrays()
    ensures index.Valid() && fresh(index.Arrays() - old(index.Arrays())) && index.Within(n + |wals[i]|)
    ensures var whole := Rest(crc, wals, i, old(index.model), so);
      match r
      case Success(f) => whole == Rest(crc, wals, i + 1, index.model, f)
      case Failure(Refused(why)) => whole == Failure(why)
      case Failure(IndexFull) => n + |wals[i]| > OFFSET_LIMIT
  {
    hide Index.Valid, Index.Within, ReplayWal;
    assert wals[i..][1..] == wals[i + 1..];
    var rr := ReplayInto(crc, wals[i], index, so.sequence, n);
    if rr == Failure(IndexFull) { return Failure(IndexFull); }
    if rr.Failure? { return Failure(Refused(SegmentRejected(rr.error.why))); }
    if rr.value.torn && i + 1 != |wals| { return Failure(Refused(SegmentRejected(W.TornNonFinal))); }
    return Success(Found(rr.value.sequence, Larger(so.high, rr.value.segment), rr.value.lastGood, rr.value.torn));
  }

  /**
   * Recovery into an empty index. It finds what the image says, with the first error the image has; it gives up
   * for want of room only when the files together are longer than the 32-bit offsets reach.
   */
  method RecoverInto(crc: Crc, image: Image, index: Index) returns (r: Result<Found, LoadError<RecoverError>>)
    requires index.Valid() && index.Within(0) && index.model == map[]
    modifies index`size, index`model, index.parts, index.Arrays()
    ensures index.Valid() && fresh(index.Arrays() - old(index.Arrays()))
    ensures var rec := Recover(Engine, crc, image);
      match r
      case Success(f) => rec == Success(Recovered(index.model, f.sequence, f.high, f.lastGood, f.torn))
      case Failure(Refused(why)) => rec == Failure(why)
      case Failure(IndexFull) => ImageBytes(image) > OFFSET_LIMIT
  {
    hide Index.Valid, Index.Within, ReplayAll, Snap.ReadSnapshot;
    var so := Found(0, 0, 0, false);
    if image.snapshot.Some? {
      var l := LoadSnapshotInto(crc, image.snapshot.value, index);
      if l == Failure(IndexFull) {
        WalBytesPart(image.wals, 0, |image.wals|);
        return Failure(IndexFull);
      }
      if l.Failure? { return Failure(Refused(SnapshotRejected(l.error.why))); }
      so := so.(sequence := l.value);
    }
    ghost var n := SnapshotLength(image);
    assert image.wals[0..] == image.wals;
    for i := 0 to |image.wals|
      invariant index.Valid() && fresh(index.Arrays() - old(index.Arrays()))
      invariant index.Within(n + WalBytes(image.wals, i))
      invariant Recover(Engine, crc, image) == Rest(crc, image.wals, i, index.model, so)
    {
      WalBytesPart(image.wals, i + 1, |image.wals|);
      var next := ReplayNext(crc, image.wals, i, index, so, n + WalBytes(image.wals, i));
      if next.Failure? { return next; }
      so := next.value;
    }
    RestEnds(crc, image.wals, index.model, so);
    return Success(so);
  }

  lemma RestEnds(crc: Crc, wals: seq<Bytes>, m: Map, so: Found)
    ensures Rest(crc, wals, |wals|, m, so) == Success(Recovered(m, so.sequence, so.high, so.lastGood, so.torn))
  {
  }
}
