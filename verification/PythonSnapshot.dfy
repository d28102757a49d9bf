/** The Python engine's snapshots: the format it writes, and the older one it still reads. */
module PythonSnapshot {
  import opened Bytes
  import opened KeyOrder
  import opened Options
  import opened PythonWal
  import Snap = Snapshot

  const MAGIC_V1: Bytes := [66, 68, 82, 49]  // "BDR1"
  const MAGIC_V2: Bytes := [66, 68, 82, 50]  // "BDR2"
  const VERSION: nat := 1

  datatype Loaded = Loaded(values: Map, sequence: u64)

  predicate StorableItem(x: Item) {
    |x.key| < 0x1_0000_0000 && |x.value| == 8
  }

  ghost predicate AllStorableItems(items: seq<Item>) {
    forall i :: 0 <= i < |items| ==> StorableItem(items[i])
  }

  function EntryBytes(x: Item): Bytes {
    Put32(|x.key|) + x.value + x.key
  }

  function Entries(items: seq<Item>): Bytes {
    if items == [] then [] else EntryBytes(items[0]) + Entries(items[1..])
  }

  function Head(sequence: u64, count: nat): (s: Bytes)
    ensures |s| == 20
  {
    MAGIC_V2 + Put32(VERSION) + Put64(sequence) + Put32(count)
  }

  function SnapshotBytes(crc: Crc, sequence: u64, items: seq<Item>): Bytes {
    var body := Head(sequence, |items|) + Entries(items);
    body + Put32(crc.Of(body))
  }

  lemma {:induction false} EntriesTake(items: seq<Item>, i: nat)
    requires i < |items|
    ensures Entries(items[..i + 1]) == Entries(items[..i]) + EntryBytes(items[i])
    decreases i
  {
    hide EntryBytes;
    assert items[..i + 1][0] == items[0] && items[..i + 1][1..] == items[1..][..i];
    if i > 0 {
      assert items[..i][0] == items[0] && items[..i][1..] == items[1..][..i - 1];
      EntriesTake(items[1..], i - 1);
    } else {
      assert items[..0] == [] && items[1..][..0] == [];
    }
  }

  /** Builds the snapshot of a checkpoint. */
  method EncodeSnapshot(crc: Crc, sequence: u64, items: seq<Item>) returns (b: Bytes)
    ensures b == SnapshotBytes(crc, sequence, items)
  {
    hide EntryBytes, Head, Crc.Of;
    b := Head(sequence, |items|);
    for i := 0 to |items|
      invariant b == Head(sequence, |items|) + Entries(items[..i])
    {
      EntriesTake(items, i);
      b := b + EntryBytes(items[i]);
    }
    assert items[..|items|] == items;
    b := b + Put32(crc.Of(b));
  }

  // ------------------------------------------------------------------ reading

  /** Reads entries between pos and the checksum; all of it must be used. */
  function ReadEntries(data: Bytes, limit: nat, pos: nat, count: nat, m: Map): Result<Map, LoadError>
    requires limit <= |data|
    decreases count
  {
    if count == 0 then if pos == limit then Success(m) else Failure(SnapshotTrailing)
    else if pos + 12 > limit || pos + 12 + Be32(data, pos) > limit then Failure(SnapshotEntry)
    else
      var end := pos + 12 + Be32(data, pos);
      ReadEntries(data, limit, end, count - 1, m[data[pos + 12..end] := data[pos + 4..pos + 12]])
  }

  function ReadV2(crc: Crc, data: Bytes): Option<Result<Loaded, LoadError>> {
    if |data| < 24 || data[..4] != MAGIC_V2 then None
    else
      var limit := |data| - 4;
      if Be32(data, limit) != crc.Of(data[..limit]) then Some(Failure(SnapshotCrc))
      else if Be32(data, 4) != VERSION then Some(Failure(SnapshotVersion))
      else match ReadEntries(data, limit, 20, Be32(data, 16), map[])
        case Failure(e) => Some(Failure(e))
        case Success(m) => Some(Success(Loaded(m, Be64(data, 8))))
  }

  /** The older format has no checksum, and what follows the last entry is ignored. */
  function ReadOld(data: Bytes, pos: nat, count: nat, m: Map): Option<Map>
    decreases count
  {
    if count == 0 then Some(m)
    else if pos + 12 > |data| || pos + 12 + Be32(data, pos) > |data| then None
    else
      var end := pos + 12 + Be32(data, pos);
      ReadOld(data, end, count - 1, m[data[pos + 12..end] := data[pos + 4..pos + 12]])
  }

  function ReadV1(data: Bytes): Option<Loaded> {
    if |data| < 16 || data[..4] != MAGIC_V1 then None
    else match ReadOld(data, 16, Be32(data, 12), map[])
      case None => None
      case Some(m) => Some(Loaded(m, Be64(data, 4)))
  }

  function ReadSnapshot(crc: Crc, data: Bytes): Result<Loaded, LoadError> {
    match ReadV2(crc, data)
    case Some(r) => r
    case None =>
      match ReadV1(data)
      case Some(l) => Success(l)
      case None => Failure(SnapshotFormat)
  }

  /** Loads a snapshot of either format. */
  method LoadSnapshot(crc: Crc, data: Bytes) returns (r: Result<Loaded, LoadError>)
    ensures r == ReadSnapshot(crc, data)
  {
    if |data| >= 24 && data[..4] == MAGIC_V2 {
      var limit := |data| - 4;
      if Be32(data, limit) != crc.Of(data[..limit]) { return Failure(SnapshotCrc); }
      if Be32(data, 4) != VERSION { return Failure(SnapshotVersion); }
      r := LoadEntries(data, limit);
    } else {
      r := LoadOld(data);
    }
  }

  method LoadEntries(data: Bytes, limit: nat) returns (r: Result<Loaded, LoadError>)
    requires 20 <= limit <= |data|
    ensures var m := ReadEntries(data, limit, 20, Be32(data, 16), map[]);
      r == if m.Success? then Success(Loaded(m.value, Be64(data, 8))) else Failure(m.error)
  {
    var pos: nat, m: Map, count: nat := 20, map[], Be32(data, 16);
    for i := 0 to count
      invariant ReadEntries(data, limit, pos, count - i, m) == ReadEntries(data, limit, 20, count, map[])
    {
      if pos + 12 > limit { return Failure(SnapshotEntry); }
      var keyLen: nat := Be32(data, pos);
      var value := data[pos + 4..pos + 12];
      if pos + 12 + keyLen > limit { return Failure(SnapshotEntry); }
      m := m[data[pos + 12..pos + 12 + keyLen] := value];
      pos := pos + 12 + keyLen;
    }
    if pos != limit { return Failure(SnapshotTrailing); }
    return Success(Loaded(m, Be64(data, 8)));
  }

  method LoadOld(data: Bytes) returns (r: Result<Loaded, LoadError>)
    ensures r == match ReadV1(data) case Some(l) => Success(l) case None => Failure(SnapshotFormat)
  {
    if |data| < 16 || data[..4] != MAGIC_V1 { return Failure(SnapshotFormat); }
    var pos: nat, m: Map, count: nat := 16, map[], Be32(data, 12);
    for i := 0 to count
      invariant ReadOld(data, pos, count - i, m) == ReadOld(data, 16, count, map[])
    {
      if pos + 12 > |data| { return Failure(SnapshotFormat); }
      var keyLen: nat := Be32(data, pos);
      var value := data[pos + 4..pos + 12];
      pos := pos + 12;
      if pos + keyLen > |data| { return Failure(SnapshotFormat); }
      m := m[data[pos..pos + keyLen] := value];
      pos := pos + keyLen;
    }
    return Success(Loaded(m, Be64(data, 4)));
  }

  // ------------------------------------------------------------------ round trip

  lemma EntrySlices(x: Item)
    requires StorableItem(x)
    ensures var b := EntryBytes(x);
      |b| == 12 + |x.key| && b[0..4] == Put32(|x.key|) && b[4..12] == x.value && b[12..] == x.key
  {
    hide Put32;
  }

  lemma Parts(data: Bytes, pos: nat, limit: nat, b: Bytes, rest: Bytes)
    requires pos <= limit <= |data| && data[pos..limit] == b + rest && |b| >= 12
    ensures data[pos..pos + 4] == b[0..4] && data[pos + 4..pos + 12] == b[4..12] && data[pos + 12..pos + |b|] == b[12..]
    ensures pos + |b| <= limit && data[pos + |b|..limit] == rest
  {
    var part := data[pos..limit];
    assert |part| == |b| + |rest|;
    forall i | 0 <= i < |b| ensures data[pos + i] == b[i] {
      assert part[i] == b[i];
    }
    assert part[|b|..] == rest && part[|b|..] == data[pos + |b|..limit];
  }

  /** Printed entries are read back one after the other. */
  lemma {:induction false} EntriesBack(data: Bytes, limit: nat, pos: nat, items: seq<Item>, m: Map)
    requires pos <= limit <= |data| && AllStorableItems(items) && data[pos..limit] == Entries(items)
    ensures ReadEntries(data, limit, pos, |items|, m) == Success(Snap.PutAll(m, items))
    decreases |items|
  {
    hide EntryBytes, Be32;
    if items != [] {
      var x, b := items[0], EntryBytes(items[0]);
      EntrySlices(x);
      Parts(data, pos, limit, b, Entries(items[1..]));
      Be32At(data, pos, |x.key|);
      EntriesBack(data, limit, pos + |b|, items[1..], m[x.key := x.value]);
    }
  }

  lemma HeadSlices(sequence: u64, count: nat)
    ensures var h := Head(sequence, count);
      && h[..4] == MAGIC_V2 == [66, 68, 82, 50] && h[4..8] == Put32(VERSION) == Put32(1)
      && h[8..16] == Put64(sequence) && h[16..20] == Put32(count)
  {
    hide Put32, Put64;
  }

  lemma FileSlices(h: Bytes, entries: Bytes, sum: Bytes)
    requires |h| == 20 && |sum| == 4
    ensures var f, limit := h + entries + sum, 20 + |entries|;
      && |f| == limit + 4 && f[..limit] == h + entries && f[limit..limit + 4] == sum && f[20..limit] == entries
      && f[..4] == h[..4] && f[4..8] == h[4..8] && f[8..16] == h[8..16] && f[16..20] == h[16..20]
  {
  }

  /** What a checkpoint writes loads as the same map and sequence. */
  lemma SnapshotBack(crc: Crc, sequence: u64, items: seq<Item>)
    requires AllStorableItems(items) && |items| < 0x1_0000_0000
    ensures ReadSnapshot(crc, SnapshotBytes(crc, sequence, items))
      == Success(Loaded(Snap.PutAll(map[], items), sequence))
  {
    hide Head, Entries, Crc.Of, Be32, Be64, ReadEntries, Snap.PutAll, ReadSnapshot, Put32;
    HeadSlices(sequence, |items|);
    var h, f := Head(sequence, |items|), SnapshotBytes(crc, sequence, items);
    var limit, body := |f| - 4, h + Entries(items);
    FileSlices(h, Entries(items), Put32(crc.Of(body)));
    Be32At(f, limit, crc.Of(body));
    Be32At(f, 4, VERSION);
    Be64At(f, 8, sequence);
    Be32At(f, 16, |items|);
    EntriesBack(f, limit, 20, items, map[]);
    FileReads(crc, f, sequence, |items|, Snap.PutAll(map[], items));
  }

  /** A file of the newer format whose parts are all right. */
  lemma FileReads(crc: Crc, f: Bytes, sequence: u64, count: u32, m: Map)
    requires |f| >= 24 && f[..4] == MAGIC_V2 && Be32(f, |f| - 4) == crc.Of(f[..|f| - 4]) && Be32(f, 4) == VERSION
    requires Be32(f, 16) == count && Be64(f, 8) == sequence
    requires ReadEntries(f, |f| - 4, 20, count, map[]) == Success(m)
    ensures ReadSnapshot(crc, f) == Success(Loaded(m, sequence))
  {
    hide Crc.Of, Be32, Be64, ReadEntries, ReadV1;
  }

  // ------------------------------------------------------------------ what is accepted, and what is refused

  /** An entry read between pos and end is the print of an item. */
  lemma PrintEntry(data: Bytes, pos: nat, end: nat)
    requires pos + 12 <= end <= |data| && end == pos + 12 + Be32(data, pos)
    ensures var x := Item(data[pos + 12..end], data[pos + 4..pos + 12]);
      StorableItem(x) && data[pos..end] == EntryBytes(x)
  {
    hide Be32, Put32;
    Be32At(data, pos, Be32(data, pos));
    assert data[pos..end] == data[pos..pos + 4] + data[pos + 4..pos + 12] + data[pos + 12..end];
  }

  /** Entries that are read are the print of items, up to the limit. */
  lemma {:induction false} PrintEntries(data: Bytes, limit: nat, pos: nat, count: nat, m: Map)
    returns (items: seq<Item>)
    requires pos <= limit <= |data| && ReadEntries(data, limit, pos, count, m).Success?
    ensures |items| == count && AllStorableItems(items) && data[pos..limit] == Entries(items)
    ensures ReadEntries(data, limit, pos, count, m) == Success(Snap.PutAll(m, items))
    decreases count
  {
    hide Be32, EntryBytes, StorableItem;
    if count == 0 {
      items := [];
    } else {
      var end := pos + 12 + Be32(data, pos);
      PrintEntry(data, pos, end);
      var x := Item(data[pos + 12..end], data[pos + 4..pos + 12]);
      var rest := PrintEntries(data, limit, end, count - 1, m[x.key := x.value]);
      items := [x] + rest;
      assert items[1..] == rest;
      assert data[pos..limit] == data[pos..end] + data[end..limit];
    }
  }

  lemma {:induction false} PrintOld(data: Bytes, pos: nat, count: nat, m: Map) returns (items: seq<Item>, end: nat)
    requires pos <= |data| && ReadOld(data, pos, count, m).Some?
    ensures |items| == count && AllStorableItems(items) && pos <= end <= |data| && data[pos..end] == Entries(items)
    ensures ReadOld(data, pos, count, m) == Some(Snap.PutAll(m, items))
    decreases count
  {
    hide Be32, EntryBytes, StorableItem;
    if count == 0 {
      items, end := [], pos;
    } else {
      var next := pos + 12 + Be32(data, pos);
      PrintEntry(data, pos, next);
      var x := Item(data[pos + 12..next], data[pos + 4..pos + 12]);
      var rest;
      rest, end := PrintOld(data, next, count - 1, m[x.key := x.value]);
      items := [x] + rest;
      assert items[1..] == rest;
      assert data[pos..end] == data[pos..next] + data[next..end];
    }
  }

  /** Printed entries are read back in the older format too, whatever follows. */
  lemma {:induction false} OldBack(data: Bytes, pos: nat, end: nat, items: seq<Item>, m: Map)
    requires pos <= end <= |data| && AllStorableItems(items) && data[pos..end] == Entries(items)
    ensures ReadOld(data, pos, |items|, m) == Some(Snap.PutAll(m, items))
    decreases |items|
  {
    hide EntryBytes, Be32;
    if items != [] {
      var x, b := items[0], EntryBytes(items[0]);
      EntrySlices(x);
      Parts(data, pos, end, b, Entries(items[1..]));
      Be32At(data, pos, |x.key|);
      OldBack(data, pos + |b|, end, items[1..], m[x.key := x.value]);
    }
  }

  /** The file is the print of these items in the newer format. */
  ghost predicate IsNew(crc: Crc, data: Bytes, l: Loaded, items: seq<Item>) {
    && AllStorableItems(items) && |items| < 0x1_0000_0000
    && data == SnapshotBytes(crc, l.sequence, items) && l.values == Snap.PutAll(map[], items)
  }

  /** The file begins with the print of these items in the older format: "BDR1", sequence, count, entries. */
  ghost predicate IsOld(data: Bytes, l: Loaded, items: seq<Item>) {
    var head := [66, 68, 82, 49] + Put64(l.sequence) + Put32(|items|);
    var n := |head| + |Entries(items)|;
    && AllStorableItems(items) && |items| < 0x1_0000_0000
    && n <= |data| && data[..n] == head + Entries(items) && l.values == Snap.PutAll(map[], items)
  }

  /** A file of the newer format whose checksum and version are right. */
  lemma NewParts(crc: Crc, data: Bytes, items: seq<Item>)
    requires |data| >= 24 && data[..4] == MAGIC_V2 && Be32(data, 4) == VERSION && Be32(data, 16) == |items|
    requires Be32(data, |data| - 4) == crc.Of(data[..|data| - 4]) && data[20..|data| - 4] == Entries(items)
    ensures data == SnapshotBytes(crc, Be64(data, 8), items)
  {
    hide Put32, Put64, Crc.Of, Entries, Be32, Be64;
    var n := |data| - 4;
    Be32At(data, 4, VERSION);
    Be64At(data, 8, Be64(data, 8));
    Be32At(data, 16, |items|);
    Be32At(data, n, crc.Of(data[..n]));
    assert data[..n] == data[..4] + data[4..8] + data[8..16] + data[16..20] + data[20..n];
    assert data == data[..n] + data[n..n + 4];
  }

  lemma ReadNewIs(crc: Crc, data: Bytes, l: Loaded) returns (items: seq<Item>)
    requires ReadV2(crc, data) == Some(Success(l))
    ensures IsNew(crc, data, l, items)
  {
    hide Be32, Be64, ReadEntries, Crc.Of, SnapshotBytes, Snap.PutAll, AllStorableItems, Entries;
    items := PrintEntries(data, |data| - 4, 20, Be32(data, 16), map[]);
    NewParts(crc, data, items);
  }

  lemma ReadOldIs(data: Bytes, l: Loaded) returns (items: seq<Item>)
    requires ReadV1(data) == Some(l)
    ensures IsOld(data, l, items)
  {
    hide Be32, Be64, Put32, Put64, ReadOld, Snap.PutAll, AllStorableItems, Entries;
    var end;
    items, end := PrintOld(data, 16, Be32(data, 12), map[]);
    Be64At(data, 4, l.sequence);
    Be32At(data, 12, |items|);
    assert data[..end] == data[..4] + data[4..12] + data[12..16] + data[16..end];
  }

  lemma OldReads(crc: Crc, data: Bytes, l: Loaded, items: seq<Item>)
    requires IsOld(data, l, items)
    ensures ReadSnapshot(crc, data) == Success(l)
  {
    hide Be32, Be64, Put32, Put64, ReadOld, Snap.PutAll, AllStorableItems, Entries;
    var n := 16 + |Entries(items)|;
    var part := data[..n];
    assert part[..4] == [66, 68, 82, 49] && part[4..12] == Put64(l.sequence) && part[12..16] == Put32(|items|);
    assert part[16..] == Entries(items);
    assert data[..4] == part[..4] && data[4..12] == part[4..12] && data[12..16] == part[12..16];
    assert data[16..n] == part[16..];
    Be64At(data, 4, l.sequence);
    Be32At(data, 12, |items|);
    OldBack(data, 16, n, items, map[]);
    assert data[..4][3] == 49;
  }

  /**
   * A snapshot loads exactly when the file is, to the last byte, the print of items in the newer format with the
   * right checksum, or begins with the print of items in the older one, which has no checksum.
   */
  lemma ReadSnapshotIff(crc: Crc, data: Bytes, l: Loaded)
    ensures ReadSnapshot(crc, data) == Success(l) <==>
      (exists items :: IsNew(crc, data, l, items)) || (exists items :: IsOld(data, l, items))
  {
    hide ReadV1, ReadV2, IsNew, IsOld;
    if ReadSnapshot(crc, data) == Success(l) {
      if ReadV2(crc, data).Some? {
        var items := ReadNewIs(crc, data, l);
      } else {
        var items := ReadOldIs(data, l);
      }
    }
    forall items | IsNew(crc, data, l, items) ensures ReadSnapshot(crc, data) == Success(l) {
      NewReads(crc, data, l, items);
    }
    forall items | IsOld(data, l, items) ensures ReadSnapshot(crc, data) == Success(l) {
      OldReads(crc, data, l, items);
    }
  }

  lemma NewReads(crc: Crc, data: Bytes, l: Loaded, items: seq<Item>)
    requires IsNew(crc, data, l, items)
    ensures ReadSnapshot(crc, data) == Success(l)
  {
    hide SnapshotBytes, ReadSnapshot, Snap.PutAll;
    SnapshotBack(crc, l.sequence, items);
  }

  /** A file of the newer format whose stored checksum is not that of the rest is refused for that reason. */
  lemma WrongSum(crc: Crc, data: Bytes)
    requires |data| >= 24 && data[..4] == [66, 68, 82, 50] && Be32(data, |data| - 4) != crc.Of(data[..|data| - 4])
    ensures ReadSnapshot(crc, data) == Failure(SnapshotCrc)
  {
    hide Be32, Be64, ReadEntries, Crc.Of;
  }

  /** With a checksum like CRC-32, a snapshot with one byte changed behind its first four is refused for that reason. */
  lemma DamagedSnapshot(crc: Crc, sequence: u64, items: seq<Item>, i: nat, b: byte)
    requires crc.Sharp() && 4 <= i < |SnapshotBytes(crc, sequence, items)|
    requires SnapshotBytes(crc, sequence, items)[i] != b
    ensures ReadSnapshot(crc, SnapshotBytes(crc, sequence, items)[i := b]) == Failure(SnapshotCrc)
  {
    hide Put32, Crc.Of, Crc.Sharp, Be32, ReadSnapshot, Entries, Head;
    HeadSlices(sequence, |items|);
    var h, f := Head(sequence, |items|), SnapshotBytes(crc, sequence, items);
    var body := h + Entries(items);
    FileSlices(h, Entries(items), Put32(crc.Of(body)));
    var n, data := |f| - 4, f[i := b];
    ChangedSum(crc, f, n, i, b);
    Be32At(data, n, crc.Of(data[..n]));
    assert data[..4] == f[..4];
    WrongSum(crc, data);
  }
}
