/** BDR3 snapshots: the one-shot and the streaming writer, and the two readers. */
module Snapshot {
  import opened Bytes
  import opened KeyOrder
  import opened Options
  import opened Store

  const MAGIC: Bytes := [66, 68, 82, 51]  // "BDR3"
  const VERSION: nat := 3
  const MAX_COUNT: nat := 50_000_000
  const CHUNK: nat := 0x1_0000

  // ------------------------------------------------------------------ printing

  function ItemBytes(x: Item): Bytes {
    Put32(|x.key|) + Put32(|x.value|) + x.key + x.value
  }

  function ItemsBytes(items: seq<Item>): Bytes {
    if items == [] then [] else ItemBytes(items[0]) + ItemsBytes(items[1..])
  }

  function Preamble(sequence: u64, count: nat): (s: Bytes)
    ensures |s| == 24
  {
    MAGIC + Put32(VERSION) + Put64(sequence) + Put64(count)
  }

  function Body(sequence: u64, items: seq<Item>): Bytes {
    Preamble(sequence, |items|) + ItemsBytes(items)
  }

  function SnapshotBytes(crc: Crc, sequence: u64, items: seq<Item>): Bytes {
    Body(sequence, items) + Put32(crc.Of(Body(sequence, items)))
  }

  lemma {:induction false} ItemsBytesAppend(items: seq<Item>, x: Item)
    ensures ItemsBytes(items + [x]) == ItemsBytes(items) + ItemBytes(x)
  {
    hide ItemBytes;
    if items == [] {
      assert (items + [x])[1..] == [];
    } else {
      assert (items + [x])[1..] == items[1..] + [x];
      ItemsBytesAppend(items[1..], x);
    }
  }

  lemma ItemsBytesTake(items: seq<Item>, i: nat)
    requires i < |items|
    ensures ItemsBytes(items[..i + 1]) == ItemsBytes(items[..i]) + ItemBytes(items[i])
  {
    ItemsBytesAppend(items[..i], items[i]);
    assert items[..i] + [items[i]] == items[..i + 1];
  }

  lemma {:induction false} ItemsBytesSplit(items: seq<Item>, k: nat)
    requires k <= |items|
    ensures ItemsBytes(items) == ItemsBytes(items[..k]) + ItemsBytes(items[k..])
    decreases k
  {
    hide ItemBytes;
    if k > 0 {
      ItemsBytesSplit(items[1..], k - 1);
      assert items[..k][0] == items[0] && items[..k][1..] == items[1..][..k - 1] && items[1..][k - 1..] == items[k..];
    } else {
      assert items[..0] == [] && items[0..] == items;
    }
  }

  lemma NoItems()
    ensures ItemsBytes([]) == []
  {
  }

  /** Builds the whole snapshot in memory and checksums it once. */
  method EncodeSnapshot(crc: Crc, sequence: u64, items: seq<Item>) returns (b: Bytes)
    ensures b == SnapshotBytes(crc, sequence, items)
  {
    hide ItemBytes, ItemsBytes, Preamble;
    b := Preamble(sequence, |items|);
    NoItems();
    for i := 0 to |items|
      invariant b == Preamble(sequence, |items|) + ItemsBytes(items[..i])
    {
      ItemsBytesTake(items, i);
      b := b + ItemBytes(items[i]);
    }
    assert items[..|items|] == items;
    b := b + Put32(crc.Of(b));
  }

  /** Appends a piece to the output and folds it into the running checksum. */
  method Emit(crc: Crc, out: Bytes, sum: u32, piece: Bytes) returns (out': Bytes, sum': u32)
    requires sum == crc.Of(out)
    ensures out' == out + piece && sum' == crc.Of(out')
  {
    crc.FoldConcat(0, out, piece);
    out', sum' := out + piece, crc.Fold(sum, piece);
  }

  /** Writes the snapshot piece by piece with a running checksum: byte for byte the one-shot form. */
  method WriteStreaming(crc: Crc, sequence: u64, items: seq<Item>) returns (out: Bytes)
    ensures out == SnapshotBytes(crc, sequence, items)
  {
    hide ItemsBytes, Preamble, Crc.Of, Put32;
    var sum;
    out, sum := [], 0;
    NothingFolded(crc);
    out, sum := Emit(crc, out, sum, Preamble(sequence, |items|));
    NoItems();
    for i := 0 to |items|
      invariant out == Preamble(sequence, |items|) + ItemsBytes(items[..i]) && sum == crc.Of(out)
    {
      ItemsBytesTake(items, i);
      out, sum := Emit(crc, out, sum, Put32(|items[i].key|) + Put32(|items[i].value|));
      out, sum := Emit(crc, out, sum, items[i].key);
      out, sum := Emit(crc, out, sum, items[i].value);
    }
    assert items[..|items|] == items;
    out := out + Put32(sum);
  }

  lemma NothingFolded(crc: Crc)
    ensures crc.Of([]) == 0
  {
  }

  // ------------------------------------------------------------------ reading

  datatype SnapshotError =
    | TooShort | CrcMismatch | MagicMismatch | VersionUnsupported | HeaderInvalid | CountUnreasonable
    | RecordHeaderTruncated | RecordBoundsInvalid | RecordExceedsBounds | TrailingBytes

  datatype At = At(item: Item, next: nat)

  /**
   * Reads one item at a file position. The engine reads the two lengths from the file, possibly from its
   * last four bytes, and checks the payload against the end; the migration reader never looks past the payload.
   */
  function ReadItem(reader: Reader, file: Bytes, pos: nat): (r: Result<At, SnapshotError>)
    requires |file| >= 28
    ensures r.Success? ==> pos < r.value.next <= |file| - 4
  {
    if pos + 8 > (if reader == Engine then |file| else |file| - 4) then Failure(RecordHeaderTruncated)
    else
      var kl, vl := Be32(file, pos), Be32(file, pos + 4);
      if kl == 0 || kl > MAX_KEY || vl > MAX_VALUE then Failure(RecordBoundsInvalid)
      else if pos + 8 + kl + vl > |file| - 4 then
        Failure(if reader == Engine then RecordExceedsBounds else RecordBoundsInvalid)
      else
        Success(At(Item(file[pos + 8..pos + 8 + kl], file[pos + 8 + kl..pos + 8 + kl + vl]), pos + 8 + kl + vl))
  }

  datatype Loaded = Loaded(values: Map, sequence: u64)

  /** Reads count items one after the other into the map; a later item overwrites an earlier one. */
  function ReadItems(reader: Reader, file: Bytes, pos: nat, count: nat, m: Map): Result<Loaded, SnapshotError>
    requires |file| >= 28
    decreases count
  {
    if count == 0 then (if pos != |file| - 4 then Failure(TrailingBytes) else Success(Loaded(m, 0)))
    else match ReadItem(reader, file, pos)
      case Failure(e) => Failure(e)
      case Success(a) => ReadItems(reader, file, a.next, count - 1, m[a.item.key := a.item.value])
  }

  function HeaderError(reader: Reader, crc: Crc, file: Bytes): Option<SnapshotError>
    requires |file| >= 28
  {
    var sumOk := Be32(file, |file| - 4) == crc.Of(file[..|file| - 4]);
    var magicOk, versionOk := file[0..4] == MAGIC, Be32(file, 4) == VERSION;
    match reader
    case Engine =>
      if !sumOk then Some(CrcMismatch) else if !magicOk then Some(MagicMismatch)
      else if !versionOk then Some(VersionUnsupported)
      else if Be64(file, 16) > MAX_COUNT then Some(CountUnreasonable) else None
    case Migration =>
      if !magicOk || !versionOk then Some(HeaderInvalid) else if !sumOk then Some(CrcMismatch) else None
  }

  /** What a reader makes of a snapshot file. */
  function ReadSnapshot(reader: Reader, crc: Crc, file: Bytes): Result<Loaded, SnapshotError> {
    if |file| < 28 then Failure(TooShort)
    else match HeaderError(reader, crc, file)
      case Some(e) => Failure(e)
      case None =>
        match ReadItems(reader, file, 24, Be64(file, 16), map[])
        case Failure(e) => Failure(e)
        case Success(l) => Success(Loaded(l.values, Be64(file, 8)))
  }

  lemma ReadItemAgree(file: Bytes, pos: nat)
    requires |file| >= 28
    ensures var e, m := ReadItem(Engine, file, pos), ReadItem(Migration, file, pos);
      e == m || (e.Failure? && m.Failure?)
  {
    hide Be32;
  }

  lemma {:induction false} ReadItemsAgree(file: Bytes, pos: nat, count: nat, m: Map)
    requires |file| >= 28
    ensures var a, b := ReadItems(Engine, file, pos, count, m), ReadItems(Migration, file, pos, count, m);
      a == b || (a.Failure? && b.Failure?)
    decreases count
  {
    hide ReadItem;
    if count > 0 {
      ReadItemAgree(file, pos);
      if ReadItem(Engine, file, pos).Success? {
        var a := ReadItem(Engine, file, pos).value;
        ReadItemsAgree(file, a.next, count - 1, m[a.item.key := a.item.value]);
      }
    }
  }

  /**
   * The engine loads a snapshot exactly when the migration reader does and it announces at most fifty million
   * items; then both load the same.
   */
  lemma SnapshotReadersAgree(crc: Crc, file: Bytes, l: Loaded)
    ensures ReadSnapshot(Engine, crc, file) == Success(l) <==>
      ReadSnapshot(Migration, crc, file) == Success(l) && Be64(file, 16) <= MAX_COUNT
  {
    hide ReadItems, Crc.Of, Be32, Be64;
    if |file| >= 28 { ReadItemsAgree(file, 24, Be64(file, 16), map[]); }
  }

  /** The first pass: the checksum of all but the last four bytes, in chunks of 64 KiB. */
  method ChunkedSum(crc: Crc, file: Bytes, n: nat) returns (sum: u32)
    requires n <= |file|
    ensures sum == crc.Of(file[..n])
  {
    hide Crc.Of;
    var pos: nat := 0;
    sum := 0;
    NothingFolded(crc);
    assert file[..0] == [];
    while pos < n
      invariant pos <= n && sum == crc.Of(file[..pos])
    {
      var want := if n - pos < CHUNK then n - pos else CHUNK;
      FoldMore(crc, file, pos, want);
      sum := crc.Fold(sum, file[pos..pos + want]);
      pos := pos + want;
    }
  }

  lemma FoldMore(crc: Crc, file: Bytes, pos: nat, want: nat)
    requires pos + want <= |file|
    ensures crc.Fold(crc.Of(file[..pos]), file[pos..pos + want]) == crc.Of(file[..pos + want])
  {
    crc.FoldConcat(0, file[..pos], file[pos..pos + want]);
    assert file[..pos] + file[pos..pos + want] == file[..pos + want];
  }

  datatype Announced = Announced(sequence: u64, count: nat)

  /** The engine's first pass and header checks: the sequence and the number of items, or the first error. */
  method CheckHeader(crc: Crc, file: Bytes) returns (r: Result<Announced, SnapshotError>)
    ensures |file| < 28 ==> r == Failure(TooShort)
    ensures |file| >= 28 ==>
      r == match HeaderError(Engine, crc, file)
           case Some(e) => Failure(e)
           case None => Success(Announced(Be64(file, 8), Be64(file, 16)))
  {
    hide Crc.Of, Be32, Be64;
    var total := |file|;
    if total < 28 { return Failure(TooShort); }
    var sum := ChunkedSum(crc, file, total - 4);
    if Be32(file, total - 4) != sum { return Failure(CrcMismatch); }
    if file[0..4] != MAGIC { return Failure(MagicMismatch); }
    if Be32(file, 4) != VERSION { return Failure(VersionUnsupported); }
    var sequence, n := Be64(file, 8), Be64(file, 16);
    if n > MAX_COUNT { return Failure(CountUnreasonable); }
    return Success(Announced(sequence, n));
  }

  /** The migration reader's loader: the whole file is in memory. */
  method LoadWhole(crc: Crc, file: Bytes) returns (r: Result<Loaded, SnapshotError>)
    ensures r == ReadSnapshot(Migration, crc, file)
  {
    hide ReadItem, ReadItems, Crc.Of, Be32, Be64;
    if |file| < 28 { return Failure(TooShort); }
    if file[0..4] != MAGIC || Be32(file, 4) != VERSION { return Failure(HeaderInvalid); }
    if crc.Of(file[..|file| - 4]) != Be32(file, |file| - 4) { return Failure(CrcMismatch); }
    r := LoadItems(file, Be64(file, 16));
    if r.Success? { r := Success(Loaded(r.value.values, Be64(file, 8))); }
  }

  /** The item loop of the migration reader. */
  method LoadItems(file: Bytes, n: nat) returns (r: Result<Loaded, SnapshotError>)
    requires |file| >= 28
    ensures r == ReadItems(Migration, file, 24, n, map[])
  {
    hide ReadItem, ReadItems;
    var consumed: nat := 24;
    var values: Map := map[];
    for i := 0 to n
      invariant ReadItems(Migration, file, 24, n, map[]) == ReadItems(Migration, file, consumed, n - i, values)
    {
      ReadItemsStep(Migration, file, consumed, n - i, values);
      var a := ReadItem(Migration, file, consumed);
      if a.Failure? { return Failure(a.error); }
      values := values[a.value.item.key := a.value.item.value];
      consumed := a.value.next;
    }
    ReadItemsEnd(Migration, file, consumed, values);
    if consumed != |file| - 4 { return Failure(TrailingBytes); }
    return Success(Loaded(values, 0));
  }

  lemma ReadItemsStep(reader: Reader, file: Bytes, pos: nat, count: nat, m: Map)
    requires |file| >= 28 && count > 0
    ensures ReadItems(reader, file, pos, count, m) ==
      var a := ReadItem(reader, file, pos);
      if a.Failure? then Failure(a.error)
      else ReadItems(reader, file, a.value.next, count - 1, m[a.value.item.key := a.value.item.value])
  {
    hide ReadItem;
  }

  lemma ReadItemsEnd(reader: Reader, file: Bytes, pos: nat, m: Map)
    requires |file| >= 28
    ensures ReadItems(reader, file, pos, 0, m) ==
      if pos != |file| - 4 then Failure(TrailingBytes) else Success(Loaded(m, 0))
  {
  }

  // ------------------------------------------------------------------ round trip

  predicate ValidItem(x: Item) {
    0 < |x.key| <= MAX_KEY && |x.value| <= MAX_VALUE
  }

  ghost predicate AllValid(items: seq<Item>) {
    forall i :: 0 <= i < |items| ==> ValidItem(items[i])
  }

  /** The map after storing the items in order. */
  function PutAll(m: Map, items: seq<Item>): Map
    decreases |items|
  {
    if items == [] then m else PutAll(m[items[0].key := items[0].value], items[1..])
  }

  lemma ItemSlices(x: Item)
    ensures |ItemBytes(x)| == 8 + |x.key| + |x.value|
    ensures var b, k := ItemBytes(x), |x.key|;
      && b[0..4] == Put32(k) && b[4..8] == Put32(|x.value|) && b[8..8 + k] == x.key && b[8 + k..] == x.value
  {
    hide Put32;
  }

  /** An item reads back where it was written. */
  lemma ReadPrintedItem(reader: Reader, file: Bytes, pos: nat, x: Item)
    requires |file| >= 28 && ValidItem(x) && pos + |ItemBytes(x)| <= |file| - 4
    requires file[pos..pos + |ItemBytes(x)|] == ItemBytes(x)
    ensures ReadItem(reader, file, pos) == Success(At(x, pos + |ItemBytes(x)|))
  {
    hide Be32, Put32, ItemBytes;
    var b, k := ItemBytes(x), |x.key|;
    ItemSlices(x);
    SubSlices(file, pos, b, k);
    Be32At(file, pos, k);
    Be32At(file, pos + 4, |x.value|);
  }

  lemma SubSlices(file: Bytes, pos: nat, b: Bytes, k: nat)
    requires 8 + k <= |b| && pos + |b| <= |file| && file[pos..pos + |b|] == b
    ensures file[pos..pos + 4] == b[0..4] && file[pos + 4..pos + 8] == b[4..8]
    ensures file[pos + 8..pos + 8 + k] == b[8..8 + k] && file[pos + 8 + k..pos + |b|] == b[8 + k..]
  {
    SliceOf(file, pos, |b|, 0, 4);
    SliceOf(file, pos, |b|, 4, 8);
    SliceOf(file, pos, |b|, 8, 8 + k);
    SliceOf(file, pos, |b|, 8 + k, |b|);
  }

  lemma SliceOf(file: Bytes, pos: nat, n: nat, i: nat, j: nat)
    requires i <= j <= n && pos + n <= |file|
    ensures file[pos..pos + n][i..j] == file[pos + i..pos + j]
  {
    var a, b := file[pos..pos + n][i..j], file[pos + i..pos + j];
    forall k | 0 <= k < |a| ensures a[k] == b[k] {
      assert a[k] == file[pos..pos + n][i + k] == file[pos + (i + k)];
      assert b[k] == file[(pos + i) + k];
    }
  }

  lemma {:induction false} ReadPrintedItems(reader: Reader, file: Bytes, pos: nat, items: seq<Item>, m: Map)
    requires |file| >= 28 && AllValid(items) && pos + |ItemsBytes(items)| == |file| - 4
    requires file[pos..|file| - 4] == ItemsBytes(items)
    ensures ReadItems(reader, file, pos, |items|, m) == Success(Loaded(PutAll(m, items), 0))
    decreases |items|
  {
    if items == [] {
      ReadItemsEnd(reader, file, pos, m);
    } else {
      hide ItemBytes, ReadItem, ReadItems, ValidItem;
      var x, n := items[0], |ItemBytes(items[0])|;
      assert file[pos..|file| - 4] == ItemBytes(x) + ItemsBytes(items[1..]);
      SplitAt(file, pos, ItemBytes(x), ItemsBytes(items[1..]));
      ReadPrintedItem(reader, file, pos, x);
      ReadPrintedItems(reader, file, pos + n, items[1..], m[x.key := x.value]);
      ReadItemsStep(reader, file, pos, |items|, m);
    }
  }

  lemma SplitAt(file: Bytes, pos: nat, a: Bytes, b: Bytes)
    requires pos + |a| + |b| + 4 == |file| && file[pos..|file| - 4] == a + b
    ensures file[pos..pos + |a|] == a && file[pos + |a|..|file| - 4] == b
  {
    assert file[pos..|file| - 4][..|a|] == file[pos..pos + |a|];
    assert file[pos..|file| - 4][|a|..] == file[pos + |a|..|file| - 4];
  }

  lemma PreambleSlices(sequence: u64, count: nat)
    ensures var p := Preamble(sequence, count);
      && p[0..4] == MAGIC == [66, 68, 82, 51] && p[4..8] == Put32(VERSION) == Put32(3)
      && p[8..16] == Put64(sequence) && p[16..24] == Put64(count)
  {
    hide Put32, Put64;
  }

  lemma BodySlices(crc: Crc, sequence: u64, items: seq<Item>)
    ensures var f, p := SnapshotBytes(crc, sequence, items), Preamble(sequence, |items|);
      && |f| == |Body(sequence, items)| + 4 && f[..|f| - 4] == Body(sequence, items)
      && f[|f| - 4..] == Put32(crc.Of(Body(sequence, items)))
      && f[0..4] == p[0..4] && f[4..8] == p[4..8] && f[8..16] == p[8..16] && f[16..24] == p[16..24]
      && f[24..|f| - 4] == ItemsBytes(items)
  {
    hide Put32, Crc.Of, ItemsBytes, Preamble;
  }

  /**
   * The migration reader gets back exactly the items and sequence that were written. So does the engine,
   * if and only if there are at most fifty million items, although it writes more without complaint.
   */
  lemma SnapshotRoundTrip(reader: Reader, crc: Crc, sequence: u64, items: seq<Item>)
    requires AllValid(items) && |items| <= U64_MAX
    ensures ReadSnapshot(reader, crc, SnapshotBytes(crc, sequence, items))
      == if reader == Engine && |items| > MAX_COUNT then Failure(CountUnreasonable)
         else Success(Loaded(PutAll(map[], items), sequence))
  {
    hide Put32, Put64, Crc.Of, ItemsBytes, Preamble, Body, Be32, Be64, ReadItems, PutAll, AllValid, SnapshotBytes;
    var f := SnapshotBytes(crc, sequence, items);
    BodyLength(sequence, items);
    BodySlices(crc, sequence, items);
    PreambleSlices(sequence, |items|);
    Be32At(f, |f| - 4, crc.Of(Body(sequence, items)));
    Be32At(f, 4, VERSION);
    Be64At(f, 8, sequence);
    Be64At(f, 16, |items|);
    ReadPrintedItems(reader, f, 24, items, map[]);
  }

  lemma BodyLength(sequence: u64, items: seq<Item>)
    ensures |Body(sequence, items)| == 24 + |ItemsBytes(items)|
  {
    hide ItemsBytes, Preamble;
  }

  // ------------------------------------------------------------------ what is accepted, and what is refused

  /** An item that is read is the print of a valid one. */
  lemma PrintReadItem(reader: Reader, file: Bytes, pos: nat)
    requires |file| >= 28 && ReadItem(reader, file, pos).Success?
    ensures var a := ReadItem(reader, file, pos).value;
      ValidItem(a.item) && pos < a.next <= |file| - 4 && file[pos..a.next] == ItemBytes(a.item)
  {
    hide Be32, Put32;
    var a := ReadItem(reader, file, pos).value;
    var k, v := |a.item.key|, |a.item.value|;
    Be32At(file, pos, k);
    Be32At(file, pos + 4, v);
    FourParts(file, pos, k, v);
  }

  lemma FourParts(file: Bytes, pos: nat, k: nat, v: nat)
    requires pos + 8 + k + v <= |file|
    ensures file[pos..pos + 8 + k + v] == file[pos..pos + 4] + file[pos + 4..pos + 8]
      + file[pos + 8..pos + 8 + k] + file[pos + 8 + k..pos + 8 + k + v]
  {
  }

  /** Items that are read are the print of valid ones, up to the checksum. */
  lemma {:induction false} PrintReadItems(reader: Reader, file: Bytes, pos: nat, count: nat, m: Map)
    returns (items: seq<Item>)
    requires |file| >= 28 && pos <= |file| - 4 && ReadItems(reader, file, pos, count, m).Success?
    ensures |items| == count && AllValid(items) && file[pos..|file| - 4] == ItemsBytes(items)
    ensures ReadItems(reader, file, pos, count, m) == Success(Loaded(PutAll(m, items), 0))
    decreases count
  {
    hide ReadItem, ItemBytes, ValidItem;
    if count == 0 {
      items := [];
    } else {
      PrintReadItem(reader, file, pos);
      var a := ReadItem(reader, file, pos).value;
      var rest := PrintReadItems(reader, file, a.next, count - 1, m[a.item.key := a.item.value]);
      items := [a.item] + rest;
      assert items[1..] == rest;
      assert file[pos..|file| - 4] == file[pos..a.next] + file[a.next..|file| - 4];
    }
  }

  /** The file is the print of these items, and what is loaded follows from them. */
  ghost predicate Prints(reader: Reader, crc: Crc, file: Bytes, l: Loaded, items: seq<Item>) {
    && AllValid(items) && |items| <= (if reader == Engine then 50_000_000 else U64_MAX)
    && file == SnapshotBytes(crc, l.sequence, items) && l.values == PutAll(map[], items)
  }

  /** A file that is read is its header, its items and their checksum. */
  lemma FileParts(crc: Crc, file: Bytes, items: seq<Item>)
    requires |file| >= 28 && file[0..4] == MAGIC && Be32(file, 4) == VERSION && Be64(file, 16) == |items|
    requires Be32(file, |file| - 4) == crc.Of(file[..|file| - 4]) && file[24..|file| - 4] == ItemsBytes(items)
    ensures file == SnapshotBytes(crc, Be64(file, 8), items)
  {
    hide Put32, Put64, Crc.Of, ItemsBytes, Be32, Be64;
    var n := |file| - 4;
    Be32At(file, 4, VERSION);
    Be64At(file, 8, Be64(file, 8));
    Be64At(file, 16, |items|);
    Be32At(file, n, crc.Of(file[..n]));
    assert file[..n] == file[0..4] + file[4..8] + file[8..16] + file[16..24] + file[24..n];
    assert file == file[..n] + file[n..n + 4];
  }

  /**
   * A snapshot loads exactly when the file is the print of valid items, to the last byte, with the right checksum;
   * then it loads as those items. The engine also wants at most fifty million of them.
   */
  lemma ReadSnapshotIff(reader: Reader, crc: Crc, file: Bytes, l: Loaded)
    ensures ReadSnapshot(reader, crc, file) == Success(l) <==> exists items :: Prints(reader, crc, file, l, items)
  {
    hide Be32, Be64, ReadItems, Crc.Of, SnapshotBytes, PutAll, ItemsBytes, AllValid;
    if ReadSnapshot(reader, crc, file) == Success(l) {
      var items := PrintReadItems(reader, file, 24, Be64(file, 16), map[]);
      FileParts(crc, file, items);
      assert Prints(reader, crc, file, l, items);
    } else if items :| Prints(reader, crc, file, l, items) {
      SnapshotRoundTrip(reader, crc, l.sequence, items);
    }
  }

  /** A file whose stored checksum is not that of the rest is refused, by the engine for that reason. */
  lemma WrongSum(crc: Crc, file: Bytes)
    requires |file| >= 28 && Be32(file, |file| - 4) != crc.Of(file[..|file| - 4])
    ensures ReadSnapshot(Engine, crc, file) == Failure(CrcMismatch)
    ensures ReadSnapshot(Migration, crc, file) ==
      Failure(if file[0..4] == MAGIC && Be32(file, 4) == VERSION then CrcMismatch else HeaderInvalid)
  {
    hide Be32, Be64, ReadItems, Crc.Of;
  }

  /** With a checksum like CRC-32, a snapshot with one byte changed anywhere is refused by both readers. */
  lemma DamagedSnapshot(crc: Crc, sequence: u64, items: seq<Item>, i: nat, b: byte)
    requires crc.Sharp() && i < |SnapshotBytes(crc, sequence, items)| && SnapshotBytes(crc, sequence, items)[i] != b
    ensures var file := SnapshotBytes(crc, sequence, items)[i := b];
      ReadSnapshot(Engine, crc, file) == Failure(CrcMismatch) && ReadSnapshot(Migration, crc, file).Failure?
  {
    hide Put32, Crc.Of, Crc.Sharp, Body, Be32, ReadSnapshot, SnapshotBytes, ItemsBytes;
    var f := SnapshotBytes(crc, sequence, items);
    BodySlices(crc, sequence, items);
    BodyLength(sequence, items);
    var n, file := |f| - 4, f[i := b];
    ChangedSum(crc, f, n, i, b);
    Be32At(file, n, crc.Of(file[..n]));
    WrongSum(crc, file);
  }

  /** Storing a listing rebuilds the map it lists. */
  lemma {:induction false} PutAllFrom(m: Map, items: seq<Item>)
    requires DistinctKeys(items)
    ensures forall k :: k in PutAll(m, items) <==> k in m || exists x :: x in items && x.key == k
    ensures forall x :: x in items ==> x.key in PutAll(m, items) && PutAll(m, items)[x.key] == x.value
    ensures forall k :: k in m && (forall x :: x in items ==> x.key != k) ==>
      k in PutAll(m, items) && PutAll(m, items)[k] == m[k]
    decreases |items|
  {
    if items != [] {
      var x, t, m' := items[0], items[1..], m[items[0].key := items[0].value];
      PutAllFrom(m', t);
      assert forall y :: y in items <==> y == x || y in t;
      forall y | y in t ensures y.key != x.key {
        var i :| 0 <= i < |t| && t[i] == y;
        assert items[i + 1] == y;
      }
    }
  }

  lemma PutAllLists(m: Map, items: seq<Item>)
    requires Lists(items, m)
    ensures PutAll(map[], items) == m
  {
    forall i, j | 0 <= i < j < |items| ensures items[i].key != items[j].key {
      LessTotal(items[i].key, items[j].key);
    }
    PutAllFrom(map[], items);
    var r := PutAll(map[], items);
    forall k | k in m ensures k in r && r[k] == m[k] {
      assert Item(k, m[k]) in items;
    }
  }
}
