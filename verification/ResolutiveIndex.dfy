/** The fallback index of the v1 engine: keys routed over partitions whose slots own key and value. */
module ResolutiveIndex {
  import opened Bytes
  import opened KeyOrder
  import opened Options
  import opened RobinHood
  import opened Sharding
  import opened ResolutivePartition

  class Index {
    const h: Hashing
    const maxLoad: real
    const parts: seq<Partition>
    var size: nat
    ghost var model: Map

    constructor (partitions: seq<Partition>, h: Hashing, maxLoad: real)
      requires |partitions| > 0 && 0.40 < maxLoad < 0.95
      requires forall i, j :: 0 <= i < j < |partitions| ==>
        partitions[i] != partitions[j] && partitions[i].slots != partitions[j].slots
      requires forall i :: 0 <= i < |partitions| ==>
        partitions[i].Valid() && partitions[i].mix == h.mix && partitions[i].Map() == map[]
      ensures Valid() && model == map[] && parts == partitions && this.h == h && this.maxLoad == maxLoad
    {
      this.h, this.maxLoad, parts := h, maxLoad, partitions;
      size, model := 0, map[];
    }

    /** Opens an empty index; the partition count must be positive and the load between 0.40 and 0.95. */
    static method Create(partitionCount: nat, maxLoad: real, h: Hashing) returns (r: Option<Index>)
      ensures r.Some? <==> partitionCount > 0 && 0.40 < maxLoad < 0.95
      ensures r.Some? ==> r.value.Valid() && r.value.model == map[] && |r.value.parts| == partitionCount
    {
      hide Partition.Sound, Partition.Map, Stands;
      if partitionCount == 0 || !(0.40 < maxLoad < 0.95) { return None; }
      var ps: seq<Partition> := [];
      while |ps| < partitionCount
        invariant |ps| <= partitionCount
        invariant forall i, j :: 0 <= i < j < |ps| ==> ps[i] != ps[j] && ps[i].slots != ps[j].slots
        invariant forall i :: 0 <= i < |ps| ==>
          ps[i].Valid() && ps[i].mix == h.mix && ps[i].Map() == map[]
      {
        var p := new Partition(h.mix);
        ps := ps + [p];
      }
      var index := new Index(ps, h, maxLoad);
      return Some(index);
    }

    /** The slot arrays in use. */
    ghost function Arrays(): set<object>
      reads parts
    {
      set p | p in parts :: p.slots as object
    }

    ghost predicate Separate()
      reads parts
    {
      forall i, j :: 0 <= i < j < |parts| ==> parts[i] != parts[j] && parts[i].slots != parts[j].slots
    }

    ghost predicate PartsValid()
      reads parts, Arrays()
    {
      forall i :: 0 <= i < |parts| ==> parts[i].Valid() && parts[i].mix == h.mix
    }

    /** The maps of the partitions, in order. */
    ghost function Maps(): seq<Contents>
      requires PartsValid()
      reads parts, Arrays()
    {
      seq(|parts|, i requires 0 <= i < |parts| && parts[i].Sound() reads parts, Arrays() => parts[i].Map())
    }

    /** The partitions are sound and separate, and together stand for the model. */
    ghost predicate Valid()
      reads this, parts, Arrays()
    {
      && 0.40 < maxLoad < 0.95 && |parts| > 0
      && Separate() && PartsValid()
      && Stands(h, Maps(), model)
      && size == |model|
    }

    /** A change confined to partition i and its slots leaves the other partitions as they were. */
    twostate lemma OnlyPart(i: nat)
      requires i < |parts| && old(Separate()) && old(PartsValid())
      requires forall j :: 0 <= j < |parts| && j != i ==> unchanged(parts[j]) && unchanged(parts[j].slots)
      requires parts[i].Valid()
      requires parts[i].slots == old(parts[i].slots) || fresh(parts[i].slots)
      ensures Separate() && PartsValid()
      ensures Maps() == old(Maps())[i := parts[i].Map()]
    {
      hide Partition.Sound, Partition.Map;
      forall j | 0 <= j < |parts|
        ensures parts[j].Valid()
        ensures j != i ==> parts[j].Map() == old(parts[j].Map())
      {
        assert old(parts[j].Valid());
      }
    }

    /** Stores a value. */
    method Put(k: Bytes, v: Bytes)
      requires Valid()
      modifies this`size, this`model, parts, Arrays()
      ensures Valid()
      ensures model == old(model)[k := v] && RoutedPut(h, old(Maps()), Maps(), k, v)
    {
      hide Stands, Partition.Sound, Partition.Map, IdOf, RoutedPut;
      Routed(h, Maps(), k, v);
      var i: nat := Part(h, k, |parts|);
      ghost var maps := Maps();
      assert maps[i] == parts[i].Map();
      var added := parts[i].Put(IdOf(h, k), v, maxLoad);
      if added { size := size + 1; }
      model := model[k := v];
      OnlyPart(i);
      StandsPut(h, maps, old(model), k, v);
      assert Maps() == maps[i := maps[i][IdOf(h, k) := v]];
    }

    /** Removes a key from its partition. */
    method EraseIn(i: nat, k: Bytes) returns (erased: bool)
      requires Separate() && PartsValid() && i < |parts| && (IdOf(h, k) in Maps()[i] ==> size > 0)
      modifies this`size, this`model, parts, Arrays()
      ensures Separate() && PartsValid()
      ensures Maps() == old(Maps())[i := old(Maps())[i] - {IdOf(h, k)}]
      ensures erased == (IdOf(h, k) in old(Maps())[i])
      ensures model == old(model) - {k} && size == old(size) - if erased then 1 else 0
    {
      hide Partition.Sound, Partition.Map, IdOf;
      assert Maps()[i] == parts[i].Map();
      erased := parts[i].Erase(IdOf(h, k));
      if erased { size := size - 1; }
      model := model - {k};
      OnlyPart(i);
    }

    /** Removes a key. */
    method Erase(k: Bytes) returns (erased: bool)
      requires Valid()
      modifies this`size, this`model, parts, Arrays()
      ensures Valid()
      ensures model == old(model) - {k}
      ensures erased == (k in old(model))
    {
      hide Stands, PartsValid, Separate, IdOf;
      StandsErase(h, Maps(), model, k);
      MinusKey(model, k);
      erased := EraseIn(Part(h, k, |parts|), k);
    }

    /** Looks a key up. */
    method Get(k: Bytes) returns (r: Option<Bytes>)
      requires Valid()
      ensures r == if k in model then Some(model[k]) else None
    {
      hide Partition.Sound, Partition.Map;
      var i: nat := Part(h, k, |parts|);
      assert Maps()[i] == parts[i].Map();
      r := parts[i].Get(IdOf(h, k));
    }

    /** Every binding once, sorted by key, whatever the layout of the partitions. */
    method SnapshotItems() returns (items: seq<Item>)
      requires Valid()
      ensures Lists(items, model)
      ensures forall i, j :: 0 <= i < j < |items| ==> Before(items[i].key, items[j].key)
      ensures forall x :: x in items <==> x.key in model && model[x.key] == x.value
    {
      hide Stands, Seen, Collected, Sane, Items;
      var out: seq<Item> := [];
      ghost var n, maps := |parts|, Maps();
      SeenEnds(h, model, n);
      CollectNothing();
      for i := 0 to |parts|
        invariant Collected(out, Seen(h, model, n, i, map[], 0))
      {
        var p := parts[i];
        assert maps[i] == p.Map();
        SeenPartition(h, maps, model, i, p.slots[..], p.pos, p.records);
        for j := 0 to p.slots.Length
          invariant Collected(out, Seen(h, model, n, i, p.pos, j))
        {
          SeenSlot(h, maps, model, i, p.slots[..], p.pos, p.records, j);
          var s := p.slots[j];
          if s.used {
            var x := Item(s.id.key, s.value);
            CollectOne(out, Seen(h, model, n, i, p.pos, j), x);
            out := out + [x];
          }
        }
      }
      SortCollected(out, model);
      items := SortItems(out);
      ListedInOrder(items, model);
    }
  }
}
