/** How many bytes a map is, and that a partition's live arena bytes are no more than that. */
module LiveBytes {
  import opened Bytes
  import opened KeyOrder
  import opened RobinHood
  import opened Sharding
  import opened CompactPartition

  /** The key and value bytes of all bindings. */
  ghost function MapBytes(m: Map): nat {
    if m == map[] then 0
    else
      var k := SomeKey(m);
      |k| + |m[k]| + MapBytes(m - {k})
  }

  /** Taking a binding away takes its key and value bytes, and nothing is left of the empty map: this determines it. */
  lemma {:induction false} MapBytesWithout(m: Map, k: Bytes)
    requires k in m
    ensures MapBytes(m) == |k| + |m[k]| + MapBytes(m - {k}) && MapBytes(map[]) == 0
    decreases |m|
  {
    var j := SomeKey(m);
    if j != k {
      MinusKey(m, j);
      MinusKey(m, k);
      MapBytesWithout(m - {j}, k);
      MapBytesWithout(m - {k}, j);
      assert m - {j} - {k} == m - {k} - {j};
    }
  }

  ghost function SomeId(c: Contents): (id: Id)
    requires c != map[]
    ensures id in c
  {
    var id :| id in c;
    id
  }

  /** The key and value bytes of a partition. */
  ghost function IdBytes(c: Contents): nat {
    if c == map[] then 0
    else
      var id := SomeId(c);
      |id.key| + |c[id]| + IdBytes(c - {id})
  }

  lemma MinusId(c: Contents, id: Id)
    requires id in c
    ensures |c - {id}| < |c|
  {
    assert (c - {id}).Keys == c.Keys - {id};
  }

  lemma {:induction false} IdBytesWithout(c: Contents, id: Id)
    requires id in c
    ensures IdBytes(c) == |id.key| + |c[id]| + IdBytes(c - {id}) && IdBytes(map[]) == 0
    decreases |c|
  {
    var j := SomeId(c);
    if j != id {
      MinusId(c, j);
      MinusId(c, id);
      IdBytesWithout(c - {j}, id);
      IdBytesWithout(c - {id}, j);
      assert c - {j} - {id} == c - {id} - {j};
    }
  }

  lemma IdBytesWith(c: Contents, id: Id, v: Bytes)
    requires id !in c
    ensures IdBytes(c[id := v]) == IdBytes(c) + |id.key| + |v|
  {
    IdBytesWithout(c[id := v], id);
    assert c[id := v] - {id} == c;
  }

  /** A partition holds part of the map, so no more bytes. */
  lemma {:induction false} PartBytes(h: Hashing, c: Contents, m: Map)
    requires forall id :: id in c ==> id == IdOf(h, id.key) && id.key in m && m[id.key] == c[id]
    ensures IdBytes(c) <= MapBytes(m)
    decreases |c|
  {
    if c != map[] {
      var id := SomeId(c);
      MinusId(c, id);
      MapBytesWithout(m, id.key);
      PartBytes(h, c - {id}, m - {id.key});
    }
  }

  /** The live bytes of a partition's cells are the bytes of its bindings. */
  lemma {:induction false} LiveIsBytes(mix: Mix, cells: seq<Cell>, arena: Bytes, pos: map<Id, nat>,
                                       records: nat, n: nat)
    requires Sane(mix, Decode(cells, arena), pos, records) && n <= |cells|
    requires forall i :: 0 <= i < |cells| ==> InArena(cells[i], arena)
    ensures Live(cells[..n]) == IdBytes(Prefix(Decode(cells, arena), pos, n))
    decreases n
  {
    hide Sane, Prefix, Slice;
    var t := Decode(cells, arena);
    PrefixEnds(mix, t, pos, records);
    if n > 0 {
      LiveIsBytes(mix, cells, arena, pos, records, n - 1);
      PrefixStep(mix, t, pos, records, n - 1);
      assert cells[..n][..n - 1] == cells[..n - 1];
      ViewBytes(cells[n - 1], arena);
      if t[n - 1].used { IdBytesWith(Prefix(t, pos, n - 1), t[n - 1].id, t[n - 1].value); }
    }
  }

  lemma ViewBytes(c: Cell, arena: Bytes)
    requires InArena(c, arena)
    ensures Weight(c) == if c.used then |View(c, arena).id.key| + |View(c, arena).value| else 0
    ensures View(c, arena).used == c.used
  {
  }

  /** A partition whose garbage is bounded keeps its arena close to the bytes of the whole map. */
  lemma ArenaNearLive(h: Hashing, maps: seq<Contents>, m: Map, i: nat, cells: seq<Cell>, arena: Bytes,
                      pos: map<Id, nat>, records: nat, garbage: nat)
    requires Stands(h, maps, m) && i < |maps| && Items(Decode(cells, arena), pos) == maps[i]
    requires Sane(h.mix, Decode(cells, arena), pos, records) && Accounted(cells, arena, 0, garbage)
    requires garbage < RECLAIM_FLOOR || 2 * garbage < |arena|
    ensures |arena| <= 2 * MapBytes(m) + RECLAIM_FLOOR
  {
    hide Sane, Live, Decode;
    LiveIsBytes(h.mix, cells, arena, pos, records, |cells|);
    PrefixEnds(h.mix, Decode(cells, arena), pos, records);
    assert cells[..|cells|] == cells;
    PartBytes(h, maps[i], m);
  }
}
