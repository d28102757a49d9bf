/** Keys routed to partitions by hash: when a row of partition maps stands for one map. */
module Sharding {
  import opened Bytes
  import opened KeyOrder
  import opened RobinHood

  /** The hash functions, arbitrary and total: slot mixing, partition choice, fingerprint. */
  datatype Hashing = Hashing(mix: Mix, route: Bytes -> u64, fingerprint: Bytes -> u64)

  function IdOf(h: Hashing, k: Bytes): Id {
    Id(h.fingerprint(k), k)
  }

  /** The partition of a key among n. */
  function Part(h: Hashing, k: Bytes, n: nat): (i: nat)
    requires n > 0
    ensures i < n
  {
    h.route(k) % n
  }

  /** Only the partition of the route, modulo their number, changes: there the key, with its fingerprint, is set. */
  ghost predicate RoutedPut(h: Hashing, maps: seq<Contents>, maps': seq<Contents>, k: Bytes, v: Bytes) {
    && |maps| > 0
    && maps' == maps[h.route(k) % |maps| := maps[h.route(k) % |maps|][Id(h.fingerprint(k), k) := v]]
  }

  lemma Routed(h: Hashing, maps: seq<Contents>, k: Bytes, v: Bytes)
    requires |maps| > 0
    ensures var i := Part(h, k, |maps|); RoutedPut(h, maps, maps[i := maps[i][IdOf(h, k) := v]], k, v)
  {
  }

  /** Every key of m sits in its own partition under its own id, and the partitions hold nothing else. */
  ghost predicate Stands(h: Hashing, maps: seq<Contents>, m: Map) {
    && |maps| > 0
    && (forall k :: k in m ==> IdOf(h, k) in maps[Part(h, k, |maps|)] && maps[Part(h, k, |maps|)][IdOf(h, k)] == m[k])
    && (forall i, id :: 0 <= i < |maps| && id in maps[i] ==>
      id == IdOf(h, id.key) && i == Part(h, id.key, |maps|) && id.key in m)
  }

  lemma StandsPut(h: Hashing, maps: seq<Contents>, m: Map, k: Bytes, v: Bytes)
    requires Stands(h, maps, m)
    ensures var i := Part(h, k, |maps|);
      Stands(h, maps[i := maps[i][IdOf(h, k) := v]], m[k := v]) && (IdOf(h, k) in maps[i] <==> k in m)
  {
  }

  lemma PlusKey(m: Map, k: Bytes, v: Bytes)
    ensures |m[k := v]| == |m| + if k in m then 0 else 1
  {
    assert m[k := v].Keys == m.Keys + {k};
  }

  lemma MinusKey(m: Map, k: Bytes)
    ensures |m - {k}| == |m| - if k in m then 1 else 0
  {
    assert (m - {k}).Keys == m.Keys - {k};
  }

  lemma StandsErase(h: Hashing, maps: seq<Contents>, m: Map, k: Bytes)
    requires Stands(h, maps, m)
    ensures var i := Part(h, k, |maps|);
      Stands(h, maps[i := maps[i] - {IdOf(h, k)}], m - {k}) && (IdOf(h, k) in maps[i] <==> k in m)
  {
  }

  /** The bindings met when partitions below i, and the first j slots of partition i, have been listed. */
  ghost function Seen(h: Hashing, m: Map, n: nat, i: nat, pos: map<Id, nat>, j: nat): Map
    requires n > 0
  {
    map k | k in m && (Part(h, k, n) < i || (Part(h, k, n) == i && IdOf(h, k) in pos && pos[IdOf(h, k)] < j)) :: m[k]
  }

  /** Listing one more slot of partition i. */
  lemma SeenSlot(h: Hashing, maps: seq<Contents>, m: Map, i: nat, t: seq<Slot>, pos: map<Id, nat>, records: nat, j: nat)
    requires Stands(h, maps, m) && i < |maps| && Sane(h.mix, t, pos, records) && Items(t, pos) == maps[i] && j < |t|
    ensures !t[j].used ==> Seen(h, m, |maps|, i, pos, j + 1) == Seen(h, m, |maps|, i, pos, j)
    ensures t[j].used ==> t[j].id.key !in Seen(h, m, |maps|, i, pos, j)
    ensures t[j].used ==>
      Seen(h, m, |maps|, i, pos, j + 1) == Seen(h, m, |maps|, i, pos, j)[t[j].id.key := t[j].value]
  {
    SaneItems(h.mix, t, pos, records);
    if t[j].used {
      Hit(h.mix, t, pos, records, j);
    }
    forall k | k in m && Part(h, k, |maps|) == i && IdOf(h, k) in pos && pos[IdOf(h, k)] == j
      ensures t[j].used && t[j].id == IdOf(h, k)
    {
    }
  }

  /** When all slots of partition i are listed, all its keys are. */
  lemma SeenPartition(h: Hashing, maps: seq<Contents>, m: Map, i: nat, t: seq<Slot>, pos: map<Id, nat>, records: nat)
    requires Stands(h, maps, m) && i < |maps| && Sane(h.mix, t, pos, records) && Items(t, pos) == maps[i]
    ensures Seen(h, m, |maps|, i, pos, |t|) == Seen(h, m, |maps|, i + 1, map[], 0)
    ensures Seen(h, m, |maps|, i, pos, 0) == Seen(h, m, |maps|, i, map[], 0)
  {
    SaneItems(h.mix, t, pos, records);
  }

  lemma SeenEnds(h: Hashing, m: Map, n: nat)
    requires n > 0
    ensures Seen(h, m, n, 0, map[], 0) == map[] && Seen(h, m, n, n, map[], 0) == m
  {
  }
}
