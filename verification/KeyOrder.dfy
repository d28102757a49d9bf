/** Byte-wise key order and the strictly sorted listing of a map. */
module KeyOrder {
  import opened Bytes

  type Map = map<Bytes, Bytes>

  datatype Item = Item(key: Bytes, value: Bytes)

  /** The order of std::string: unsigned bytes compared left to right, a proper prefix first. */
  predicate Less(a: Bytes, b: Bytes) {
    b != [] && (a == [] || a[0] < b[0] || (a[0] == b[0] && Less(a[1..], b[1..])))
  }

  /** The first n bytes agree, and then a ends or has the smaller byte. */
  predicate FirstDifference(a: Bytes, b: Bytes, n: nat) {
    n <= |a| && n < |b| && a[..n] == b[..n] && (n == |a| || a[n] < b[n])
  }

  /** Byte order, with indices: the smaller byte, or the end of the string, at the first difference. */
  ghost predicate Before(a: Bytes, b: Bytes) {
    exists n: nat :: FirstDifference(a, b, n)
  }

  lemma {:induction false} LessDiffers(a: Bytes, b: Bytes) returns (n: nat)
    requires Less(a, b)
    ensures FirstDifference(a, b, n)
    decreases |a|
  {
    n := 0;
    if a != [] && a[0] == b[0] {
      n := LessDiffers(a[1..], b[1..]);
      assert a[..n + 1] == [a[0]] + a[1..][..n] && b[..n + 1] == [b[0]] + b[1..][..n];
      n := n + 1;
    }
  }

  lemma {:induction false} DiffersLess(a: Bytes, b: Bytes, n: nat)
    requires FirstDifference(a, b, n)
    ensures Less(a, b)
    decreases n
  {
    if n > 0 {
      assert a[..n][0] == b[..n][0];
      assert a[1..][..n - 1] == a[..n][1..] && b[1..][..n - 1] == b[..n][1..];
      DiffersLess(a[1..], b[1..], n - 1);
    }
  }

  /** The order is decided at the first difference, by the smaller byte or the end of the first string. */
  lemma LessIff(a: Bytes, b: Bytes)
    ensures Less(a, b) <==> Before(a, b)
  {
    if Less(a, b) {
      var n := LessDiffers(a, b);
    } else if n: nat :| FirstDifference(a, b, n) {
      DiffersLess(a, b, n);
    }
  }

  lemma {:induction false} LessTotal(a: Bytes, b: Bytes)
    ensures a == b || Less(a, b) || Less(b, a)
    ensures !(Less(a, b) && Less(b, a))
    ensures !Less(a, a)
  {
    if a != [] && b != [] && a[0] == b[0] {
      LessTotal(a[1..], b[1..]);
      assert a == [a[0]] + a[1..];
      assert b == [b[0]] + b[1..];
    }
    if a != [] {
      LessTotal(a[1..], a[1..]);
    }
  }

  lemma {:induction false} LessTransitive(a: Bytes, b: Bytes, c: Bytes)
    requires Less(a, b) && Less(b, c)
    ensures Less(a, c)
  {
    if a != [] && b != [] && c != [] && a[0] == b[0] == c[0] {
      LessTransitive(a[1..], b[1..], c[1..]);
    }
  }

  ghost predicate StrictlySorted(s: seq<Item>) {
    forall i, j :: 0 <= i < j < |s| ==> Less(s[i].key, s[j].key)
  }

  /** s holds exactly the bindings of m, in any order and possibly with repeats. */
  ghost predicate Holds(s: seq<Item>, m: Map) {
    && (forall x :: x in s ==> x.key in m && m[x.key] == x.value)
    && (forall k :: k in m ==> Item(k, m[k]) in s)
  }

  /** s is a strictly key-sorted listing of m. */
  ghost predicate Lists(s: seq<Item>, m: Map) {
    StrictlySorted(s) && Holds(s, m)
  }

  /** In a listing every key stands before the next at their first difference. */
  lemma ListedInOrder(items: seq<Item>, m: Map)
    requires Lists(items, m)
    ensures forall i, j :: 0 <= i < j < |items| ==> Before(items[i].key, items[j].key)
  {
    forall i, j | 0 <= i < j < |items| ensures Before(items[i].key, items[j].key) {
      LessIff(items[i].key, items[j].key);
    }
  }

  /** A map has at most one strictly sorted listing. */
  lemma {:induction false} ListingUnique(s: seq<Item>, t: seq<Item>, m: Map)
    requires Lists(s, m) && Lists(t, m)
    ensures s == t
    decreases |s|
  {
    if s != [] && t != [] {
      HeadsEqual(s, t, m);
      ListingTail(s, m);
      ListingTail(t, m);
      ListingUnique(s[1..], t[1..], m - {s[0].key});
      assert s == [s[0]] + s[1..] && t == [t[0]] + t[1..];
    } else {
      EmptyListing(s, m);
      EmptyListing(t, m);
    }
  }

  lemma EmptyListing(s: seq<Item>, m: Map)
    requires Lists(s, m)
    ensures s == [] <==> m == map[]
  {
    assert s != [] ==> s[0] in s;
  }

  lemma HeadsEqual(s: seq<Item>, t: seq<Item>, m: Map)
    requires Lists(s, m) && Lists(t, m) && s != [] && t != []
    ensures s[0] == t[0]
  {
    HeadIsLeast(s, t, m);
    HeadIsLeast(t, s, m);
    LessTotal(s[0].key, t[0].key);
    assert s[0] in s && t[0] in t;
  }

  lemma HeadIsLeast(s: seq<Item>, t: seq<Item>, m: Map)
    requires Lists(s, m) && Lists(t, m) && s != [] && t != []
    ensures s[0].key == t[0].key || Less(s[0].key, t[0].key)
  {
    assert t[0] in t;
    assert Item(t[0].key, m[t[0].key]) in s;
  }

  lemma ListingTail(s: seq<Item>, m: Map)
    requires Lists(s, m) && s != []
    ensures Lists(s[1..], m - {s[0].key})
  {
    var m' := m - {s[0].key};
    forall x | x in s[1..] ensures x.key in m' && m'[x.key] == x.value {
      var i :| 0 <= i < |s[1..]| && s[1..][i] == x;
      assert s[i + 1] == x && x in s;
      LessTotal(x.key, x.key);
    }
    forall k | k in m' ensures Item(k, m'[k]) in s[1..] {
      var i :| 0 <= i < |s| && s[i] == Item(k, m[k]);
      assert s[1..][i - 1] == s[i];
    }
  }

  /** Puts x into a sorted list before the first key that is not below its own. */
  function Insert(s: seq<Item>, x: Item): (r: seq<Item>)
    ensures |r| == |s| + 1
    ensures multiset(r) == multiset(s) + multiset{x}
  {
    if s == [] || !Less(s[0].key, x.key) then [x] + s
    else
      assert s == [s[0]] + s[1..];
      [s[0]] + Insert(s[1..], x)
  }

  lemma InsertMembers(s: seq<Item>, x: Item)
    ensures forall y :: y in Insert(s, x) <==> y == x || y in s
  {
    forall y ensures y in Insert(s, x) <==> y == x || y in s {
      assert y in Insert(s, x) <==> y in multiset(Insert(s, x));
      assert y in s <==> y in multiset(s);
    }
  }

  lemma {:induction false} InsertSorted(s: seq<Item>, x: Item)
    requires StrictlySorted(s)
    requires forall y :: y in s ==> y.key != x.key
    ensures StrictlySorted(Insert(s, x))
  {
    if s == [] {
    } else if !Less(s[0].key, x.key) {
      LessTotal(s[0].key, x.key);
      assert s[0] in s;
      forall j | 0 < j < |s| ensures Less(x.key, s[j].key) {
        LessTransitive(x.key, s[0].key, s[j].key);
      }
    } else {
      InsertSorted(s[1..], x);
      var r := Insert(s[1..], x);
      forall j | 0 <= j < |r| ensures Less(s[0].key, r[j].key) {
        InsertMembers(s[1..], x);
        assert r[j] in r;
        if r[j] != x {
          var i :| 0 <= i < |s[1..]| && s[1..][i] == r[j];
          assert s[i + 1] == r[j];
        }
      }
    }
  }

  ghost predicate DistinctKeys(s: seq<Item>) {
    forall i, j :: 0 <= i < j < |s| ==> s[i].key != s[j].key
  }

  /** Sorting by key, one element after the other. */
  function SortItems(s: seq<Item>): (r: seq<Item>)
    ensures multiset(r) == multiset(s)
  {
    if s == [] then [] else
      assert s == s[..|s| - 1] + [s[|s| - 1]];
      Insert(SortItems(s[..|s| - 1]), s[|s| - 1])
  }

  /** Sorting bindings with distinct keys gives the sorted listing of the map they hold. */
  lemma {:induction false} SortItemsLists(s: seq<Item>, m: Map)
    requires DistinctKeys(s) && Holds(s, m)
    ensures Lists(SortItems(s), m)
  {
    SortItemsSorted(s);
    forall x ensures x in SortItems(s) <==> x in s {
      assert x in SortItems(s) <==> x in multiset(SortItems(s));
      assert x in s <==> x in multiset(s);
    }
  }

  lemma {:induction false} SortItemsSorted(s: seq<Item>)
    requires DistinctKeys(s)
    ensures StrictlySorted(SortItems(s))
  {
    if s != [] {
      var p, x := s[..|s| - 1], s[|s| - 1];
      SortItemsSorted(p);
      forall y | y in SortItems(p) ensures y.key != x.key {
        assert y in multiset(SortItems(p));
        assert y in multiset(p);
        var i :| 0 <= i < |p| && p[i] == y;
        assert s[i] == y;
      }
      InsertSorted(SortItems(p), x);
    }
  }

  ghost function SomeKey(m: Map): (k: Bytes)
    requires m != map[]
    ensures k in m
  {
    var k :| k in m;
    k
  }

  /** The strictly sorted listing of m. */
  ghost function Listing(m: Map): seq<Item>
    decreases m.Keys
  {
    if m == map[] then []
    else
      var k := SomeKey(m);
      Insert(Listing(m - {k}), Item(k, m[k]))
  }

  lemma {:induction false} ListingLists(m: Map)
    ensures Lists(Listing(m), m)
    ensures |Listing(m)| == |m|
    decreases m.Keys
  {
    if m != map[] {
      var k := SomeKey(m);
      var m' := m - {k};
      ListingLists(m');
      ListingInsert(Listing(m'), m', k, m[k]);
      assert m'[k := m[k]] == m;
      assert m'.Keys == m.Keys - {k};
    }
  }

  lemma ListingInsert(s: seq<Item>, m: Map, k: Bytes, v: Bytes)
    requires Lists(s, m) && k !in m
    ensures Lists(Insert(s, Item(k, v)), m[k := v])
  {
    InsertSorted(s, Item(k, v));
    InsertMembers(s, Item(k, v));
  }

  /** out lists exactly the bindings of m, each once. */
  ghost predicate Collected(out: seq<Item>, m: Map) {
    DistinctKeys(out) && Holds(out, m)
  }

  lemma CollectOne(out: seq<Item>, m: Map, x: Item)
    requires Collected(out, m) && x.key !in m
    ensures Collected(out + [x], m[x.key := x.value])
  {
    forall i | 0 <= i < |out| ensures out[i].key != x.key {
      assert out[i] in out;
    }
  }

  lemma CollectNothing()
    ensures Collected([], map[])
  {
  }

  lemma SortCollected(out: seq<Item>, m: Map)
    requires Collected(out, m)
    ensures Lists(SortItems(out), m)
  {
    SortItemsLists(out, m);
  }

  /** The bindings of a map in key order. */
  method SortedItems(m: Map) returns (items: seq<Item>)
    ensures Lists(items, m)
    ensures forall i, j :: 0 <= i < j < |items| ==> Before(items[i].key, items[j].key)
  {
    hide Collected, Lists;
    var rest := m;
    var out: seq<Item> := [];
    CollectNothing();
    assert m - m.Keys == map[];
    while rest != map[]
      invariant rest.Keys <= m.Keys && forall k :: k in rest ==> rest[k] == m[k]
      invariant Collected(out, m - rest.Keys)
      decreases rest.Keys
    {
      var k :| k in rest;
      CollectOne(out, m - rest.Keys, Item(k, rest[k]));
      assert (m - rest.Keys)[k := m[k]] == m - (rest - {k}).Keys;
      out := out + [Item(k, rest[k])];
      rest := rest - {k};
    }
    assert m - rest.Keys == m;
    SortCollected(out, m);
    items := SortItems(out);
    ListedInOrder(items, m);
  }
}
