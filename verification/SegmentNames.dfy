/** Segments by their ids: which of them a directory names after some removals. */
module SegmentNames {
  import opened Bytes
  import opened DiskModel

  ghost predicate Ascending(gs: seq<Seg>) {
    forall i, j :: 0 <= i < j < |gs| ==> gs[i].id < gs[j].id
  }

  ghost function Ids(gs: seq<Seg>): (ids: seq<u64>)
    ensures |ids| == |gs| && forall i :: 0 <= i < |gs| ==> ids[i] == gs[i].id
  {
    seq(|gs|, i requires 0 <= i < |gs| => gs[i].id)
  }

  lemma {:induction false} WithoutSegs(gs: seq<Seg>, id: u64) returns (r: seq<Seg>)
    requires Ascending(gs)
    ensures Ids(r) == Without(Ids(gs), id) && Ascending(r) && Among(r, gs)
    ensures gs != [] && gs[|gs| - 1].id != id ==> r != [] && r[|r| - 1] == gs[|gs| - 1]
    decreases |gs|
  {
    if gs == [] {
      r := [];
    } else {
      hide Ids, Among, Ascending, Without;
      FirstId(gs);
      var rest := gs[1..];
      var t := WithoutSegs(rest, id);
      r := WithoutCons(gs, rest, t, id);
    }
  }

  lemma WithoutCons(gs: seq<Seg>, rest: seq<Seg>, t: seq<Seg>, id: u64) returns (r: seq<Seg>)
    requires gs != [] && Ascending(gs) && rest == gs[1..]
    requires Ids(t) == Without(Ids(rest), id) && Ascending(t) && Among(t, rest)
    requires rest != [] && rest[|rest| - 1].id != id ==> t != [] && t[|t| - 1] == rest[|rest| - 1]
    ensures Ids(r) == Without(Ids(gs), id) && Ascending(r) && Among(r, gs)
    ensures gs[|gs| - 1].id != id ==> r != [] && r[|r| - 1] == gs[|gs| - 1]
    ensures r == if gs[0].id == id then t else [gs[0]] + t
  {
    hide Ids, Among, Ascending, Without;
    FirstId(gs);
    WithoutFirst(Ids(gs), id);
    AmongTail(t, gs);
    if gs[0].id == id {
      r := t;
    } else {
      FrontSeg(gs, t);
      r := [gs[0]] + t;
    }
  }

  lemma WithoutFirst(ids: seq<u64>, id: u64)
    requires ids != []
    ensures Without(ids, id) == if ids[0] == id then Without(ids[1..], id) else [ids[0]] + Without(ids[1..], id)
  {
  }

  ghost predicate Among(a: seq<Seg>, b: seq<Seg>) {
    forall i :: 0 <= i < |a| ==> a[i] in b
  }

  lemma FirstId(gs: seq<Seg>)
    requires gs != [] && Ascending(gs)
    ensures Ids(gs) != [] && Ids(gs)[0] == gs[0].id && Ids(gs)[1..] == Ids(gs[1..]) && Ascending(gs[1..])
  {
  }

  lemma AmongTail(a: seq<Seg>, b: seq<Seg>)
    requires b != [] && Among(a, b[1..])
    ensures Among(a, b)
  {
    forall i | 0 <= i < |a| ensures a[i] in b {
      assert a[i] in b[1..];
    }
  }

  lemma FrontSeg(gs: seq<Seg>, t: seq<Seg>)
    requires gs != [] && Ascending(gs) && Ascending(t) && Among(t, gs[1..])
    ensures Ascending([gs[0]] + t) && Ids([gs[0]] + t) == [gs[0].id] + Ids(t) && Among([gs[0]] + t, gs)
  {
    AmongTail(t, gs);
    forall j | 0 <= j < |t| ensures gs[0].id < t[j].id {
      assert t[j] in gs[1..];
      var i :| 0 <= i < |gs[1..]| && gs[1..][i] == t[j];
      assert gs[i + 1] == t[j];
    }
  }

  lemma {:induction false} RemovedSegs(n: Names, cs: seq<Change>, keep: nat -> bool, gs: seq<Seg>, segment: u64)
    returns (r: seq<Seg>)
    requires Ascending(gs) && gs != [] && gs[|gs| - 1].id == segment && n.wals == Ids(gs)
    requires forall i :: 0 <= i < |cs| ==> cs[i].RemoveWal? && cs[i].id != segment
    ensures Kept(n, cs, keep).wals == Ids(r) && Ascending(r) && Among(r, gs)
    ensures r != [] && r[|r| - 1] == gs[|gs| - 1]
    decreases |cs|
  {
    if cs == [] {
      r := gs;
    } else {
      var m := |cs| - 1;
      var q := RemovedSegs(n, cs[..m], keep, gs, segment);
      r := q;
      if keep(m) {
        r := WithoutSegs(q, cs[m].id);
        forall i | 0 <= i < |r| ensures r[i] in gs {
          assert r[i] in q;
        }
      }
    }
  }
}
