/**
 * The Robin Hood table as a value: what every slot array of the two indexes keeps, and the
 * elementary writes (place, displace, overwrite, shift back, clear) that keep it.
 *
 * Capacities are powers of two, so the masking of the hash and of the probe index is a
 * remainder; one probe step is written as a comparison to keep the arithmetic linear.
 */
module RobinHood {
  import opened Bytes

  /** What a slot is compared on: the 64-bit fingerprint and the key itself. */
  datatype Id = Id(fingerprint: u64, key: Bytes)

  datatype Slot = Slot(used: bool, dist: nat, id: Id, value: Bytes)

  const EMPTY := Slot(false, 0, Id(0, []), [])

  /** The mixing of a fingerprint into a start index; nothing depends on what it computes. */
  type Mix = u64 -> u64

  type Contents = map<Id, Bytes>

  function Home(mix: Mix, fingerprint: u64, n: nat): (h: nat)
    requires n > 0
    ensures h < n
  {
    mix(fingerprint) % n
  }

  function Next(i: nat, n: nat): (j: nat)
    requires i < n
    ensures j < n
  {
    if i + 1 == n then 0 else i + 1
  }

  /** The index k steps before i. */
  function Back(i: nat, k: nat, n: nat): (j: nat)
    requires i < n && k <= n
    ensures k < n ==> j < n
    ensures j <= n
  {
    if k <= i then i - k else i + n - k
  }

  /** The number of probe steps from h to i. */
  function Gap(h: nat, i: nat, n: nat): (d: nat)
    requires h < n && i < n
    ensures d < n
    ensures Back(i, d, n) == h
  {
    if h <= i then i - h else i + n - h
  }

  /** The index k probe steps after h. */
  function Ahead(h: nat, k: nat, n: nat): (i: nat)
    requires h < n && k < n
    ensures i < n
    ensures Gap(h, i, n) == k
  {
    if h + k < n then h + k else h + k - n
  }

  /** Every used slot records its probe distance from home. */
  ghost predicate Anchored(mix: Mix, t: seq<Slot>) {
    forall i :: 0 <= i < |t| && t[i].used ==> t[i].dist == Gap(Home(mix, t[i].id.fingerprint, |t|), i, |t|)
  }

  /** A slot displaced to distance d at index i needs a used slot before it, displaced at least d - 1. */
  ghost predicate Supported(t: seq<Slot>, i: nat, d: nat)
    requires i < |t|
  {
    d > 0 ==> t[Back(i, 1, |t|)].used && t[Back(i, 1, |t|)].dist + 1 >= d
  }

  /** Slot i is free or supported. */
  ghost predicate Leans(t: seq<Slot>, i: nat)
    requires i < |t|
  {
    t[i].used ==> Supported(t, i, t[i].dist)
  }

  /** Every displaced slot follows a used slot displaced at most one step less. */
  ghost predicate Chained(t: seq<Slot>) {
    forall i :: 0 <= i < |t| ==> Leans(t, i)
  }

  ghost predicate Ordered(mix: Mix, t: seq<Slot>) {
    |t| >= 2 && Anchored(mix, t) && Chained(t)
  }

  /** pos is exactly where each id sits, so no id sits twice. */
  ghost predicate Located(t: seq<Slot>, pos: map<Id, nat>) {
    && (forall id :: id in pos ==> pos[id] < |t| && t[pos[id]].used && t[pos[id]].id == id)
    && (forall i :: 0 <= i < |t| && t[i].used ==> t[i].id in pos && pos[t[i].id] == i)
  }

  /** The map a table stands for. */
  ghost function Items(t: seq<Slot>, pos: map<Id, nat>): Contents {
    map id | id in pos && pos[id] < |t| :: t[pos[id]].value
  }

  /** A table in order, with every id located and as many records as counted. */
  ghost predicate Sane(mix: Mix, t: seq<Slot>, pos: map<Id, nat>, records: nat) {
    Ordered(mix, t) && Located(t, pos) && records == |pos| && PowerOfTwo(|t|) && |t| >= 8
  }

  lemma SaneShape(mix: Mix, t: seq<Slot>, pos: map<Id, nat>, records: nat)
    requires Sane(mix, t, pos, records)
    ensures PowerOfTwo(|t|) && |t| >= 8
  {
  }

  lemma SaneItems(mix: Mix, t: seq<Slot>, pos: map<Id, nat>, records: nat)
    requires Sane(mix, t, pos, records)
    ensures Items(t, pos).Keys == pos.Keys && |Items(t, pos)| == records
  {
    assert Items(t, pos).Keys == pos.Keys;
  }

  /** Taking an id out of its slot. */
  lemma Remove(t: seq<Slot>, pos: map<Id, nat>, id: Id)
    requires Located(t, pos) && id in pos
    ensures Located(t[pos[id] := EMPTY], pos - {id})
    ensures Items(t[pos[id] := EMPTY], pos - {id}) == Items(t, pos) - {id}
    ensures |pos - {id}| == |pos| - 1
  {
    assert (pos - {id}).Keys == pos.Keys - {id};
  }

  /** Storing a new id in a free slot. */
  lemma Settle(t: seq<Slot>, pos: map<Id, nat>, c: Slot, i: nat)
    requires Located(t, pos) && i < |t| && !t[i].used && c.used && c.id !in pos
    ensures Located(t[i := c], pos[c.id := i])
    ensures Items(t[i := c], pos[c.id := i]) == Items(t, pos)[c.id := c.value]
    ensures |pos[c.id := i]| == |pos| + 1
  {
    var t', pos' := t[i := c], pos[c.id := i];
    assert forall id :: id in pos ==> t'[pos[id]] == t[pos[id]];
  }

  lemma AheadGap(h: nat, i: nat, n: nat)
    requires h < n && i < n
    ensures Ahead(h, Gap(h, i, n), n) == i
  {
  }

  // ------------------------------------------------------------------ lookup

  /** Walking back from a slot of distance at least d, the slot k steps before is used with at least d - k. */
  lemma {:induction false} BackPath(mix: Mix, t: seq<Slot>, j: nat, d: nat, k: nat)
    requires Ordered(mix, t) && j < |t| && t[j].used && t[j].dist >= d && k <= d && k < |t|
    ensures t[Back(j, k, |t|)].used && t[Back(j, k, |t|)].dist + k >= d
  {
    if k > 0 {
      BackPath(mix, t, j, d, k - 1);
      var i := Back(j, k - 1, |t|);
      assert Leans(t, i);
      assert Back(i, 1, |t|) == Back(j, k, |t|);
    }
  }

  /** None of the first k probes from h hits id. */
  ghost predicate Missed(t: seq<Slot>, h: nat, id: Id, k: nat)
    requires h < |t| && k <= |t|
  {
    forall s :: 0 <= s < k ==> !(t[Ahead(h, s, |t|)].used && t[Ahead(h, s, |t|)].id == id)
  }

  /** The early exit is right: a gap or a richer slot at probe k means the id is nowhere. */
  lemma EarlyExit(mix: Mix, t: seq<Slot>, pos: map<Id, nat>, id: Id, k: nat)
    requires Ordered(mix, t) && Located(t, pos) && k < |t|
    requires var h := Home(mix, id.fingerprint, |t|);
      Missed(t, h, id, k) && (!t[Ahead(h, k, |t|)].used || t[Ahead(h, k, |t|)].dist < k)
    ensures id !in pos
  {
    if id in pos {
      var n, h, j := |t|, Home(mix, id.fingerprint, |t|), pos[id];
      var d := t[j].dist;
      if d >= k {
        assert Back(j, d - k, n) == Ahead(h, k, n);
        BackPath(mix, t, j, d, d - k);
      } else {
        AheadGap(h, j, n);
      }
    }
  }

  /** After a full circle of misses the id is nowhere. */
  lemma FullCircle(mix: Mix, t: seq<Slot>, pos: map<Id, nat>, id: Id)
    requires Ordered(mix, t) && Located(t, pos)
    requires Missed(t, Home(mix, id.fingerprint, |t|), id, |t|)
    ensures id !in pos
  {
    if id in pos {
      var h := Home(mix, id.fingerprint, |t|);
      AheadGap(h, pos[id], |t|);
    }
  }

  /** A lookup that stopped at a free slot, a richer slot or after a full circle: the id has no binding. */
  lemma LookupMiss(mix: Mix, t: seq<Slot>, pos: map<Id, nat>, records: nat, id: Id, k: nat)
    requires Sane(mix, t, pos, records) && k <= |t|
    requires Missed(t, Home(mix, id.fingerprint, |t|), id, k)
    requires k < |t| ==> var i := Ahead(Home(mix, id.fingerprint, |t|), k, |t|); !t[i].used || t[i].dist < k
    ensures id !in Items(t, pos)
  {
    if k < |t| { EarlyExit(mix, t, pos, id, k); } else { FullCircle(mix, t, pos, id); }
  }

  /** The slot at a hit is the id's own. */
  lemma Hit(mix: Mix, t: seq<Slot>, pos: map<Id, nat>, records: nat, i: nat)
    requires Sane(mix, t, pos, records) && i < |t| && t[i].used
    ensures t[i].id in pos && pos[t[i].id] == i
    ensures t[i].id in Items(t, pos) && Items(t, pos)[t[i].id] == t[i].value
  {
  }

  // ------------------------------------------------------------------ insertion

  /** c may be carried to index i: its distance is right and the slot before i is displaced enough. */
  ghost predicate Carried(mix: Mix, t: seq<Slot>, c: Slot, i: nat)
    requires i < |t|
  {
    && c.used
    && c.dist == Gap(Home(mix, c.id.fingerprint, |t|), i, |t|)
    && Supported(t, i, c.dist)
  }

  /** A carried slot never travels a full circle while some slot e is free: the overflow error cannot happen. */
  lemma NoOverflow(mix: Mix, t: seq<Slot>, c: Slot, i: nat, e: nat)
    requires Ordered(mix, t) && i < |t| && Carried(mix, t, c, i)
    requires e < |t| && !t[e].used && t[i].used
    ensures c.dist + 1 < |t|
  {
    if c.dist + 1 >= |t| {
      var k := Gap(e, i, |t|);
      assert k > 0;
      var p := Back(i, 1, |t|);
      assert Back(p, k - 1, |t|) == e;
      BackPath(mix, t, p, c.dist - 1, k - 1);
    }
  }

  /** Moving on past a slot that is at least as displaced keeps the carried slot carriable. */
  lemma StepPast(mix: Mix, t: seq<Slot>, c: Slot, i: nat)
    requires Ordered(mix, t) && i < |t| && Carried(mix, t, c, i)
    requires t[i].used && t[i].dist >= c.dist && c.dist + 1 < |t|
    ensures Carried(mix, t, c.(dist := c.dist + 1), Next(i, |t|))
  {
    assert Back(Next(i, |t|), 1, |t|) == i;
  }

  /** Dropping the carried slot into a free slot. */
  lemma Place(mix: Mix, t: seq<Slot>, pos: map<Id, nat>, c: Slot, i: nat)
    requires Ordered(mix, t) && Located(t, pos) && i < |t| && Carried(mix, t, c, i)
    requires !t[i].used && c.id !in pos
    ensures Ordered(mix, t[i := c]) && Located(t[i := c], pos[c.id := i])
    ensures Items(t[i := c], pos[c.id := i]) == Items(t, pos)[c.id := c.value]
  {
    var t', n := t[i := c], |t|;
    forall j | 0 <= j < n ensures Leans(t', j) {
      assert Leans(t, j);
    }
    Settle(t, pos, c, i);
  }

  /** Taking the place of a richer slot, which is carried on from the next index. */
  lemma Displace(mix: Mix, t: seq<Slot>, c: Slot, i: nat)
    requires Ordered(mix, t) && i < |t| && Carried(mix, t, c, i)
    requires t[i].used && t[i].dist < c.dist && t[i].dist + 1 < |t|
    ensures Ordered(mix, t[i := c])
    ensures Carried(mix, t[i := c], t[i].(dist := t[i].dist + 1), Next(i, |t|))
  {
    var t', n := t[i := c], |t|;
    assert Back(Next(i, n), 1, n) == i;
    forall j | 0 <= j < n ensures Leans(t', j) {
      assert Leans(t, j);
    }
  }

  /** The exchange keeps the contents of table and carried slot together. */
  lemma Exchange(t: seq<Slot>, pos: map<Id, nat>, c: Slot, i: nat)
    requires Located(t, pos) && i < |t| && t[i].used && c.used && c.id !in pos
    ensures var pos' := (pos - {t[i].id})[c.id := i];
      && t[i].id in pos && Located(t[i := c], pos') && t[i].id !in pos' && |pos'| == |pos|
      && Items(t[i := c], pos')[t[i].id := t[i].value] == Items(t, pos)[c.id := c.value]
  {
    var o := t[i];
    assert o.id in pos && pos[o.id] == i;
    hide Items, Located;
    Remove(t, pos, o.id);
    Settle(t[i := EMPTY], pos - {o.id}, c, i);
    assert t[i := EMPTY][i := c] == t[i := c];
    var m := Items(t, pos);
    assert (m - {o.id})[c.id := c.value][o.id := o.value] == m[c.id := c.value];
  }

  /** Overwriting the slot that already holds the id. */
  lemma Overwrite(mix: Mix, t: seq<Slot>, pos: map<Id, nat>, c: Slot, i: nat)
    requires Ordered(mix, t) && Located(t, pos) && i < |t|
    requires t[i].used && c.used && c.id == t[i].id && c.dist == t[i].dist
    ensures Ordered(mix, t[i := c]) && Located(t[i := c], pos)
    ensures c.id in pos && pos[c.id] == i
    ensures Items(t[i := c], pos) == Items(t, pos)[c.id := c.value]
  {
    var t', n := t[i := c], |t|;
    forall j | 0 <= j < n ensures Leans(t', j) {
      assert Leans(t, j);
    }
    assert c.id in pos;
  }

  /** If the id is present, every slot probed before it is at least as displaced as the probe: no swap before a hit. */
  lemma NoSwapBeforeHit(mix: Mix, t: seq<Slot>, pos: map<Id, nat>, id: Id, k: nat)
    requires Ordered(mix, t) && Located(t, pos) && id in pos && k <= t[pos[id]].dist
    ensures var i := Ahead(Home(mix, id.fingerprint, |t|), k, |t|); t[i].used && t[i].dist >= k
  {
    var n, h, j := |t|, Home(mix, id.fingerprint, |t|), pos[id];
    assert Back(j, t[j].dist - k, n) == Ahead(h, k, n);
    BackPath(mix, t, j, t[j].dist, t[j].dist - k);
  }

  /** One moment of an insertion: table, index of ids, carried slot, probe index, steps taken, swapped or not. */
  datatype Progress = Progress(t: seq<Slot>, pos: map<Id, nat>, cur: Slot, idx: nat, steps: nat, swapped: bool)

  /** What the displacement loop keeps while it inserts id into table t0, whose slot free is free. */
  ghost predicate Inserting(mix: Mix, t0: seq<Slot>, pos0: map<Id, nat>, id: Id, value: Bytes, free: nat, g: Progress) {
    var n := |t0|;
    && free < n && |g.t| == n && Sane(mix, t0, pos0, |pos0|)
    && var start := Home(mix, id.fingerprint, n);
    && g.steps <= Gap(start, free, n) && g.idx == Ahead(start, g.steps, n)
    && !g.t[free].used && |g.pos| == |pos0|
    && Ordered(mix, g.t) && Located(g.t, g.pos) && Carried(mix, g.t, g.cur, g.idx)
    && Items(g.t, g.pos)[g.cur.id := g.cur.value] == Items(t0, pos0)[id := value]
    && (!g.swapped ==> g.t == t0 && g.pos == pos0 && g.cur == Slot(true, g.steps, id, value))
    && (!g.swapped ==> Missed(t0, start, id, g.steps))
    && (g.swapped ==> id !in pos0 && g.cur.id !in g.pos && id in g.pos && Gap(start, g.pos[id], n) < g.steps)
  }

  lemma InsertStart(mix: Mix, t: seq<Slot>, pos: map<Id, nat>, records: nat, id: Id, value: Bytes, free: nat)
    requires Sane(mix, t, pos, records) && free < |t| && !t[free].used
    ensures records == |pos|
    ensures Inserting(mix, t, pos, id, value, free,
      Progress(t, pos, Slot(true, 0, id, value), Home(mix, id.fingerprint, |t|), 0, false))
  {
  }

  /** At a free slot the id is new, and dropping the carried slot there completes the insertion. */
  lemma InsertPlace(mix: Mix, t0: seq<Slot>, pos0: map<Id, nat>, id: Id, value: Bytes, free: nat, g: Progress)
    requires Inserting(mix, t0, pos0, id, value, free, g) && !g.t[g.idx].used
    ensures id !in Items(t0, pos0)
    ensures Sane(mix, g.t[g.idx := g.cur], g.pos[g.cur.id := g.idx], |pos0| + 1)
    ensures Items(g.t[g.idx := g.cur], g.pos[g.cur.id := g.idx]) == Items(t0, pos0)[id := value]
  {
    if !g.swapped { EarlyExit(mix, t0, pos0, id, g.steps); }
    Place(mix, g.t, g.pos, g.cur, g.idx);
    Settle(g.t, g.pos, g.cur, g.idx);
  }

  /** A hit on the id happens before any swap, so the carried slot is still the one being inserted. */
  lemma HitBeforeSwap(mix: Mix, t0: seq<Slot>, pos0: map<Id, nat>, id: Id, value: Bytes, free: nat, g: Progress)
    requires Inserting(mix, t0, pos0, id, value, free, g)
    requires g.t[g.idx].used && (g.t[g.idx].id == id || g.t[g.idx].id == g.cur.id)
    ensures !g.swapped && g.t == t0 && g.pos == pos0
    ensures g.cur == Slot(true, g.t[g.idx].dist, id, value) && g.t[g.idx].id == id && id in Items(t0, pos0)
    ensures Sane(mix, t0[g.idx := g.cur], pos0, |pos0|)
    ensures Items(t0[g.idx := g.cur], pos0) == Items(t0, pos0)[id := value]
  {
    Overwrite(mix, t0, pos0, g.cur, g.idx);
  }

  /** While a new id is inserted nothing is hit. */
  lemma FreshNoHit(mix: Mix, t0: seq<Slot>, pos0: map<Id, nat>, id: Id, value: Bytes, free: nat, g: Progress)
    requires Inserting(mix, t0, pos0, id, value, free, g) && id !in Items(t0, pos0)
    ensures g.t[g.idx].used ==> g.t[g.idx].id != id
  {
    if g.t[g.idx].used && g.t[g.idx].id == id { HitBeforeSwap(mix, t0, pos0, id, value, free, g); }
  }

  /** One turn of the loop past an occupied slot that is not a hit. */
  function Advance(g: Progress): Progress
    requires g.idx < |g.t|
  {
    var slot, next := g.t[g.idx], Next(g.idx, |g.t|);
    if slot.dist < g.cur.dist then
      Progress(g.t[g.idx := g.cur], (g.pos - {slot.id})[g.cur.id := g.idx],
               slot.(dist := slot.dist + 1), next, g.steps + 1, true)
    else
      g.(cur := g.cur.(dist := g.cur.dist + 1), idx := next, steps := g.steps + 1)
  }

  lemma AheadStep(h: nat, k: nat, n: nat)
    requires h < n && k + 1 < n
    ensures Next(Ahead(h, k, n), n) == Ahead(h, k + 1, n)
  {
  }

  lemma MissedNone(t: seq<Slot>, h: nat, id: Id)
    requires h < |t|
    ensures Missed(t, h, id, 0)
  {
  }

  lemma MissedOneMore(t: seq<Slot>, h: nat, id: Id, k: nat)
    requires h < |t| && k < |t| && Missed(t, h, id, k)
    requires !(t[Ahead(h, k, |t|)].used && t[Ahead(h, k, |t|)].id == id)
    ensures Missed(t, h, id, k + 1)
    ensures k + 1 < |t| ==> Next(Ahead(h, k, |t|), |t|) == Ahead(h, k + 1, |t|)
  {
  }

  /** An occupied probe is short of the free slot, and the carried slot has not gone full circle. */
  lemma InsertRoom(mix: Mix, t0: seq<Slot>, pos0: map<Id, nat>, id: Id, value: Bytes, free: nat, g: Progress)
    requires Inserting(mix, t0, pos0, id, value, free, g) && g.t[g.idx].used
    ensures var start := Home(mix, id.fingerprint, |t0|);
      && g.steps < Gap(start, free, |t0|) && Next(g.idx, |t0|) == Ahead(start, g.steps + 1, |t0|)
    ensures g.cur.dist + 1 < |t0|
  {
    hide Located, Items, PowerOfTwo, Missed;
    var start := Home(mix, id.fingerprint, |t0|);
    AheadGap(start, free, |t0|);
    AheadStep(start, g.steps, |t0|);
    NoOverflow(mix, g.t, g.cur, g.idx, free);
  }

  lemma InsertSwap(mix: Mix, t0: seq<Slot>, pos0: map<Id, nat>, id: Id, value: Bytes, free: nat, g: Progress)
    requires Inserting(mix, t0, pos0, id, value, free, g)
    requires g.t[g.idx].used && g.t[g.idx].id != id && g.t[g.idx].dist < g.cur.dist
    ensures Inserting(mix, t0, pos0, id, value, free, Advance(g))
  {
    hide Ordered, Located, Items, PowerOfTwo, Missed;
    InsertRoom(mix, t0, pos0, id, value, free, g);
    if !g.swapped { EarlyExit(mix, t0, pos0, id, g.steps); }
    Displace(mix, g.t, g.cur, g.idx);
    Exchange(g.t, g.pos, g.cur, g.idx);
  }

  /** One turn of the loop keeps the invariant, and the distance stays below the capacity. */
  lemma InsertAdvance(mix: Mix, t0: seq<Slot>, pos0: map<Id, nat>, id: Id, value: Bytes, free: nat, g: Progress)
    requires Inserting(mix, t0, pos0, id, value, free, g)
    requires g.t[g.idx].used && g.t[g.idx].id != id
    ensures Inserting(mix, t0, pos0, id, value, free, Advance(g))
    ensures Advance(g).cur.dist < |t0| && Advance(g).steps < |t0|
  {
    InsertRoom(mix, t0, pos0, id, value, free, g);
    if g.t[g.idx].dist < g.cur.dist {
      InsertSwap(mix, t0, pos0, id, value, free, g);
    } else {
      StepPast(mix, g.t, g.cur, g.idx);
      if !g.swapped { MissedOneMore(t0, Home(mix, id.fingerprint, |t0|), id, g.steps); }
    }
  }

  // ------------------------------------------------------------------ removal

  /** Moving the slot after the hole one step back into it. */
  lemma ShiftBack(mix: Mix, t: seq<Slot>, hole: nat)
    requires Ordered(mix, t) && hole < |t|
    requires t[hole].used
    requires var next := t[Next(hole, |t|)]; next.used && next.dist > 0
    ensures var next := t[Next(hole, |t|)]; Ordered(mix, t[hole := next.(dist := next.dist - 1)])
  {
    var n, at := |t|, Next(hole, |t|);
    var t' := t[hole := t[at].(dist := t[at].dist - 1)];
    assert Back(at, 1, n) == hole;
    assert Leans(t, hole) && Leans(t, at);
    forall j | 0 <= j < n ensures Leans(t', j) {
      assert Leans(t, j);
      assert Back(j, 1, n) == hole ==> j == at;
    }
  }

  /** Shifting back moves the hole one step on and loses nothing. */
  lemma ShiftContents(t: seq<Slot>, pos: map<Id, nat>, hole: nat)
    requires |t| >= 2 && hole < |t| && Located(t[hole := EMPTY], pos)
    requires t[Next(hole, |t|)].used && t[Next(hole, |t|)].dist > 0
    ensures var at := Next(hole, |t|); var next := t[at];
      var t' := t[hole := next.(dist := next.dist - 1)]; var pos' := pos[next.id := hole];
      && next.id in pos && Located(t'[at := EMPTY], pos')
      && Items(t'[at := EMPTY], pos') == Items(t[hole := EMPTY], pos)
      && |pos'| == |pos|
  {
    var u, at := t[hole := EMPTY], Next(hole, |t|);
    var c := t[at].(dist := t[at].dist - 1);
    assert u[at] == t[at] && !u[hole].used;
    assert c.id in pos && pos[c.id] == at;
    assert Items(u, pos)[c.id] == c.value;
    hide Items, Located;
    Remove(u, pos, c.id);
    Settle(u[at := EMPTY], pos - {c.id}, c, hole);
    UpdatesCommute(t, hole, at, EMPTY, c);
    Reinsert(pos, c.id, hole);
    Reinsert(Items(u, pos), c.id, c.value);
  }

  lemma UpdatesCommute<T>(t: seq<T>, i: nat, j: nat, e: T, c: T)
    requires i < |t| && j < |t| && i != j
    ensures t[i := e][j := e][i := c] == t[i := c][j := e]
  {
  }

  lemma Reinsert<K, V>(m: map<K, V>, k: K, v: V)
    ensures (m - {k})[k := v] == m[k := v]
    ensures k in m && m[k] == v ==> (m - {k})[k := v] == m
  {
  }

  /** A backward shift in progress: order holds, and with the hole emptied the contents are m. */
  ghost predicate Shifting(mix: Mix, t: seq<Slot>, pos: map<Id, nat>, records: nat, hole: nat, free: nat, m: Contents) {
    && |pos| + 1 == records && PowerOfTwo(|t|) && |t| >= 8
    && Ordered(mix, t) && hole < |t| && free < |t| && t[hole].used && !t[free].used
    && Located(t[hole := EMPTY], pos) && Items(t[hole := EMPTY], pos) == m
  }

  lemma ShiftStart(mix: Mix, t: seq<Slot>, pos: map<Id, nat>, records: nat, id: Id, free: nat)
    requires Sane(mix, t, pos, records) && id in pos && free < |t| && !t[free].used
    ensures Shifting(mix, t, pos - {id}, records, pos[id], free, Items(t, pos) - {id})
  {
    Remove(t, pos, id);
  }

  /** One turn of the backward shift. */
  lemma ShiftStep(mix: Mix, t: seq<Slot>, pos: map<Id, nat>, records: nat, hole: nat, free: nat, m: Contents)
    requires Shifting(mix, t, pos, records, hole, free, m)
    requires var next := t[Next(hole, |t|)]; next.used && next.dist > 0
    ensures var at := Next(hole, |t|); var next := t[at];
      && Shifting(mix, t[hole := next.(dist := next.dist - 1)], pos[next.id := hole], records, at, free, m)
      && Gap(at, free, |t|) < Gap(hole, free, |t|)
  {
    ShiftBack(mix, t, hole);
    ShiftContents(t, pos, hole);
  }

  lemma ShiftEnd(mix: Mix, t: seq<Slot>, pos: map<Id, nat>, records: nat, hole: nat, free: nat, m: Contents)
    requires Shifting(mix, t, pos, records, hole, free, m)
    requires var next := t[Next(hole, |t|)]; !next.used || next.dist == 0
    ensures records > 0 && Sane(mix, t[hole := EMPTY], pos, records - 1)
    ensures Items(t[hole := EMPTY], pos) == m
  {
    Clear(mix, t, hole);
  }

  /** Emptying a hole that nothing leans on. */
  lemma Clear(mix: Mix, t: seq<Slot>, hole: nat)
    requires Ordered(mix, t) && hole < |t|
    requires var next := t[Next(hole, |t|)]; !next.used || next.dist == 0
    ensures Ordered(mix, t[hole := EMPTY])
  {
    var n, t' := |t|, t[hole := EMPTY];
    forall j | 0 <= j < n ensures Leans(t', j) {
      assert Leans(t, j);
      assert Back(j, 1, n) == hole ==> j == Next(hole, n);
    }
  }

  // ------------------------------------------------------------------ counting

  /** Ids of the first n slots; as many as there are used slots among them. */
  ghost function Ids(t: seq<Slot>, pos: map<Id, nat>, n: nat): (s: set<Id>)
    requires n <= |t|
  {
    set id | id in pos && pos[id] < n
  }

  lemma {:induction false} FullPrefix(t: seq<Slot>, pos: map<Id, nat>, n: nat)
    requires Located(t, pos) && n <= |t| && forall i :: 0 <= i < n ==> t[i].used
    ensures |Ids(t, pos, n)| == n
  {
    if n > 0 {
      FullPrefix(t, pos, n - 1);
      assert Ids(t, pos, n) == Ids(t, pos, n - 1) + {t[n - 1].id};
    }
  }

  /** The bindings that sit in the first n slots. */
  ghost function Prefix(t: seq<Slot>, pos: map<Id, nat>, n: nat): Contents
    requires n <= |t|
  {
    map id | id in pos && pos[id] < n :: t[pos[id]].value
  }

  lemma PrefixStep(mix: Mix, t: seq<Slot>, pos: map<Id, nat>, records: nat, n: nat)
    requires Sane(mix, t, pos, records) && n < |t|
    ensures !t[n].used ==> Prefix(t, pos, n + 1) == Prefix(t, pos, n)
    ensures t[n].used ==> t[n].id !in Prefix(t, pos, n)
    ensures t[n].used ==> Prefix(t, pos, n + 1) == Prefix(t, pos, n)[t[n].id := t[n].value]
  {
  }

  lemma PrefixEnds(mix: Mix, t: seq<Slot>, pos: map<Id, nat>, records: nat)
    requires Sane(mix, t, pos, records)
    ensures Prefix(t, pos, 0) == map[] && Prefix(t, pos, |t|) == Items(t, pos)
  {
  }

  /** A table holding the first n slots' bindings of another has at most as many records. */
  lemma PrefixRoom(mix: Mix, t: seq<Slot>, pos: map<Id, nat>, records: nat, n: nat,
                   t': seq<Slot>, pos': map<Id, nat>, records': nat)
    requires Sane(mix, t, pos, records) && n <= |t|
    requires Sane(mix, t', pos', records') && Items(t', pos') == Prefix(t, pos, n)
    ensures records' <= records && (n == |t| ==> records' == records)
  {
    SaneItems(mix, t, pos, records);
    SaneItems(mix, t', pos', records');
    SubsetSize(Prefix(t, pos, n).Keys, pos.Keys);
    PrefixEnds(mix, t, pos, records);
  }

  lemma SubsetSize<T>(a: set<T>, b: set<T>)
    requires a <= b
    ensures |a| <= |b|
  {
    assert b == a + (b - a);
  }

  /** Fewer records than slots leaves a free slot. */
  lemma FreeSlot(mix: Mix, t: seq<Slot>, pos: map<Id, nat>, records: nat) returns (e: nat)
    requires Sane(mix, t, pos, records) && records < |t|
    ensures e < |t| && !t[e].used
  {
    if forall i :: 0 <= i < |t| ==> t[i].used {
      FullPrefix(t, pos, |t|);
      SubsetSize(Ids(t, pos, |t|), pos.Keys);
      assert false;
    }
    e :| 0 <= e < |t| && !t[e].used;
  }

  // ------------------------------------------------------------------ capacity

  predicate PowerOfTwo(n: nat) {
    n == 1 || (n > 0 && n % 2 == 0 && PowerOfTwo(n / 2))
  }

  /** The next power of two above p is its double. */
  lemma {:induction false} DoubleFits(p: nat, n: nat)
    requires PowerOfTwo(p) && PowerOfTwo(n) && p < n
    ensures 2 * p <= n
  {
    if p > 1 {
      DoubleFits(p / 2, n / 2);
    }
  }

  /** The smallest power of two that is at least n and at least 8. */
  method NextPow2(n: nat) returns (p: nat)
    ensures PowerOfTwo(p) && p >= n && p >= 8
    ensures forall q: nat :: PowerOfTwo(q) && q >= n && q >= 8 ==> p <= q
  {
    p := 8;
    assert PowerOfTwo(4);
    while p < n
      invariant PowerOfTwo(p) && p >= 8
      invariant forall q: nat :: PowerOfTwo(q) && q >= n && q >= 8 ==> p <= q
    {
      forall q: nat | PowerOfTwo(q) && q >= n && q >= 8 ensures 2 * p <= q {
        DoubleFits(p, q);
      }
      p := 2 * p;
    }
  }

  /** The table holds at most its share of records. */
  ghost predicate WithinLoad(records: nat, n: nat, maxLoad: real) {
    records as real <= maxLoad * n as real
  }

  /** The load check passes exactly when that many records stay within the load; then a slot stays free. */
  lemma LoadCheck(records: nat, n: nat, maxLoad: real)
    requires n > 0 && maxLoad < 0.95
    ensures records as real / n as real <= maxLoad <==> WithinLoad(records, n, maxLoad)
    ensures WithinLoad(records, n, maxLoad) ==> records < n
  {
    assert records as real == (records as real / n as real) * n as real;
    assert maxLoad * n as real <= 0.95 * n as real;
  }

  /** A table within its load that would exceed it by one record is within it after one doubling. */
  lemma GrowLoad(records: nat, n: nat, maxLoad: real)
    requires n >= 8 && PowerOfTwo(n) && maxLoad > 0.40
    ensures PowerOfTwo(n * 2)
    ensures WithinLoad(records, n, maxLoad) ==> WithinLoad(records + 1, n * 2, maxLoad)
  {
    assert maxLoad * (n * 2) as real == maxLoad * n as real + maxLoad * n as real;
    assert maxLoad * n as real >= 0.40 * 8.0;
  }

  lemma LoadMonotone(records: nat, more: nat, n: nat, maxLoad: real)
    requires records <= more
    ensures WithinLoad(more, n, maxLoad) ==> WithinLoad(records, n, maxLoad)
  {
  }

  lemma EmptyTable(mix: Mix, t: seq<Slot>)
    requires PowerOfTwo(|t|) && |t| >= 8 && forall i :: 0 <= i < |t| ==> t[i] == EMPTY
    ensures Sane(mix, t, map[], 0) && Items(t, map[]) == map[]
  {
  }

  lemma EightIsPower()
    ensures PowerOfTwo(8)
  {
    assert PowerOfTwo(4);
  }
}
