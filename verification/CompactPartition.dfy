/**
 * One partition of the default index: a Robin Hood table of small cells that point into a byte
 * arena, which grows on every store and is compacted when enough of it is garbage.
 */
module CompactPartition {
  import opened Bytes
  import opened RobinHood
  import opened Options

  /** A slot of the compact table: fingerprint, distance, and where key and value lie in the arena. */
  datatype Cell = Cell(used: bool, fingerprint: u64, dist: nat, keyOff: u32, keyLen: u32, valueOff: u32, valueLen: u32)

  const FREE := Cell(false, 0, 0, 0, 0, 0, 0)

  const OFFSET_LIMIT: nat := 0xffff_ffff
  const RECLAIM_FLOOR: nat := 8192

  predicate InArena(c: Cell, arena: Bytes) {
    c.used ==> c.keyOff + c.keyLen <= |arena| && c.valueOff + c.valueLen <= |arena|
  }

  function Slice(arena: Bytes, off: nat, len: nat): Bytes {
    if off + len <= |arena| then arena[off..off + len] else []
  }

  /** The slot a cell stands for. */
  function View(c: Cell, arena: Bytes): Slot {
    if c.used
    then Slot(true, c.dist, Id(c.fingerprint, Slice(arena, c.keyOff, c.keyLen)), Slice(arena, c.valueOff, c.valueLen))
    else EMPTY
  }

  /** The table the cells stand for. */
  function Decode(cells: seq<Cell>, arena: Bytes): (t: seq<Slot>)
    ensures |t| == |cells|
    ensures forall i :: 0 <= i < |cells| ==> t[i] == View(cells[i], arena)
  {
    seq(|cells|, i requires 0 <= i < |cells| => View(cells[i], arena))
  }

  lemma DecodeUpdate(cells: seq<Cell>, arena: Bytes, i: nat, c: Cell)
    requires i < |cells|
    ensures Decode(cells[i := c], arena) == Decode(cells, arena)[i := View(c, arena)]
  {
  }

  function Weight(c: Cell): nat {
    if c.used then c.keyLen + c.valueLen else 0
  }

  /** The live bytes: key and value lengths of the used cells. */
  function Live(cells: seq<Cell>): nat {
    if cells == [] then 0 else Live(cells[..|cells| - 1]) + Weight(cells[|cells| - 1])
  }

  lemma {:induction false} LiveUpdate(cells: seq<Cell>, i: nat, c: Cell)
    requires i < |cells|
    ensures Live(cells[i := c]) == Live(cells) - Weight(cells[i]) + Weight(c)
  {
    var n := |cells| - 1;
    if i < n {
      LiveUpdate(cells[..n], i, c);
      assert cells[i := c][..n] == cells[..n][i := c];
    } else {
      assert cells[i := c][..n] == cells[..n];
    }
  }

  lemma {:induction false} LiveFree(cells: seq<Cell>)
    requires forall i :: 0 <= i < |cells| ==> !cells[i].used
    ensures Live(cells) == 0
  {
    if cells != [] { LiveFree(cells[..|cells| - 1]); }
  }

  lemma {:induction false} LivePrefix(cells: seq<Cell>, n: nat)
    requires n <= |cells|
    ensures Live(cells[..n]) <= Live(cells)
    decreases |cells|
  {
    if n < |cells| {
      LivePrefix(cells[..|cells| - 1], n);
      assert cells[..|cells| - 1][..n] == cells[..n];
    } else {
      assert cells[..n] == cells;
    }
  }

  lemma {:induction false} LiveSame(a: seq<Cell>, b: seq<Cell>)
    requires |a| == |b| && forall i :: 0 <= i < |a| ==> Weight(a[i]) == Weight(b[i])
    ensures Live(a) == Live(b)
  {
    if a != [] { LiveSame(a[..|a| - 1], b[..|b| - 1]); }
  }

  /** Every used cell points into the arena, and arena bytes are live, held by a carried cell, or garbage. */
  ghost predicate Accounted(cells: seq<Cell>, arena: Bytes, carried: nat, garbage: nat) {
    && (forall i :: 0 <= i < |cells| ==> InArena(cells[i], arena))
    && |arena| == Live(cells) + carried + garbage
    && |arena| <= OFFSET_LIMIT
  }

  /** Growing the arena changes no decoded slot. */
  lemma DecodeGrown(cells: seq<Cell>, arena: Bytes, more: Bytes)
    requires forall i :: 0 <= i < |cells| ==> InArena(cells[i], arena)
    ensures Decode(cells, arena + more) == Decode(cells, arena)
    ensures forall i :: 0 <= i < |cells| ==> InArena(cells[i], arena + more)
  {
    var t, u := Decode(cells, arena), Decode(cells, arena + more);
    forall i | 0 <= i < |cells| ensures t[i] == u[i] {
      assert InArena(cells[i], arena);
    }
  }

  /** Replacing a cell moves its bytes out of, and the new cell's bytes into, the live part. */
  lemma AccountedUpdate(cells: seq<Cell>, arena: Bytes, carried: nat, garbage: nat, i: nat, c: Cell,
                        carried': nat, garbage': nat)
    requires Accounted(cells, arena, carried, garbage) && i < |cells| && InArena(c, arena)
    requires Weight(c) + carried' + garbage' == Weight(cells[i]) + carried + garbage
    ensures Accounted(cells[i := c], arena, carried', garbage')
  {
    LiveUpdate(cells, i, c);
  }

  lemma AccountedAt(cells: seq<Cell>, arena: Bytes, carried: nat, garbage: nat, i: nat)
    requires Accounted(cells, arena, carried, garbage) && i < |cells|
    ensures InArena(cells[i], arena)
  {
  }

  /** Erasing turns the weight of the hole into garbage. */
  lemma GapStart(cells: seq<Cell>, arena: Bytes, garbage: nat, hole: nat)
    requires Accounted(cells, arena, 0, garbage) && hole < |cells|
    ensures Accounted(cells[hole := FREE], arena, 0, garbage + Weight(cells[hole]))
  {
    AccountedUpdate(cells, arena, 0, garbage, hole, FREE, 0, garbage + Weight(cells[hole]));
  }

  /** Moving the next cell into the hole leaves the account as it is. */
  lemma GapStep(cells: seq<Cell>, arena: Bytes, garbage: nat, hole: nat, next: nat, c: Cell)
    requires hole < |cells| && next < |cells| && hole != next
    requires Accounted(cells[hole := FREE], arena, 0, garbage)
    requires Weight(c) == Weight(cells[next]) && (InArena(cells[next], arena) ==> InArena(c, arena))
    ensures Accounted(cells[hole := c][next := FREE], arena, 0, garbage)
  {
    var a := cells[hole := FREE];
    assert a[next] == cells[next] && a[hole] == FREE;
    AccountedAt(a, arena, 0, garbage, next);
    AccountedUpdate(a, arena, 0, garbage, next, FREE, Weight(c), garbage);
    AccountedUpdate(a[next := FREE], arena, Weight(c), garbage, hole, c, 0, garbage);
    assert a[next := FREE][hole := c] == cells[hole := c][next := FREE];
  }

  /** At the start of a rehash nothing is live and all of it is carried. */
  lemma RehashStart(fresh_: seq<Cell>, cells: seq<Cell>, arena: Bytes, garbage: nat)
    requires Accounted(cells, arena, 0, garbage)
    requires forall i :: 0 <= i < |fresh_| ==> fresh_[i] == FREE
    ensures Live(cells[..0]) == 0 && Accounted(fresh_, arena, Live(cells), garbage)
  {
    LiveFree(fresh_);
  }

  /** The weight of the next cell is part of what is still carried. */
  lemma RehashStep(cells: seq<Cell>, arena: Bytes, garbage: nat, i: nat)
    requires Accounted(cells, arena, 0, garbage) && i < |cells|
    ensures InArena(cells[i], arena)
    ensures Live(cells[..i + 1]) == Live(cells[..i]) + Weight(cells[i]) <= Live(cells)
  {
    LivePrefix(cells, i + 1);
    assert cells[..i + 1][..i] == cells[..i];
    assert InArena(cells[i], arena);
  }

  /** The cell after its key and value were copied to the end of next. */
  function Moved(c: Cell, next: Bytes): Cell
    requires |next| + c.keyLen <= OFFSET_LIMIT
  {
    c.(keyOff := |next|, valueOff := |next| + c.keyLen)
  }

  /** A compaction in progress: the first i cells live in next, the others still in arena. */
  ghost predicate Compacting(cells: seq<Cell>, cells0: seq<Cell>, arena: Bytes, next: Bytes, i: nat) {
    && |cells| == |cells0| && i <= |cells|
    && (forall j :: i <= j < |cells| ==> cells[j] == cells0[j])
    && (forall j :: 0 <= j < i ==> InArena(cells[j], next) && View(cells[j], next) == View(cells0[j], arena))
    && (forall j :: 0 <= j < i ==> Weight(cells[j]) == Weight(cells0[j]))
    && |next| == Live(cells0[..i])
  }

  /** A moved cell stands for the same slot as before. */
  lemma MovedView(c: Cell, arena: Bytes, next: Bytes)
    requires c.used && InArena(c, arena) && |next| + c.keyLen + c.valueLen <= OFFSET_LIMIT
    ensures var next' := next + Slice(arena, c.keyOff, c.keyLen) + Slice(arena, c.valueOff, c.valueLen);
      && InArena(Moved(c, next), next') && View(Moved(c, next), next') == View(c, arena)
      && |next'| == |next| + Weight(c)
  {
    var k, v, d := Slice(arena, c.keyOff, c.keyLen), Slice(arena, c.valueOff, c.valueLen), Moved(c, next);
    var next' := next + k + v;
    assert next'[d.keyOff..d.keyOff + d.keyLen] == k;
    assert next'[d.valueOff..d.valueOff + d.valueLen] == v;
  }

  lemma ViewGrown(c: Cell, arena: Bytes, more: Bytes)
    requires InArena(c, arena)
    ensures InArena(c, arena + more) && View(c, arena + more) == View(c, arena)
  {
  }

  lemma CompactStep(cells: seq<Cell>, cells0: seq<Cell>, arena: Bytes, next: Bytes, garbage: nat, i: nat)
    requires Compacting(cells, cells0, arena, next, i) && i < |cells|
    requires Accounted(cells0, arena, 0, garbage)
    ensures InArena(cells[i], arena)
    ensures !cells[i].used ==> Compacting(cells, cells0, arena, next, i + 1)
    ensures cells[i].used ==> |next| + cells[i].keyLen + cells[i].valueLen <= OFFSET_LIMIT
    ensures cells[i].used ==> var c := cells[i];
      Compacting(cells[i := Moved(c, next)], cells0, arena,
                 next + Slice(arena, c.keyOff, c.keyLen) + Slice(arena, c.valueOff, c.valueLen), i + 1)
  {
    hide Slice, View, InArena;
    LivePrefix(cells0, i + 1);
    assert cells0[..i + 1][..i] == cells0[..i];
    AccountedAt(cells0, arena, 0, garbage, i);
    var c := cells[i];
    if c.used {
      MovedView(c, arena, next);
      var k, v := Slice(arena, c.keyOff, c.keyLen), Slice(arena, c.valueOff, c.valueLen);
      assert next + k + v == next + (k + v);
      forall j | 0 <= j < i
        ensures InArena(cells[j], next + k + v) && View(cells[j], next + k + v) == View(cells0[j], arena)
      {
        ViewGrown(cells[j], next, k + v);
      }
    } else {
      FreeView(c, arena, next);
    }
  }

  lemma FreeView(c: Cell, arena: Bytes, next: Bytes)
    requires !c.used
    ensures InArena(c, next) && View(c, next) == View(c, arena) == EMPTY
  {
  }

  lemma CompactStart(cells: seq<Cell>, arena: Bytes)
    ensures Compacting(cells, cells, arena, [], 0)
  {
  }

  lemma CompactDone(cells: seq<Cell>, cells0: seq<Cell>, arena: Bytes, next: Bytes, garbage: nat)
    requires Compacting(cells, cells0, arena, next, |cells|) && Accounted(cells0, arena, 0, garbage)
    ensures Decode(cells, next) == Decode(cells0, arena)
    ensures Accounted(cells, next, 0, 0) && |next| + garbage == |arena|
  {
    assert cells0[..|cells|] == cells0;
    LiveSame(cells, cells0);
  }

  datatype Outcome = Added | Updated | ArenaOverflow

  class Partition {
    const mix: Mix
    const reclaim: bool
    var slots: array<Cell>
    var arena: Bytes
    var records: nat
    var garbage: nat
    var compactions: nat
    ghost var pos: map<Id, nat>

    ghost function Table(): seq<Slot>
      reads this, slots
    {
      Decode(slots[..], arena)
    }

    /** The table is ordered, holds exactly the located ids, and the arena is accounted for. */
    ghost predicate Sound()
      reads this, slots
    {
      && Sane(mix, Table(), pos, records)
      && Accounted(slots[..], arena, 0, garbage)
    }

    ghost predicate Valid()
      reads this, slots
    {
      Sound() && records < slots.Length
    }

    /** With reclaiming on, garbage is small or less than half of the arena. */
    ghost predicate Reclaimed()
      reads this
    {
      reclaim ==> garbage < RECLAIM_FLOOR || 2 * garbage < |arena|
    }

    /** With reclaiming on, the arena stays close to what is live. */
    lemma ArenaBound()
      requires Sound() && Reclaimed() && reclaim
      ensures |arena| == Live(slots[..]) + garbage
      ensures |arena| < Live(slots[..]) + RECLAIM_FLOOR || |arena| < 2 * Live(slots[..])
    {
    }

    /** The map this partition stands for. */
    ghost function Map(): Contents
      requires Sound()
      reads this, slots
    {
      Items(Table(), pos)
    }

    constructor (mix: Mix, reclaim: bool)
      ensures Valid() && Reclaimed() && Map() == map[] && fresh(slots)
      ensures records == 0 && this.mix == mix && this.reclaim == reclaim && slots.Length == 8 && arena == []
    {
      this.mix, this.reclaim := mix, reclaim;
      slots := new Cell[8](_ => FREE);
      arena, records, garbage, compactions := [], 0, 0, 0;
      pos := map[];
      new;
      EightIsPower();
      EmptyTable(mix, Table());
      LiveFree(slots[..]);
    }

    /** Overwrites one slot. */
    method Store(i: nat, c: Cell)
      requires i < slots.Length
      modifies slots
      ensures slots[..] == old(slots[..])[i := c]
      ensures Table() == old(Table())[i := View(c, arena)]
    {
      slots[i] := c;
      DecodeUpdate(old(slots[..]), arena, i, c);
    }

    /** Copies key and value to the end of the arena, unless 32-bit offsets no longer reach. */
    method Append(id: Id, value: Bytes) returns (ok: bool, c: Cell)
      requires Sound()
      modifies this`arena
      ensures ok == (|old(arena)| + |id.key| + |value| <= OFFSET_LIMIT)
      ensures !ok ==> arena == old(arena)
      ensures ok ==> arena == old(arena) + id.key + value
      ensures ok ==> View(c, arena) == Slot(true, 0, id, value) && InArena(c, arena)
      ensures ok ==> Weight(c) == |id.key| + |value|
      ensures ok ==> Table() == old(Table()) && Accounted(slots[..], arena, Weight(c), garbage)
    {
      hide Sane, Items;
      if |arena| + |id.key| + |value| > OFFSET_LIMIT {
        return false, FREE;
      }
      var keyOff := |arena|;
      DecodeGrown(slots[..], arena, id.key + value);
      arena := arena + id.key;
      var valueOff := |arena|;
      arena := arena + value;
      assert arena == old(arena) + (id.key + value);
      c := Cell(true, id.fingerprint, 0, keyOff, |id.key|, valueOff, |value|);
      ok := true;
    }

    /** Copies the live bytes to a fresh arena, slot by slot. */
    method CompactArena()
      requires Sound()
      modifies this`arena, this`garbage, this`compactions, slots
      ensures Sound() && Table() == old(Table())
      ensures garbage == 0 && |arena| + old(garbage) == |old(arena)|
      ensures compactions == old(compactions) + 1
    {
      hide Sane, Compacting, Accounted;
      var next: Bytes := [];
      ghost var cells0 := slots[..];
      CompactStart(cells0, arena);
      for i := 0 to slots.Length
        invariant Compacting(slots[..], cells0, arena, next, i)
        modifies slots
      {
        ghost var cells := slots[..];
        CompactStep(cells, cells0, arena, next, garbage, i);
        var s := slots[i];
        if s.used {
          Store(i, Moved(s, next));
          next := next + arena[s.keyOff..s.keyOff + s.keyLen];
          next := next + arena[s.valueOff..s.valueOff + s.valueLen];
        }
      }
      CompactDone(slots[..], cells0, arena, next, garbage);
      arena := next;
      garbage := 0;
      compactions := compactions + 1;
    }

    method MaybeCompact()
      requires Sound()
      modifies this`arena, this`garbage, this`compactions, slots
      ensures Sound() && Reclaimed() && Table() == old(Table())
      ensures |arena| <= |old(arena)|
      ensures old(Reclaimed()) ==> arena == old(arena) && garbage == old(garbage) && slots[..] == old(slots[..])
    {
      hide Sane, Items;
      if reclaim && garbage >= RECLAIM_FLOOR && garbage * 2 >= |arena| {
        CompactArena();
      }
    }

    /** Overwrites one slot and settles the account. */
    method Exchange(i: nat, c: Cell, ghost carried: nat, ghost carried': nat, ghost garbage': nat)
      requires i < slots.Length && Accounted(slots[..], arena, carried, garbage) && InArena(c, arena)
      requires Weight(c) + carried' + garbage' == Weight(slots[i]) + carried + garbage
      modifies slots
      ensures Table() == old(Table())[i := View(c, arena)]
      ensures Accounted(slots[..], arena, carried', garbage')
      ensures old(InArena(slots[i], arena))
    {
      AccountedAt(slots[..], arena, carried, garbage, i);
      AccountedUpdate(slots[..], arena, carried, garbage, i, c, carried', garbage');
      Store(i, c);
    }

    /** The cell being carried and the table match the insertion's progress, and the account includes both. */
    ghost predicate Carrying(g: Progress, cur: Cell, rest: nat)
      reads this, slots
    {
      && g.t == Table() && g.pos == pos && g.cur == View(cur, arena) && g.idx < slots.Length
      && cur.used && InArena(cur, arena) && Accounted(slots[..], arena, Weight(cur) + rest, garbage)
    }

    /** The slot under the probe, as the loop compares it. */
    lemma Probed(g: Progress, cur: Cell, rest: nat)
      requires Carrying(g, cur, rest)
      ensures g.idx < slots.Length == |g.t|
      ensures g.t[g.idx].used == slots[g.idx].used
      ensures var slot := slots[g.idx];
        slot.used ==> g.t[g.idx].id == Id(slot.fingerprint, Slice(arena, slot.keyOff, slot.keyLen))
    {
    }

    /** Drops the carried cell into the free slot under the probe. */
    method Drop(idx: nat, cur: Cell, ghost g: Progress, ghost rest: nat)
      requires Carrying(g, cur, rest) && idx == g.idx && !slots[idx].used
      modifies this`records, this`pos, slots
      ensures Table() == g.t[idx := g.cur] && pos == g.pos[g.cur.id := idx] && records == old(records) + 1
      ensures Accounted(slots[..], arena, rest, garbage)
    {
      hide Accounted, Decode, Slice;
      Exchange(idx, cur, Weight(cur) + rest, rest, garbage);
      pos := pos[g.cur.id := idx];
      records := records + 1;
    }

    /** One turn past an occupied slot: swap with a richer one, then move on. */
    method Turn(idx: nat, cur: Cell, ghost g: Progress, ghost rest: nat) returns (idx': nat, cur': Cell)
      requires Carrying(g, cur, rest) && idx == g.idx && slots[idx].used
      modifies this`pos, slots
      ensures Carrying(Advance(g), cur', rest) && idx' == Advance(g).idx
    {
      hide Accounted, Decode, Slice;
      var slot := slots[idx];
      AccountedAt(slots[..], arena, Weight(cur) + rest, garbage, idx);
      cur' := cur;
      if slot.dist < cur.dist {
        pos := (pos - {g.t[idx].id})[g.cur.id := idx];
        Exchange(idx, cur, Weight(cur) + rest, Weight(slot) + rest, garbage);
        cur' := slot;
      }
      idx' := Next(idx, slots.Length);
      cur' := cur'.(dist := cur'.dist + 1);
    }

    /**
     * Robin Hood insertion of a freshly appended cell. The key compared is always the inserted one,
     * although the carried cell changes with every swap. The overflow error cannot occur.
     */
    method InsertCell(id: Id, ghost value: Bytes, cell: Cell) returns (added: bool)
      requires Sane(mix, Table(), pos, records) && records < slots.Length
      requires Accounted(slots[..], arena, Weight(cell), garbage)
      requires View(cell, arena) == Slot(true, 0, id, value) && InArena(cell, arena)
      modifies this`records, this`garbage, this`pos, slots
      ensures Sound()
      ensures Map() == old(Items(Table(), pos))[id := value]
      ensures added == (id !in old(Items(Table(), pos)))
      ensures records == old(records) + if added then 1 else 0
      ensures added ==> garbage == old(garbage)
    {
      hide Inserting, Sane, Items, PowerOfTwo, Accounted, Decode, Slice;
      var n: nat := slots.Length;
      var idx: nat, cur := Home(mix, id.fingerprint, n), cell;
      ghost var t0, pos0 := Table(), pos;
      ghost var free: nat := FreeSlot(mix, t0, pos0, records);
      ghost var g := Progress(t0, pos, View(cur, arena), idx, 0, false);
      InsertStart(mix, t0, pos0, records, id, value, free);
      assert Carrying(g, cur, 0);
      hide Carrying;
      while true
        invariant slots.Length == n && idx == g.idx < n && g.steps < n && records == |pos0|
        invariant garbage == old(garbage)
        invariant Inserting(mix, t0, pos0, id, value, free, g) && Carrying(g, cur, 0)
        decreases n - g.steps
      {
        Probed(g, cur, 0);
        var slot := slots[idx];
        if !slot.used {
          InsertPlace(mix, t0, pos0, id, value, free, g);
          Drop(idx, cur, g, 0);
          return true;
        }
        if slot.fingerprint == id.fingerprint && Slice(arena, slot.keyOff, slot.keyLen) == id.key {
          HitBeforeSwap(mix, t0, pos0, id, value, free, g);
          Replace(idx, cur, g);
          return false;
        }
        InsertAdvance(mix, t0, pos0, id, value, free, g);
        idx, cur := Turn(idx, cur, g, 0);
        g := Advance(g);
        assert g.cur.dist < n;
      }
    }

    /** Overwrites the slot under the probe; its bytes become garbage. */
    method Replace(idx: nat, cur: Cell, ghost g: Progress)
      requires Carrying(g, cur, 0) && idx == g.idx && slots[idx].used
      modifies this`garbage, slots
      ensures Table() == g.t[idx := g.cur] && pos == g.pos
      ensures Accounted(slots[..], arena, 0, garbage)
    {
      hide Accounted, Decode, Slice;
      var slot := slots[idx];
      Exchange(idx, cur, Weight(cur), 0, garbage + slot.keyLen + slot.valueLen);
      garbage := garbage + slot.keyLen + slot.valueLen;
    }

    /** Appends key and value, inserts the new cell, and reclaims if it replaced an old one. */
    method InsertNolock(id: Id, value: Bytes) returns (r: Outcome)
      requires Valid()
      modifies this`arena, this`records, this`garbage, this`compactions, this`pos, slots
      ensures Sound()
      ensures r.ArenaOverflow? <==> |old(arena)| + |id.key| + |value| > OFFSET_LIMIT
      ensures r.ArenaOverflow? ==> Map() == old(Map())
      ensures !r.ArenaOverflow? ==> Map() == old(Map())[id := value]
      ensures !r.ArenaOverflow? ==> r == if id in old(Map()) then Updated else Added
      ensures records == old(records) + if r.Added? then 1 else 0
      ensures old(Reclaimed()) ==> Reclaimed()
      ensures |arena| <= |old(arena)| + |id.key| + |value|
    {
      hide Sane, Items, PowerOfTwo, Accounted, Live, Decode, Slice, View;
      var ok, cur := Append(id, value);
      if !ok { return ArenaOverflow; }
      var added := InsertCell(id, value, cur);
      if added { return Added; }
      MaybeCompact();
      return Updated;
    }

    /** The inner loop of a rehash: places a cell whose id is new, without comparing keys. */
    method Reinsert(s: Cell, ghost rest: nat)
      requires Sane(mix, Table(), pos, records) && records < slots.Length
      requires Accounted(slots[..], arena, Weight(s) + rest, garbage) && InArena(s, arena)
      requires s.used && s.dist == 0 && View(s, arena).id !in Items(Table(), pos)
      modifies this`records, this`pos, slots
      ensures Sane(mix, Table(), pos, records)
      ensures Items(Table(), pos) == old(Items(Table(), pos))[View(s, arena).id := View(s, arena).value]
      ensures Accounted(slots[..], arena, rest, garbage)
    {
      hide Inserting, Sane, Items, PowerOfTwo, Accounted, Decode, Slice;
      var n: nat := slots.Length;
      var idx: nat, cur := Home(mix, s.fingerprint, n), s;
      ghost var t0, pos0, id, value := Table(), pos, View(s, arena).id, View(s, arena).value;
      ghost var free: nat := FreeSlot(mix, t0, pos0, records);
      ghost var g := Progress(t0, pos, View(cur, arena), idx, 0, false);
      InsertStart(mix, t0, pos0, records, id, value, free);
      assert Carrying(g, cur, rest);
      hide Carrying;
      while true
        invariant slots.Length == n && idx == g.idx < n && g.steps < n && records == |pos0|
        invariant Inserting(mix, t0, pos0, id, value, free, g) && Carrying(g, cur, rest)
        decreases n - g.steps
      {
        Probed(g, cur, rest);
        FreshNoHit(mix, t0, pos0, id, value, free, g);
        if !slots[idx].used {
          InsertPlace(mix, t0, pos0, id, value, free, g);
          Drop(idx, cur, g, rest);
          return;
        }
        InsertAdvance(mix, t0, pos0, id, value, free, g);
        idx, cur := Turn(idx, cur, g, rest);
        g := Advance(g);
      }
    }

    /** Moves every cell into a fresh table; the arena stays as it is. */
    method Rehash(newCap: nat)
      requires Valid() && newCap >= slots.Length
      modifies this`slots, this`records, this`pos
      ensures Valid() && fresh(slots)
      ensures Map() == old(Map()) && records == old(records)
      ensures slots.Length >= newCap
      ensures PowerOfTwo(newCap) && newCap >= 8 ==> slots.Length == newCap
    {
      hide Sane, Items, Prefix, PowerOfTwo, Accounted, Live, Decode;
      var old_ := slots;
      ghost var cells, t0, pos0, records0 := slots[..], Table(), pos, records;
      var cap := NextPow2(newCap);
      slots := new Cell[cap](_ => FREE);
      records := 0;
      pos := map[];
      EmptyTable(mix, Table());
      PrefixEnds(mix, t0, pos0, records0);
      RehashStart(slots[..], cells, arena, garbage);
      for i := 0 to old_.Length
        invariant old_[..] == cells && slots != old_ && fresh(slots) && slots.Length == cap
        invariant Sane(mix, Table(), pos, records) && Items(Table(), pos) == Prefix(t0, pos0, i)
        invariant Live(cells[..i]) <= Live(cells)
        invariant Accounted(slots[..], arena, Live(cells) - Live(cells[..i]), garbage)
        modifies this`records, this`pos, slots
      {
        RehashStep(cells, arena, garbage, i);
        PrefixStep(mix, t0, pos0, records0, i);
        PrefixRoom(mix, t0, pos0, records0, i, Table(), pos, records);
        var s := old_[i];
        if s.used {
          Reinsert(s.(dist := 0), Live(cells) - Live(cells[..i + 1]));
        }
      }
      assert cells[..|cells|] == cells;
      PrefixRoom(mix, t0, pos0, records0, |t0|, Table(), pos, records);
    }

    /** Stores a value under an id, growing first when one more record would exceed the load. */
    method Put(id: Id, value: Bytes, maxLoad: real) returns (r: Outcome)
      requires Valid() && 0.40 < maxLoad < 0.95
      modifies this, slots
      ensures Valid() && (fresh(slots) || slots == old(slots))
      ensures r.ArenaOverflow? <==> |old(arena)| + |id.key| + |value| > OFFSET_LIMIT
      ensures Map() == if r.ArenaOverflow? then old(Map()) else old(Map())[id := value]
      ensures !r.ArenaOverflow? ==> r == if id in old(Map()) then Updated else Added
      ensures records == old(records) + if r.Added? then 1 else 0
      ensures old(Reclaimed()) ==> Reclaimed()
      ensures |arena| <= |old(arena)| + |id.key| + |value|
      ensures slots.Length ==
        old(if WithinLoad(records + 1, slots.Length, maxLoad) then slots.Length else 2 * slots.Length)
      ensures old(WithinLoad(records, slots.Length, maxLoad)) ==> WithinLoad(records, slots.Length, maxLoad)
    {
      hide Sane, Items, Accounted, Live, Decode, WithinLoad, PowerOfTwo;
      SaneShape(mix, Table(), pos, records);
      ghost var n: nat, records0: nat := slots.Length, records;
      LoadCheck(records + 1, n, maxLoad);
      if (records + 1) as real / slots.Length as real > maxLoad {
        GrowLoad(records, n, maxLoad);
        Rehash(slots.Length * 2);
      }
      r := InsertNolock(id, value);
      LoadMonotone(records, records0 + 1, slots.Length, maxLoad);
    }

    /** Finds the slot of an id with the early exit at a free or richer slot. */
    method Locate(id: Id) returns (found: bool, idx: nat)
      requires Valid()
      ensures found == (id in Map())
      ensures found ==> idx < slots.Length && slots[idx].used && View(slots[idx], arena).id == id
    {
      hide Items, Missed, Accounted, Live, Decode;
      var n: nat := slots.Length;
      idx := Home(mix, id.fingerprint, n);
      ghost var start := idx;
      ghost var t := Table();
      var dist: nat := 0;
      MissedNone(t, start, id);
      while true
        invariant dist < n && idx == Ahead(start, dist, n)
        invariant Missed(t, start, id, dist)
        decreases n - dist
      {
        var slot := slots[idx];
        if !slot.used || slot.dist < dist {
          LookupMiss(mix, t, pos, records, id, dist);
          return false, idx;
        }
        if slot.fingerprint == id.fingerprint && Slice(arena, slot.keyOff, slot.keyLen) == id.key {
          Hit(mix, t, pos, records, idx);
          return true, idx;
        }
        MissedOneMore(t, start, id, dist);
        idx := Next(idx, n);
        dist := dist + 1;
        if dist >= n {
          LookupMiss(mix, t, pos, records, id, dist);
          return false, idx;
        }
      }
    }

    method Get(id: Id) returns (r: Option<Bytes>)
      requires Valid()
      ensures r == if id in Map() then Some(Map()[id]) else None
    {
      var found, idx := Locate(id);
      if !found { return None; }
      Hit(mix, Table(), pos, records, idx);
      return Some(Slice(arena, slots[idx].valueOff, slots[idx].valueLen));
    }

    /** A backward shift in progress, with the bytes of the emptied cell already counted as garbage. */
    ghost predicate Closing(hole: nat, free: nat, m: Contents)
      reads this, slots
    {
      && hole < slots.Length && free < slots.Length
      && Shifting(mix, Table(), pos, records, hole, free, m)
      && Accounted(slots[..][hole := FREE], arena, 0, garbage)
    }

    /** One turn of the backward shift. */
    method ShiftInto(hole: nat, ghost free: nat, ghost m: Contents)
      requires Closing(hole, free, m)
      requires var next := slots[Next(hole, slots.Length)]; next.used && next.dist > 0
      modifies this`pos, slots
      ensures Closing(Next(hole, slots.Length), free, m)
      ensures Gap(Next(hole, slots.Length), free, slots.Length) < Gap(hole, free, slots.Length)
    {
      hide Shifting, Accounted, Decode, Slice;
      var next := Next(hole, slots.Length);
      ShiftStep(mix, Table(), pos, records, hole, free, m);
      var c := slots[next].(dist := slots[next].dist - 1);
      GapStep(slots[..], arena, garbage, hole, next, c);
      pos := pos[View(c, arena).id := hole];
      Store(hole, c);
    }

    /** The end of the backward shift: the hole is emptied. */
    method EmptyHole(hole: nat, ghost free: nat, ghost m: Contents)
      requires Closing(hole, free, m)
      requires var next := slots[Next(hole, slots.Length)]; !next.used || next.dist == 0
      modifies this`records, slots
      ensures Sound() && Map() == m && records == old(records) - 1
    {
      hide Shifting, Sane, Items, Accounted, Decode, Slice;
      ShiftEnd(mix, Table(), pos, records, hole, free, m);
      Store(hole, FREE);
      records := records - 1;
    }

    /** Empties a used slot, shifts the displaced run behind it back by one, and reclaims. */
    method CloseGap(hole0: nat)
      requires Valid() && hole0 < slots.Length && slots[hole0].used
      modifies this`arena, this`records, this`garbage, this`compactions, this`pos, slots
      ensures Valid() && Reclaimed() && |arena| <= |old(arena)|
      ensures Map() == old(Map()) - {old(View(slots[hole0], arena).id)}
      ensures records == old(records) - 1
    {
      hide Shifting, Sane, Items, Accounted, Decode, Slice;
      var hole: nat, n: nat := hole0, slots.Length;
      ghost var id := View(slots[hole], arena).id;
      ghost var m := Items(Table(), pos) - {id};
      ghost var free: nat := FreeSlot(mix, Table(), pos, records);
      Hit(mix, Table(), pos, records, hole);
      ShiftStart(mix, Table(), pos, records, id, free);
      pos := pos - {id};
      GapStart(slots[..], arena, garbage, hole);
      garbage := garbage + slots[hole].keyLen + slots[hole].valueLen;
      var next: nat := Next(hole, n);
      assert Closing(hole, free, m);
      hide Closing;
      while slots[next].used && slots[next].dist > 0
        invariant slots.Length == n && hole < n && next == Next(hole, n) && free < n
        invariant Closing(hole, free, m)
        decreases Gap(hole, free, n)
        modifies this`pos, slots
      {
        ShiftInto(hole, free, m);
        hole := next;
        next := Next(next, n);
      }
      EmptyHole(hole, free, m);
      MaybeCompact();
    }

    /** Removes an id. */
    method Erase(id: Id) returns (erased: bool)
      requires Valid()
      modifies this`arena, this`records, this`garbage, this`compactions, this`pos, slots
      ensures Valid()
      ensures Map() == old(Map()) - {id}
      ensures erased == (id in old(Map()))
      ensures records == old(records) - if erased then 1 else 0
      ensures old(Reclaimed()) ==> Reclaimed()
      ensures |arena| <= |old(arena)|
    {
      hide Sane, Items, Accounted;
      var found, hole := Locate(id);
      if found { CloseGap(hole); }
      return found;
    }
  }
}
