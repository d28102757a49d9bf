/** One partition of the fallback index: a Robin Hood table whose slots own their key and value. */
module ResolutivePartition {
  import opened Bytes
  import opened Options
  import opened RobinHood

  class Partition {
    const mix: Mix
    var slots: array<Slot>
    var records: nat
    ghost var pos: map<Id, nat>

    /** The table is ordered and holds exactly the located ids. */
    ghost predicate Sound()
      reads this, slots
    {
      Sane(mix, slots[..], pos, records)
    }

    /** Sound, with a free slot. */
    ghost predicate Valid()
      reads this, slots
    {
      Sound() && records < slots.Length
    }

    /** The map this partition stands for. */
    ghost function Map(): Contents
      requires Sound()
      reads this, slots
    {
      Items(slots[..], pos)
    }

    constructor (mix: Mix)
      ensures Valid() && Map() == map[] && fresh(slots)
      ensures records == 0 && this.mix == mix && slots.Length == 8
    {
      this.mix := mix;
      slots := new Slot[8](_ => EMPTY);
      records := 0;
      pos := map[];
      new;
      EightIsPower();
      EmptyTable(mix, slots[..]);
    }

    /** Overwrites one slot. */
    method Store(i: nat, s: Slot)
      requires i < slots.Length
      modifies slots
      ensures slots[..] == old(slots[..])[i := s]
    {
      slots[i] := s;
    }

    /**
     * Robin Hood insertion. The source's overflow error after the distance increment cannot
     * occur while a slot is free, so the loop has no error exit.
     */
    method InsertNolock(id: Id, value: Bytes) returns (added: bool)
      requires Valid()
      modifies this`records, this`pos, slots
      ensures Sound()
      ensures Map() == old(Map())[id := value]
      ensures added == (id !in old(Map()))
      ensures records == old(records) + if added then 1 else 0
    {
      hide Inserting, Sane, Items, PowerOfTwo;
      var n: nat := slots.Length;
      var idx: nat := Home(mix, id.fingerprint, n);
      var cur := Slot(true, 0, id, value);
      ghost var t0, pos0 := slots[..], pos;
      ghost var free: nat := FreeSlot(mix, t0, pos0, records);
      ghost var g := Progress(t0, pos, cur, idx, 0, false);
      InsertStart(mix, t0, pos0, records, id, value, free);
      while true
        invariant slots.Length == n && idx < n && g.steps < n && records == |pos0|
        invariant g.t == slots[..] && g.pos == pos && g.cur == cur && g.idx == idx
        invariant Inserting(mix, t0, pos0, id, value, free, g)
        decreases n - g.steps
      {
        var slot := slots[idx];
        if !slot.used {
          InsertPlace(mix, t0, pos0, id, value, free, g);
          Store(idx, cur);
          pos := pos[cur.id := idx];
          records := records + 1;
          return true;
        }
        if slot.id == cur.id {
          HitBeforeSwap(mix, t0, pos0, id, value, free, g);
          Store(idx, slot.(value := cur.value));
          return false;
        }
        if slot.id == id { HitBeforeSwap(mix, t0, pos0, id, value, free, g); }
        InsertAdvance(mix, t0, pos0, id, value, free, g);
        ghost var next := Advance(g);
        if slot.dist < cur.dist {
          pos := (pos - {slot.id})[cur.id := idx];
          Store(idx, cur);
          cur := slot;
        }
        idx := Next(idx, n);
        cur := cur.(dist := cur.dist + 1);
        g := next;
        assert cur.dist < n;
      }
    }

    /** Moves every record into a fresh table of the next power of two. */
    method Rehash(newCap: nat)
      requires Valid() && newCap >= slots.Length
      modifies this
      ensures Valid() && fresh(slots)
      ensures Map() == old(Map()) && records == old(records)
      ensures slots.Length >= newCap
      ensures PowerOfTwo(newCap) && newCap >= 8 ==> slots.Length == newCap
    {
      hide Sane, Items, Prefix, PowerOfTwo;
      var old_ := slots;
      ghost var t0, pos0, records0 := slots[..], pos, records;
      var cap := NextPow2(newCap);
      slots := new Slot[cap](_ => EMPTY);
      records := 0;
      pos := map[];
      EmptyTable(mix, slots[..]);
      PrefixEnds(mix, t0, pos0, records0);
      for i := 0 to old_.Length
        invariant old_[..] == t0 && slots != old_ && fresh(slots) && slots.Length == cap
        invariant Sound() && Map() == Prefix(t0, pos0, i)
      {
        PrefixStep(mix, t0, pos0, records0, i);
        PrefixRoom(mix, t0, pos0, records0, i, slots[..], pos, records);
        var s := old_[i];
        if s.used {
          var added := InsertNolock(s.id, s.value);
        }
      }
      PrefixRoom(mix, t0, pos0, records0, |t0|, slots[..], pos, records);
    }

    /** Stores a value under an id, growing first when one more record would exceed the load. */
    method Put(id: Id, value: Bytes, maxLoad: real) returns (added: bool)
      requires Valid() && 0.40 < maxLoad < 0.95
      modifies this, slots
      ensures Valid() && (fresh(slots) || slots == old(slots))
      ensures Map() == old(Map())[id := value]
      ensures added == (id !in old(Map()))
      ensures slots.Length ==
        old(if WithinLoad(records + 1, slots.Length, maxLoad) then slots.Length else 2 * slots.Length)
      ensures old(WithinLoad(records, slots.Length, maxLoad)) ==> WithinLoad(records, slots.Length, maxLoad)
    {
      ghost var n: nat, records0: nat := slots.Length, records;
      LoadCheck(records + 1, n, maxLoad);
      if (records + 1) as real / slots.Length as real > maxLoad {
        GrowLoad(records, n, maxLoad);
        Rehash(slots.Length * 2);
      }
      hide Sane, Items, WithinLoad;
      added := InsertNolock(id, value);
      LoadMonotone(records, records0 + 1, slots.Length, maxLoad);
    }

    /** Finds the slot of an id with the early exit at a free or richer slot. */
    method Locate(id: Id) returns (found: bool, idx: nat)
      requires Valid()
      ensures found == (id in Map())
      ensures found ==> idx < slots.Length && slots[idx].used && slots[idx].id == id
    {
      var n: nat := slots.Length;
      idx := Home(mix, id.fingerprint, n);
      ghost var start := idx;
      ghost var t := slots[..];
      var dist: nat := 0;
      hide Items, Missed;
      MissedNone(t, start, id);
      while true
        invariant dist < n && idx == Ahead(start, dist, n)
        invariant Missed(t, start, id, dist)
        decreases n - dist
      {
        var slot := slots[idx];
        if !slot.used || slot.dist < dist {
          LookupMiss(mix, t, pos, records, id, dist);
          return false, idx;
        }
        if slot.id == id {
          Hit(mix, t, pos, records, idx);
          return true, idx;
        }
        MissedOneMore(t, start, id, dist);
        idx := Next(idx, n);
        dist := dist + 1;
        if dist >= n {
          LookupMiss(mix, t, pos, records, id, dist);
          return false, idx;
        }
      }
    }

    method Get(id: Id) returns (r: Option<Bytes>)
      requires Valid()
      ensures r == if id in Map() then Some(Map()[id]) else None
    {
      var found, idx := Locate(id);
      if !found { return None; }
      Hit(mix, slots[..], pos, records, idx);
      return Some(slots[idx].value);
    }

    /** One turn of the backward shift. */
    method ShiftInto(hole: nat, ghost free: nat, ghost m: Contents)
      requires hole < slots.Length && Shifting(mix, slots[..], pos, records, hole, free, m) && free < slots.Length
      requires var next := slots[Next(hole, slots.Length)]; next.used && next.dist > 0
      modifies this`pos, slots
      ensures Shifting(mix, slots[..], pos, records, Next(hole, slots.Length), free, m)
      ensures Gap(Next(hole, slots.Length), free, slots.Length) < Gap(hole, free, slots.Length)
    {
      hide Shifting, Gap;
      var next := Next(hole, slots.Length);
      ShiftStep(mix, slots[..], pos, records, hole, free, m);
      pos := pos[slots[next].id := hole];
      Store(hole, slots[next].(dist := slots[next].dist - 1));
    }

    /** Empties a used slot and shifts the displaced run behind it back by one. */
    method CloseGap(hole0: nat)
      requires Valid() && hole0 < slots.Length && slots[hole0].used
      modifies this`records, this`pos, slots
      ensures Valid()
      ensures Map() == old(Map()) - {old(slots[hole0].id)}
      ensures records == old(records) - 1
    {
      hide Shifting, Sane, Items, PowerOfTwo, Next, Gap;
      var hole, n: nat := hole0, slots.Length;
      ghost var id := slots[hole].id;
      ghost var m := Items(slots[..], pos) - {id};
      ghost var free: nat := FreeSlot(mix, slots[..], pos, records);
      Hit(mix, slots[..], pos, records, hole);
      ShiftStart(mix, slots[..], pos, records, id, free);
      pos := pos - {id};
      var next: nat := Next(hole, n);
      while slots[next].used && slots[next].dist > 0
        invariant slots.Length == n && hole < n && next == Next(hole, n) && free < n
        invariant Shifting(mix, slots[..], pos, records, hole, free, m)
        decreases Gap(hole, free, n)
        modifies this`pos, slots
      {
        ShiftInto(hole, free, m);
        hole := next;
        next := Next(next, n);
      }
      ShiftEnd(mix, slots[..], pos, records, hole, free, m);
      Store(hole, EMPTY);
      records := records - 1;
    }

    /** Removes an id. */
    method Erase(id: Id) returns (erased: bool)
      requires Valid()
      modifies this`records, this`pos, slots
      ensures Valid()
      ensures Map() == old(Map()) - {id}
      ensures erased == (id in old(Map()))
      ensures records == old(records) - if erased then 1 else 0
    {
      hide Sane, Items;
      var found, hole := Locate(id);
      if found { CloseGap(hole); }
      return found;
    }
  }
}
