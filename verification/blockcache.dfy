// kernel/src/devices/blockcache.c: the table of cached blocks.
module BlockTable {
  import opened Basics
  import opened Probing
  import opened RobinHoodSpec

  const MIN_TABLE_CAPACITY: nat := 32
  const DEFAULT_PRIORITY: nat := 20

  // lookupCachedBlock: the slot of the block, found or given up early.
  method LookupCachedBlock(hash: nat -> nat, slots: seq<Option<Block>>, offset: nat, ghost where_: map<nat, nat>)
    returns (found: Option<nat>)
    requires WF(hash, Table(slots, where_)) && HasEmpty(slots)
    ensures found == if offset in where_ then Some(where_[offset]) else None
    ensures found.Some? ==>
              found.value < |slots| && slots[found.value].Some? && slots[found.value].value.offset == offset
  {
    ghost var t := Table(slots, where_);
    var n := |slots|;
    ghost var z :| 0 <= z < n && slots[z].None?;
    var home := Home(hash, offset, n);
    var pl, idx := 0, home;
    assert KeyOk(t, offset);
    ProbeStep(hash, t, offset, pl);
    while slots[idx].Some? && slots[idx].value.offset != offset
      invariant pl <= Dist(home, z, n) && idx == At(home, pl, n)
      invariant offset in where_ ==> pl <= Dist(home, where_[offset], n)
      decreases Dist(home, z, n) - pl
    {
      ProbeStep(hash, t, offset, pl);
      var other := ProbeLength(hash, slots, idx);
      if other < pl {
        return None;
      }
      NextAt(home, pl, n);
      idx := Next(idx, n);
      pl := pl + 1;
    }
    ProbeStep(hash, t, offset, pl);
    return if slots[idx].Some? then Some(idx) else None;
  }

  // insertCachedBlock: a block that is nearer to its home makes room and is carried on.
  method InsertCachedBlock(hash: nat -> nat, slots: seq<Option<Block>>, block: Block, ghost where_: map<nat, nat>)
    returns (slots': seq<Option<Block>>, ghost where': map<nat, nat>)
    requires WF(hash, Table(slots, where_)) && HasEmpty(slots) && 2 <= |slots|
    ensures |slots'| == |slots| && WF(hash, Table(slots', where'))
    ensures Blocks(Table(slots', where')) == Blocks(Table(slots, where_))[block.offset := block]
    ensures where'.Keys == where_.Keys + {block.offset}
  {
    var n := |slots|;
    ghost var z :| 0 <= z < n && slots[z].None?;
    slots', where' := slots, where_;
    var cur := block;
    var pl, idx := 0, Home(hash, block.offset, n);
    assert Fits(hash, slots, idx, 0);
    while slots'[idx].Some? && slots'[idx].value.offset != cur.offset
      invariant Carrying(hash, Table(slots', where'), cur, idx, pl, z) && |slots'| == n
      invariant Blocks(Table(slots', where'))[cur.offset := cur] == Blocks(Table(slots, where_))[block.offset := block]
      invariant where'.Keys + {cur.offset} == where_.Keys + {block.offset}
      decreases Dist(idx, z, n)
    {
      CarryStep(hash, Table(slots', where'), cur, idx, pl, z);
      var other := ProbeLength(hash, slots', idx);
      if other < pl {
        var oth := slots'[idx].value;
        ghost var t := Placed(Table(slots', where'), idx, cur);
        slots' := slots'[idx := Some(cur)];
        where' := t.where_;
        cur := oth;
        pl := other;
      }
      idx := Next(idx, n);
      pl := pl + 1;
    }
    CarryEnd(hash, Table(slots', where'), cur, idx, pl, z);
    ghost var t := Placed(Table(slots', where'), idx, cur);
    slots' := slots'[idx := Some(cur)];
    where' := t.where_;
  }

  // The state of the insertion loop: `cur` is still to be placed and may be placed in slot `idx`.
  ghost predicate Carrying(hash: nat -> nat, t: Table, cur: Block, idx: nat, pl: nat, z: nat) {
    var n := |t.slots|;
    && 2 <= n && WF(hash, t) && idx < n && z < n && t.slots[z].None?
    && pl == Dist(Home(hash, cur.offset, n), idx, n) && pl + Dist(idx, z, n) < n
    && Fits(hash, t.slots, idx, pl)
    && (cur.offset in t.where_ ==>
        KeyOk(t, cur.offset) && pl <= Dist(Home(hash, cur.offset, n), t.where_[cur.offset], n))
  }

  lemma CarryStep(hash: nat -> nat, t: Table, cur: Block, idx: nat, pl: nat, z: nat)
    requires Carrying(hash, t, cur, idx, pl, z) && t.slots[idx].Some? && t.slots[idx].value.offset != cur.offset
    ensures var n := |t.slots|; Dist(Next(idx, n), z, n) < Dist(idx, z, n)
    ensures var other := ProbeLength(hash, t.slots, idx);
      if other < pl then
        var u := Placed(t, idx, cur);
        && Carrying(hash, u, t.slots[idx].value, Next(idx, |t.slots|), other + 1, z)
        && cur.offset !in t.where_
        && Blocks(u)[t.slots[idx].value.offset := t.slots[idx].value] == Blocks(t)[cur.offset := cur]
        && u.where_.Keys + {t.slots[idx].value.offset} == t.where_.Keys + {cur.offset}
      else Carrying(hash, t, cur, Next(idx, |t.slots|), pl + 1, z)
  {
    var n := |t.slots|;
    var other := ProbeLength(hash, t.slots, idx);
    ProbeStep(hash, t, cur.offset, pl);
    TowardsEmpty(idx, z, n);
    assert Prev(Next(idx, n), n) == idx;
    assert HereOk(t, idx);
    DistNext(Home(hash, cur.offset, n), idx, n);
    if other < pl {
      var oth := t.slots[idx].value;
      PlacedWF(hash, t, idx, cur);
      DistNext(Home(hash, oth.offset, n), idx, n);
      assert Blocks(t)[oth.offset] == oth;
    }
  }

  lemma CarryEnd(hash: nat -> nat, t: Table, cur: Block, idx: nat, pl: nat, z: nat)
    requires Carrying(hash, t, cur, idx, pl, z) && (t.slots[idx].Some? ==> t.slots[idx].value.offset == cur.offset)
    ensures var u := Placed(t, idx, cur);
      WF(hash, u) && Blocks(u) == Blocks(t)[cur.offset := cur] && u.where_.Keys == t.where_.Keys + {cur.offset}
  {
    ProbeStep(hash, t, cur.offset, pl);
    assert HereOk(t, idx);
    PlacedWF(hash, t, idx, cur);
  }

  // removeCachedBlock: the blocks behind the removed one move up until one is at home.
  method RemoveCachedBlock(hash: nat -> nat, slots: seq<Option<Block>>, offset: nat, ghost where_: map<nat, nat>)
    returns (slots': seq<Option<Block>>, removed: Option<Block>, ghost where': map<nat, nat>)
    requires WF(hash, Table(slots, where_)) && HasEmpty(slots) && 3 <= |slots|
    ensures |slots'| == |slots| && WF(hash, Table(slots', where'))
    ensures removed.Some? <==> offset in where_
    ensures removed.Some? ==>
              offset in Blocks(Table(slots, where_)) && removed.value == Blocks(Table(slots, where_))[offset]
    ensures Blocks(Table(slots', where')) == Blocks(Table(slots, where_)) - {offset}
    ensures |where'| == |where_| - if removed.Some? then 1 else 0
    ensures removed.Some? ==> MovedUp(hash, slots, slots', where_[offset])
    ensures HasEmpty(slots')
  {
    var n := |slots|;
    ghost var z :| 0 <= z < n && slots[z].None?;
    assert KeyOk(Table(slots, where_), offset);
    var found := LookupCachedBlock(hash, slots, offset, where_);
    if found.None? {
      assert offset !in Blocks(Table(slots, where_));
      return slots, None, where_;
    }
    var idx := found.value;
    removed := slots[idx];
    ghost var t := Removed(Table(slots, where_), idx);
    RemovedUnique(Table(slots, where_), idx);
    RemovedHoled(hash, Table(slots, where_), idx);
    slots' := slots[idx := None];
    while slots'[Next(idx, n)].Some?
      invariant |slots'| == n && Holed(hash, t, idx) && t.slots == slots'
      invariant Blocks(t) == Blocks(Table(slots, where_)) - {offset} && |t.where_| == |where_| - 1
      invariant slots[z].None? && z != idx && slots'[z].None? && SoFar(hash, slots, slots', found.value, idx, z)
      decreases Dist(idx, z, n)
    {
      var next := Next(idx, n);
      var other := ProbeLength(hash, slots', next);
      if other == 0 {
        break;
      }
      ShiftedUnique(t, idx);
      ShiftedHoled(hash, t, idx);
      SoFarStep(hash, slots, slots', found.value, idx, z);
      TowardsEmpty(idx, z, n);
      t := Shifted(t, idx);
      slots' := slots'[idx := slots'[next]][next := None];
      idx := next;
    }
    HoleCloses(hash, t, idx);
    SoFarEnd(hash, slots, slots', found.value, idx, z);
    where' := t.where_;
  }

  // Where the blocks are after a removal at `i`: in place, or one slot further up if they were not at home. None passes
  // slot `i`.
  ghost predicate MovedUp(hash: nat -> nat, slots: seq<Option<Block>>, slots': seq<Option<Block>>, i: nat) {
    && |slots'| == |slots| && i < |slots|
    && forall j: nat {:trigger slots'[j]} :: j < |slots| && slots'[j].Some? ==>
         || (slots'[j] == slots[j] && j != i)
         || (&& slots'[j] == slots[Next(j, |slots|)] && Next(j, |slots|) != i
             && Home(hash, slots'[j].value.offset, |slots|) != Next(j, |slots|))
  }

  // The same while the hole has moved from `i` to `idx`, on the way to the empty slot `z`.
  ghost predicate SoFar(hash: nat -> nat, slots: seq<Option<Block>>, slots': seq<Option<Block>>, i: nat, idx: nat,
                        z: nat)
  {
    var n := |slots|;
    && |slots'| == n && i < n && idx < n && z < n && z != i
    && Dist(i, idx, n) < Dist(i, z, n)
    && (forall j: nat {:trigger slots'[j]} :: j < n ==>
          slots'[j] == if Dist(i, j, n) < Dist(i, idx, n) then slots[Next(j, n)] else if j == idx then None
              else slots[j])
    && (forall j: nat {:trigger slots'[j]} :: j < n && Dist(i, j, n) < Dist(i, idx, n) && slots'[j].Some? ==>
          Home(hash, slots'[j].value.offset, n) != Next(j, n))
  }

  lemma SoFarStep(hash: nat -> nat, slots: seq<Option<Block>>, slots': seq<Option<Block>>, i: nat, idx: nat, z: nat)
    requires SoFar(hash, slots, slots', i, idx, z) && slots[z].None? && slots'[Next(idx, |slots|)].Some?
    requires ProbeLength(hash, slots', Next(idx, |slots|)) > 0
    ensures var x := Next(idx, |slots|); SoFar(hash, slots, slots'[idx := slots'[x]][x := None], i, x, z)
  {
  }

  lemma SoFarEnd(hash: nat -> nat, slots: seq<Option<Block>>, slots': seq<Option<Block>>, i: nat, idx: nat, z: nat)
    requires SoFar(hash, slots, slots', i, idx, z)
    ensures MovedUp(hash, slots, slots', i)
  {
  }

  class CachedBlockTable {
    const hash: nat -> nat
    var slots: seq<Option<Block>>
    var count: nat
    var capacity: nat
    ghost var where_: map<nat, nat>

    ghost function Value(): Table
      reads this
    {
      Table(slots, where_)
    }

    ghost function Map(): map<nat, Block>
      reads this
    {
      Blocks(Value())
    }

    ghost predicate Shape()
      reads this
    {
      |slots| == capacity && WF(hash, Value()) && count == |where_|
    }

    // At least one slot in three is free, but for the block that was inserted last.
    ghost predicate Valid()
      reads this
    {
      && Shape() && (capacity == 0 || capacity >= MIN_TABLE_CAPACITY)
      && 3 * count <= 2 * capacity + if capacity == 0 then 0 else 3
    }

    constructor (hash: nat -> nat)
      ensures Valid() && Map() == map[] && this.hash == hash
    {
      this.hash := hash;
      slots, count, capacity, where_ := [], 0, 0, map[];
    }

    // rebuildTable: every block is inserted into an empty table of the new size.
    method RebuildTable(newSize: nat)
      requires Shape() && count < newSize && 3 <= newSize
      modifies this
      ensures Shape() && capacity == newSize && count == old(count) && Map() == old(Map())
    {
      var newSlots: seq<Option<Block>> := seq(newSize, _ => None);
      ghost var newWhere: map<nat, nat> := map[];
      for i := 0 to capacity
        invariant |newSlots| == newSize && WF(hash, Table(newSlots, newWhere))
        invariant MovedOver(Value(), Table(newSlots, newWhere), i)
        modifies {}
      {
        MovedOverStep(Value(), Table(newSlots, newWhere), i);
        if slots[i].Some? {
          ghost var t := Table(newSlots, newWhere);
          newSlots, newWhere := InsertCachedBlock(hash, newSlots, slots[i].value, newWhere);
          MovedOverInsert(Value(), t, Table(newSlots, newWhere), i);
        }
      }
      MovedOverAll(Value(), Table(newSlots, newWhere));
      slots, capacity, where_ := newSlots, newSize, newWhere;
    }

    method TestForResize()
      requires Valid()
      modifies this
      ensures Valid() && count == old(count) && Map() == old(Map())
      ensures capacity >= MIN_TABLE_CAPACITY && 3 * count <= 2 * capacity
    {
      var newSize := capacity;
      while newSize > MIN_TABLE_CAPACITY && count * 4 < newSize
        invariant newSize == capacity || 2 * newSize + 1 >= 4 * count
      {
        newSize := newSize / 2;
      }
      if newSize < MIN_TABLE_CAPACITY {
        newSize := MIN_TABLE_CAPACITY;
      }
      while count * 3 > newSize * 2
        invariant newSize >= MIN_TABLE_CAPACITY
        decreases count * 3 - newSize * 2
      {
        newSize := newSize * 3 / 2;
      }
      if newSize != capacity {
        RebuildTable(newSize);
      }
    }

    // insertIntoTable
    method Insert(offset: nat, bytes: seq<byte>)
      requires Valid() && offset !in Map()
      modifies this
      ensures Valid() && Map() == old(Map())[offset := Block(offset, DEFAULT_PRIORITY, bytes)]
              && count == old(count) + 1
    {
      TestForResize();
      ghost var z := EmptySlot(Value());
      KeysOk(Value());
      slots, where_ := InsertCachedBlock(hash, slots, Block(offset, DEFAULT_PRIORITY, bytes), where_);
      count := count + 1;
    }

    // getFromTable: the slot of the block.
    method Get(offset: nat) returns (found: Option<nat>)
      requires Valid()
      ensures found.Some? <==> offset in Map()
      ensures found.Some? ==> found.value < |slots| && slots[found.value] == Some(Map()[offset])
    {
      KeysOk(Value());
      if count == 0 {
        return None;
      } else {
        ghost var z := EmptySlot(Value());
        found := LookupCachedBlock(hash, slots, offset, where_);
      }
    }

    // A store into a block through the pointer that getFromTable returned.
    method Change(i: nat, b: Block)
      requires Valid() && i < |slots| && slots[i].Some? && b.offset == slots[i].value.offset
      modifies this
      ensures Valid() && count == old(count) && capacity == old(capacity) && Map() == old(Map())[b.offset := b]
      ensures slots == old(slots)[i := Some(b)]
    {
      ChangedWF(hash, Value(), i, b);
      slots := slots[i := Some(b)];
    }

    // reclaimFunction: blocks that have not been used for long are dropped, the others age. A removal moves later
    // blocks into the scanned slot, which is therefore looked at again. A block that lies round the end of the table,
    // before its home, may be moved back across the end and be looked at twice.
    method Reclaim(priority: nat) returns (freed: nat)
      requires Valid()
      modifies this
      ensures Valid() && freed + count == old(count)
      ensures forall k :: k in Map() ==> k in old(Map())
      ensures forall k :: k in old(Map()) ==> Outcome(hash, old(Value()), Map(), priority, k)
    {
      ghost var was := Value();
      ScanBegins(hash, was, priority);
      freed := ScanAll(priority, was);
      AllOutcomes(hash, was, Value(), priority);
      TestForResize();
    }

    // The blocks in the first `i` slots are to stay, and `total` is how many there were.
    ghost predicate Scanning(was: Table, priority: nat, i: nat, freed: nat, total: nat)
      reads this
    {
      Valid() && i <= capacity && Scan(hash, was, Value(), priority, i) && freed + count == total
    }

    // Its loop.
    method ScanAll(priority: nat, ghost was: Table) returns (freed: nat)
      requires Scanning(was, priority, 0, 0, count)
      modifies this
      ensures Scanning(was, priority, capacity, freed, old(count))
    {
      freed := 0;
      var i: nat := 0;
      while i < capacity
        invariant i <= capacity == old(capacity) && Scanning(was, priority, i, freed, old(count))
        decreases count + (capacity - i)
      {
        i, freed := ScanSlot(i, priority, freed, was, old(count));
      }
    }

    // One slot of the scan. A slot whose block has been dropped is looked at again.
    method ScanSlot(i: nat, priority: nat, freed: nat, ghost was: Table, ghost total: nat)
      returns (i': nat, freed': nat)
      requires i < capacity && Scanning(was, priority, i, freed, total)
      modifies this
      ensures capacity == old(capacity) && Scanning(was, priority, i', freed', total)
      ensures (i' == i && count + 1 == old(count)) || (i' == i + 1 && count == old(count))
    {
      var dropped := false;
      if slots[i].Some? {
        dropped := DropOrAge(i, priority, was);
      } else {
        ScanEmpty(hash, was, Value(), priority, i);
      }
      if dropped {
        i', freed' := i, freed + 1;
      } else {
        i', freed' := i + 1, freed;
      }
    }

    // One block of the scan: dropped, or one step older.
    method DropOrAge(i: nat, priority: nat, ghost was: Table) returns (dropped: bool)
      requires Valid() && i < capacity && slots[i].Some? && Scan(hash, was, Value(), priority, i)
      modifies this
      ensures Valid() && capacity == old(capacity)
      ensures dropped ==> count + 1 == old(count) && Scan(hash, was, Value(), priority, i)
      ensures !dropped ==> count == old(count) && Scan(hash, was, Value(), priority, i + 1)
    {
      var block := slots[i].value;
      dropped := block.priority >= priority;
      ghost var before := Value();
      assert HereOk(before, i);
      if dropped {
        Drop(block.offset);
        ScanDrops(hash, was, before, Value(), priority, i);
      } else {
        Change(i, block.(priority := block.priority + 1));
        ScanAges(hash, was, before, Value(), priority, i);
      }
    }

    // The removal of a block during a reclaim pass.
    method Drop(offset: nat)
      requires Valid() && offset in where_
      modifies this
      ensures Valid() && capacity == old(capacity) && count + 1 == old(count) && Map() == old(Map()) - {offset}
      ensures MovedUp(hash, old(slots), slots, old(where_[offset]))
    {
      ghost var z := EmptySlot(Value());
      KeysOk(Value());
      var removed;
      slots, removed, where_ := RemoveCachedBlock(hash, slots, offset, where_);
      count := count - 1;
    }
  }

  // ---- A reclaim pass

  // The block `k` of the table lies before its home, round the end of the table.
  ghost predicate Wrapped(hash: nat -> nat, t: Table, k: nat) {
    k in t.where_ && 0 < |t.slots| && t.where_[k] < Home(hash, k, |t.slots|)
  }

  // What a pass that began with `was` and ended with the blocks `now` did to block `k`. A block that does not lie
  // round the end stays exactly if it is below the threshold; one that does may be looked at twice.
  ghost predicate Outcome(hash: nat -> nat, was: Table, now: map<nat, Block>, threshold: nat, k: nat)
    requires k in Blocks(was)
  {
    var old_ := Blocks(was)[k];
    && (k in now ==> old_.priority < threshold)
    && (k !in now ==> old_.priority >= threshold || (Wrapped(hash, was, k) && old_.priority + 1 >= threshold))
    && (k in now ==> now[k].bytes == old_.bytes && now[k].offset == old_.offset)
    && (k in now ==>
          || now[k].priority == old_.priority + 1
          || (Wrapped(hash, was, k) && now[k].priority == old_.priority + 2 <= threshold))
    && (k in now && Alone(was, threshold, k) && Wrapped(hash, was, k) ==> old_.priority + 1 < threshold)
  }

  // All other blocks are at or above the threshold.
  ghost predicate Alone(was: Table, threshold: nat, k: nat) {
    forall q :: q in Blocks(was) && q != k ==> Blocks(was)[q].priority >= threshold
  }

  // The block `b` in slot `j`, when the scan has come to slot `i`: it has aged once, or twice if it has been moved
  // across the end, but for the slots that are still to come.
  ghost predicate Looked(hash: nat -> nat, was: Table, threshold: nat, i: nat, j: nat, b: Block) {
    && b.offset in Blocks(was) && 0 < |was.slots|
    && var old_, h := Blocks(was)[b.offset], Home(hash, b.offset, |was.slots|);
    && b.bytes == old_.bytes && b.offset == old_.offset
    && (Wrapped(hash, was, b.offset) || j >= h)
    && b.priority
       == old_.priority + (if Wrapped(hash, was, b.offset) && j >= h then 1 else 0) + (if j < i then 1 else 0)
    && (j < i ==> b.priority <= threshold)
  }

  ghost predicate Missing(hash: nat -> nat, was: Table, threshold: nat, k: nat)
    requires k in Blocks(was)
  {
    var p := Blocks(was)[k].priority;
    p >= threshold || (Wrapped(hash, was, k) && p + 1 >= threshold)
  }

  ghost predicate Scan(hash: nat -> nat, was: Table, t: Table, threshold: nat, i: nat) {
    && |t.slots| == |was.slots|
    && (forall j: nat {:trigger t.slots[j]} :: j < |t.slots| && t.slots[j].Some? ==>
          Looked(hash, was, threshold, i, j, t.slots[j].value))
    && (forall k {:trigger Missing(hash, was, threshold, k)} :: k in Blocks(was) && k !in Blocks(t) ==>
          Missing(hash, was, threshold, k))
  }

  lemma ScanBegins(hash: nat -> nat, t: Table, threshold: nat)
    requires WF(hash, t)
    ensures Scan(hash, t, t, threshold, 0)
  {
    KeysOk(t);
    forall j: nat | j < |t.slots| && t.slots[j].Some? ensures Looked(hash, t, threshold, 0, j, t.slots[j].value) {
      assert HereOk(t, j);
    }
  }

  lemma ScanEmpty(hash: nat -> nat, was: Table, t: Table, threshold: nat, i: nat)
    requires Scan(hash, was, t, threshold, i) && i < |t.slots| && t.slots[i].None?
    ensures Scan(hash, was, t, threshold, i + 1)
  {
  }

  lemma ScanAges(hash: nat -> nat, was: Table, t: Table, u: Table, threshold: nat, i: nat)
    requires Scan(hash, was, t, threshold, i) && i < |t.slots| && t.slots[i].Some?
             && t.slots[i].value.priority < threshold
    requires var b := t.slots[i].value.(priority := t.slots[i].value.priority + 1);
      u.slots == t.slots[i := Some(b)] && Blocks(u) == Blocks(t)[b.offset := b]
    ensures Scan(hash, was, u, threshold, i + 1)
  {
  }

  lemma ScanDrops(hash: nat -> nat, was: Table, t: Table, u: Table, threshold: nat, i: nat)
    requires Scan(hash, was, t, threshold, i) && i < |t.slots| && t.slots[i].Some?
             && t.slots[i].value.priority >= threshold
    requires MovedUp(hash, t.slots, u.slots, i) && Blocks(u) == Blocks(t) - {t.slots[i].value.offset}
    ensures Scan(hash, was, u, threshold, i)
  {
    forall j: nat | j < |u.slots| && u.slots[j].Some? ensures Looked(hash, was, threshold, i, j, u.slots[j].value) {
      MovedLooked(hash, was, t, u, threshold, i, j);
    }
    forall k | k in Blocks(was) && k !in Blocks(u) ensures Missing(hash, was, threshold, k) {
      assert Looked(hash, was, threshold, i, i, t.slots[i].value);
    }
  }

  lemma MovedLooked(hash: nat -> nat, was: Table, t: Table, u: Table, threshold: nat, i: nat, j: nat)
    requires Scan(hash, was, t, threshold, i) && i < |t.slots| && MovedUp(hash, t.slots, u.slots, i)
    requires j < |u.slots| && u.slots[j].Some?
    ensures Looked(hash, was, threshold, i, j, u.slots[j].value)
  {
    var q := if u.slots[j] == t.slots[j] && j != i then j else Next(j, |t.slots|);
    assert Looked(hash, was, threshold, i, q, t.slots[q].value);
  }

  lemma ScanEnds(hash: nat -> nat, was: Table, t: Table, threshold: nat, k: nat)
    requires WF(hash, t) && Scan(hash, was, t, threshold, |t.slots|) && k in Blocks(was) && 2 <= |t.slots|
    ensures Outcome(hash, was, Blocks(t), threshold, k)
  {
    KeysOk(t);
    if k in Blocks(t) {
      var j := t.where_[k];
      assert Looked(hash, was, threshold, |t.slots|, j, t.slots[j].value);
      if Alone(was, threshold, k) {
        OnlyBlock(hash, was, t, threshold, k);
      }
    } else {
      assert Missing(hash, was, threshold, k);
    }
  }

  lemma AllOutcomes(hash: nat -> nat, was: Table, t: Table, threshold: nat)
    requires WF(hash, was) && WF(hash, t) && Scan(hash, was, t, threshold, |t.slots|) && |t.slots| != 1
    ensures forall k :: k in Blocks(t) ==> k in Blocks(was)
    ensures forall k :: k in Blocks(was) ==> Outcome(hash, was, Blocks(t), threshold, k)
  {
    KeysOk(was);
    KeysOk(t);
    forall k | k in Blocks(was) ensures Outcome(hash, was, Blocks(t), threshold, k) {
      ScanEnds(hash, was, t, threshold, k);
    }
    forall k | k in Blocks(t) ensures k in Blocks(was) {
      assert Looked(hash, was, threshold, |t.slots|, t.where_[k], t.slots[t.where_[k]].value);
    }
  }

  // The only block that is left is at home.
  lemma OnlyBlock(hash: nat -> nat, was: Table, t: Table, threshold: nat, k: nat)
    requires WF(hash, t) && Scan(hash, was, t, threshold, |t.slots|) && Alone(was, threshold, k) && k in t.where_
    requires 2 <= |t.slots|
    ensures t.where_[k] < |t.slots| && t.where_[k] == Home(hash, k, |t.slots|)
  {
    KeysOk(t);
    var n, j := |t.slots|, t.where_[k];
    var q := Prev(j, n);
    assert SlotOk(hash, t.slots, j) && HereOk(t, q);
    assert t.slots[q].None?;
  }

  // Two blocks with the last slot as their home, the second one in the first slot and below the threshold of 20.
  function RoundTheEnd(): Table {
    Table(seq(MIN_TABLE_CAPACITY, i => if i == 31 then Some(Block(0, 20, []))
        else if i == 0 then Some(Block(512, 19, [])) else None),
          map[0 := 31, 512 := 0])
  }

  // Whatever a pass leaves, it is not in it: it ages in the first slot and is found to be too old in the last one.
  lemma WrappedExample(now: map<nat, Block>)
    ensures var t := RoundTheEnd();
      && WF(_ => 31, t) && 512 in Blocks(t) && Blocks(t)[512].priority < 20
      && (Outcome(_ => 31, t, now, 20, 512) ==> 512 !in now)
  {
    var hash, t := (_: nat) => 31, RoundTheEnd();
    forall k ensures KeyOk(t, k) {
    }
    forall i: nat | i < |t.slots| ensures HereOk(t, i) && SlotOk(hash, t.slots, i) {
    }
    KeysOk(t);
    assert Blocks(t).Keys == {0, 512};
    assert Alone(t, 20, 512) && Wrapped(hash, t, 512);
  }

  lemma ChangedWF(hash: nat -> nat, t: Table, i: nat, b: Block)
    requires WF(hash, t) && i < |t.slots| && t.slots[i].Some? && b.offset == t.slots[i].value.offset
    ensures var u := t.(slots := t.slots[i := Some(b)]);
      WF(hash, u) && Blocks(u) == Blocks(t)[b.offset := b]
  {
    var u := t.(slots := t.slots[i := Some(b)]);
    assert HereOk(t, i);
    forall k ensures KeyOk(u, k) {
      assert KeyOk(t, k);
    }
    forall j: nat | j < |u.slots| ensures HereOk(u, j) && SlotOk(hash, u.slots, j) {
      assert HereOk(t, j) && SlotOk(hash, t.slots, j);
    }
    KeysOk(t);
  }

  // The blocks of the first `i` slots of `was`, and no others, are in `t`.
  ghost predicate MovedOver(was: Table, t: Table, i: nat) {
    && (forall k :: k in t.where_ <==> k in was.where_ && was.where_[k] < i)
    && (forall k :: k in Blocks(t) ==> k in Blocks(was) && Blocks(t)[k] == Blocks(was)[k])
  }

  lemma MovedOverStep(was: Table, t: Table, i: nat)
    requires Unique(was) && Unique(t) && i < |was.slots| && MovedOver(was, t, i)
    ensures was.slots[i].None? ==> MovedOver(was, t, i + 1)
    ensures was.slots[i].Some? ==> |t.where_| < |was.where_| && (|t.where_| < |t.slots| ==> HasEmpty(t.slots))
  {
    KeysOk(was);
    assert HereOk(was, i);
    if was.slots[i].Some? {
      assert t.where_.Keys <= was.where_.Keys - {was.slots[i].value.offset};
      Subset(t.where_.Keys, was.where_.Keys - {was.slots[i].value.offset});
      if |t.where_| < |t.slots| {
        var z := EmptySlot(t);
      }
    }
  }

  lemma MovedOverInsert(was: Table, t: Table, u: Table, i: nat)
    requires Unique(was) && i < |was.slots| && was.slots[i].Some? && MovedOver(was, t, i)
    requires var b := was.slots[i].value;
      Blocks(u) == Blocks(t)[b.offset := b] && u.where_.Keys == t.where_.Keys + {b.offset}
    ensures MovedOver(was, u, i + 1)
  {
    KeysOk(was);
    assert HereOk(was, i);
    assert Blocks(was)[was.slots[i].value.offset] == was.slots[i].value;
    forall k ensures k in u.where_ <==> k in was.where_ && was.where_[k] < i + 1 {
      assert k in u.where_ <==> k in t.where_ || k == was.slots[i].value.offset;
    }
  }

  lemma MovedOverAll(was: Table, t: Table)
    requires Unique(was) && Unique(t) && MovedOver(was, t, |was.slots|)
    ensures Blocks(t) == Blocks(was) && |t.where_| == |was.where_|
  {
    KeysOk(was);
    KeysOk(t);
    assert t.where_.Keys == was.where_.Keys;
  }
}
