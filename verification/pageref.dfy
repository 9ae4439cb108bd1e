// kernel/src/memory/pageref.c: how many address spaces share a page frame. Frames with a single
// reference are not in the table; a recorded count is at least 2. A value of 1 marks a dead slot.
module PageRef {
  import opened Probing

  const MIN_TABLE_CAPACITY: nat := 128

  // The table as a value. `slot` says in which slot a recorded page lies.
  datatype Table = Table(keys: seq<nat>, values: seq<nat>, slot: map<nat, nat>)

  function Home(hash: nat -> nat, k: nat, n: nat): (h: nat)
    requires n > 0
    ensures h < n
  {
    hash(k) % n
  }

  // Every recorded page lies where `slot` says, and a probe for it passes no empty slot and no slot,
  // dead or alive, that carries its key. Dead slots may carry any key, also several times the same.
  ghost predicate KeyOk(hash: nat -> nat, t: Table, k: nat)
    requires |t.keys| == |t.values|
  {
    var n := |t.keys|;
    k in t.slot ==>
      && t.slot[k] < n && t.keys[t.slot[k]] == k && t.values[t.slot[k]] >= 2
      && forall d: nat {:trigger At(Home(hash, k, n), d, n)} :: d < Dist(Home(hash, k, n), t.slot[k], n) ==>
           t.values[At(Home(hash, k, n), d, n)] >= 1 && t.keys[At(Home(hash, k, n), d, n)] != k
  }

  ghost predicate SlotOk(t: Table, i: nat)
    requires |t.keys| == |t.values| && i < |t.keys|
  {
    t.values[i] >= 2 ==> t.keys[i] in t.slot && t.slot[t.keys[i]] == i
  }

  ghost predicate WF(hash: nat -> nat, t: Table) {
    && |t.keys| == |t.values|
    && (forall k {:trigger KeyOk(hash, t, k)} :: KeyOk(hash, t, k))
    && (forall i: nat {:trigger SlotOk(t, i)} :: i < |t.keys| ==> SlotOk(t, i))
  }

  // The map that the table stands for.
  ghost function Counts(t: Table): map<nat, nat>
    requires |t.keys| == |t.values|
  {
    map k | k in t.slot && t.slot[k] < |t.values| :: t.values[t.slot[k]]
  }

  // A table that is not full of live slots has a slot for a new key.
  lemma FreeSlot(hash: nat -> nat, t: Table) returns (z: nat)
    requires WF(hash, t) && |t.slot| < |t.keys|
    ensures z < |t.keys| && t.values[z] < 2
  {
    if forall i: nat :: i < |t.keys| ==> t.values[i] >= 2 {
      forall i: nat | i < |t.keys| ensures t.keys[i] in t.slot.Keys && t.slot[t.keys[i]] == i {
        assert SlotOk(t, i);
      }
      DistinctCount(t.keys, t.slot.Keys);
    }
    z :| z < |t.keys| && t.values[z] < 2;
  }

  // Storing a new key in a slot that is not live.
  ghost function Insert(t: Table, i: nat, k: nat, v: nat): Table
    requires i < |t.keys| == |t.values|
  {
    Table(t.keys[i := k], t.values[i := v], t.slot[k := i])
  }

  lemma InsertWF(hash: nat -> nat, t: Table, i: nat, k: nat, v: nat)
    requires WF(hash, t) && i < |t.keys| && k !in t.slot && v >= 2 && t.values[i] < 2
    requires var n := |t.keys|;
      forall d: nat {:trigger At(Home(hash, k, n), d, n)} :: d < Dist(Home(hash, k, n), i, n) ==>
        t.values[At(Home(hash, k, n), d, n)] >= 1 && t.keys[At(Home(hash, k, n), d, n)] != k
    ensures WF(hash, Insert(t, i, k, v))
    ensures Counts(Insert(t, i, k, v)) == Counts(t)[k := v]
  {
    var u := Insert(t, i, k, v);
    forall k' ensures KeyOk(hash, u, k') {
      assert KeyOk(hash, t, k');
    }
    forall j: nat | j < |u.keys| ensures SlotOk(u, j) {
      assert SlotOk(t, j);
    }
    forall k' | k' in t.slot ensures t.slot[k'] < |t.values| && t.slot[k'] != i {
      assert KeyOk(hash, t, k');
    }
  }

  // Changing the count of a recorded page, and dropping it from the map when the count falls to 1.
  ghost function Recount(t: Table, k: nat, v: nat): Table
    requires k in t.slot && t.slot[k] < |t.values|
  {
    t.(values := t.values[t.slot[k] := v], slot := if v >= 2 then t.slot else t.slot - {k})
  }

  lemma RecountWF(hash: nat -> nat, t: Table, k: nat, v: nat)
    requires WF(hash, t) && k in t.slot && v >= 1
    ensures t.slot[k] < |t.values| && WF(hash, Recount(t, k, v))
    ensures Counts(Recount(t, k, v)) == if v >= 2 then Counts(t)[k := v] else Counts(t) - {k}
  {
    assert KeyOk(hash, t, k);
    var u := Recount(t, k, v);
    forall k' ensures KeyOk(hash, u, k') {
      assert KeyOk(hash, t, k');
    }
    forall j: nat | j < |u.keys| ensures SlotOk(u, j) {
      assert SlotOk(t, j);
    }
    forall k' | k' in t.slot ensures t.slot[k'] < |t.values| && (k' != k ==> t.slot[k'] != t.slot[k]) {
      assert KeyOk(hash, t, k');
    }
  }

  class PageRefTable {
    const hash: nat -> nat
    const zeroPage: nat
    var keys: seq<nat>
    var values: seq<nat>
    var count: nat
    var capacity: nat
    ghost var slot: map<nat, nat>

    ghost function Value(): Table
      reads this
    {
      Table(keys, values, slot)
    }

    // The recorded counts.
    ghost function Map(): map<nat, nat>
      requires |keys| == |values|
      reads this
    {
      Counts(Value())
    }

    ghost predicate Shape()
      reads this
    {
      |keys| == |values| == capacity && count == |slot| && WF(hash, Value())
    }

    // After every call: no more than about two thirds of the slots are live, so a probe ends.
    ghost predicate Valid()
      reads this
    {
      && Shape()
      && (capacity == 0 ==> count == 0)
      && (capacity > 0 ==> MIN_TABLE_CAPACITY / 2 <= capacity && 3 * count <= 2 * capacity + 3)
      && (0 < capacity < MIN_TABLE_CAPACITY ==> 2 * count <= MIN_TABLE_CAPACITY)
    }

    constructor (hash: nat -> nat, zeroPage: nat)
      ensures Valid() && Map() == map[]
      ensures this.hash == hash && this.zeroPage == zeroPage
    {
      this.hash, this.zeroPage := hash, zeroPage;
      keys, values, count, capacity, slot := [], [], 0, 0, map[];
      new;
      forall k ensures KeyOk(hash, Value(), k) {
      }
    }

    // The probe loop that the three public functions share: it stops at the first slot that carries the key
    // or is empty, or after one round.
    method Probe(page: nat) returns (idx: nat)
      requires Shape() && capacity > 0
      ensures idx < capacity
      ensures page in slot ==> idx == slot[page]
      ensures page in slot <==> keys[idx] == page && values[idx] > 1
    {
      var start := Home(hash, page, capacity);
      idx := start;
      ghost var d := 0;
      assert KeyOk(hash, Value(), page);
      while keys[idx] != page && values[idx] >= 1
        invariant d < capacity && idx == At(start, d, capacity)
        invariant page in slot ==> d <= Dist(start, slot[page], capacity)
        decreases capacity - d
      {
        NextAt(start, d, capacity);
        idx := Next(idx, capacity);
        if idx == start {
          break;
        }
        d := d + 1;
      }
      assert SlotOk(Value(), idx);
    }

    method HasOtherReferences(page: nat) returns (r: bool)
      requires Valid()
      ensures r <==> page == zeroPage || page in Map()
    {
      if page == zeroPage {
        return true;
      } else if count == 0 {
        return false;
      } else {
        var idx := Probe(page);
        assert KeyOk(hash, Value(), page);
        if keys[idx] == page {
          return values[idx] > 1;
        } else {
          return false;
        }
      }
    }

    // rebuildPageRefTable: all live entries move to a fresh table; dead slots do not.
    method RebuildPageRefTable(newSize: nat)
      requires Shape() && count < newSize
      modifies this
      ensures Shape() && capacity == newSize && count == old(count) && Map() == old(Map())
    {
      var newKeys, newValues := seq(newSize, _ => 0), seq(newSize, _ => 0);
      ghost var newSlot: map<nat, nat> := map[];
      forall k ensures KeyOk(hash, Table(newKeys, newValues, newSlot), k) {
      }
      for i := 0 to capacity
        invariant Rebuilt(hash, Value(), Table(newKeys, newValues, newSlot), i) && |newKeys| == newSize
        modifies {}
      {
        RebuiltStep(hash, Value(), Table(newKeys, newValues, newSlot), i);
        if values[i] > 1 {
          newKeys, newValues, newSlot := MoveEntry(hash, newKeys, newValues, newSlot, keys[i], values[i]);
        }
      }
      RebuiltAll(hash, Value(), Table(newKeys, newValues, newSlot));
      keys, values, capacity, slot := newKeys, newValues, newSize, newSlot;
    }

    method TestForResize()
      requires Valid()
      modifies this
      ensures Valid() && Map() == old(Map()) && count == old(count)
      ensures 0 < capacity && 3 * count <= 2 * capacity
      ensures capacity < MIN_TABLE_CAPACITY ==> 2 * count < MIN_TABLE_CAPACITY
    {
      if capacity < MIN_TABLE_CAPACITY {
        RebuildPageRefTable(MIN_TABLE_CAPACITY);
      } else if capacity > MIN_TABLE_CAPACITY && count * 4 < capacity {
        RebuildPageRefTable(capacity / 2);
      } else if count * 3 > capacity * 2 {
        RebuildPageRefTable(capacity * 3 / 2);
      }
    }

    // Stores a new count for the page in slot `idx`; a count of 1 leaves a dead slot behind.
    method StoreCount(page: nat, idx: nat, v: nat)
      requires Shape() && page in slot && idx == slot[page] && idx < |values| && v >= 1
      modifies this
      ensures Shape() && capacity == old(capacity) && count == if v >= 2 then old(count) else old(count) - 1
      ensures Map() == if v >= 2 then old(Map())[page := v] else old(Map()) - {page}
      ensures values == old(values)[idx := v]
    {
      RecountWF(hash, Value(), page, v);
      values := values[idx := v];
      if v == 1 {
        slot := slot - {page};
        count := count - 1;
      }
    }

    method AddReferenceFor(page: nat)
      requires Valid()
      modifies this
      ensures Valid() && Map() == old(Map())[page := if page in old(Map()) then old(Map())[page] + 1 else 2]
    {
      TestForResize();
      var idx := Probe(page);
      assert KeyOk(hash, Value(), page);
      if keys[idx] == page && values[idx] > 1 {
        StoreCount(page, idx, values[idx] + 1);
      } else {
        // The entry does not yet exist
        AddEntry(page);
      }
    }

    // The second half of addReferenceFor: the first slot on the probe that is dead, empty or carries the key.
    method AddEntry(page: nat)
      requires Shape() && page !in slot && count < capacity
      modifies this
      ensures Shape() && count == old(count) + 1 && capacity == old(capacity) && Map() == old(Map())[page := 2]
    {
      var n := capacity;
      var home := Home(hash, page, n);
      var idx := home;
      ghost var z := FreeSlot(hash, Value());
      ghost var d := 0;
      while keys[idx] != page && values[idx] > 1
        invariant d <= Dist(home, z, n) && idx == At(home, d, n)
        invariant forall d': nat {:trigger At(home, d', n)} :: d' < d ==>
                    values[At(home, d', n)] >= 1 && keys[At(home, d', n)] != page
        modifies {}
        decreases n - d
      {
        NextAt(home, d, n);
        idx := Next(idx, n);
        d := d + 1;
      }
      NextAt(home, d, n);
      assert SlotOk(Value(), idx);
      InsertWF(hash, Value(), idx, page, 2);
      keys := keys[idx := page];
      values := values[idx := 2];
      slot := slot[page := idx];
      count := count + 1;
    }

    method RemoveReferenceFor(page: nat)
      requires Valid()
      modifies this
      ensures Valid()
      ensures Map() == var m := old(Map());
                if page !in m then m else if m[page] <= 2 then m - {page} else m[page := m[page] - 1]
    {
      if count != 0 {
        var idx := Probe(page);
        assert KeyOk(hash, Value(), page);
        if keys[idx] == page && values[idx] > 1 {
          StoreCount(page, idx, values[idx] - 1);
          if values[idx] == 1 {
            // This entry was just "removed"
            TestForResize();
          }
        }
      }
    }
  }

  // One round of the loop of rebuildPageRefTable: the first empty slot of the new table.
  method MoveEntry(hash: nat -> nat, keys: seq<nat>, values: seq<nat>, ghost slot: map<nat, nat>, k: nat, v: nat)
    returns (keys': seq<nat>, values': seq<nat>, ghost slot': map<nat, nat>)
    requires WF(hash, Table(keys, values, slot)) && k !in slot && |slot| < |keys| && v > 1
    requires forall j: nat :: j < |values| ==> values[j] != 1
    ensures exists idx: nat :: idx < |keys| && values[idx] == 0 &&
              Table(keys', values', slot') == Insert(Table(keys, values, slot), idx, k, v)
    ensures WF(hash, Table(keys', values', slot'))
  {
    ghost var t := Table(keys, values, slot);
    var n := |keys|;
    ghost var z := FreeSlot(hash, t);
    var home := Home(hash, k, n);
    var idx := home;
    ghost var d := 0;
    while values[idx] >= 1
      invariant d <= Dist(home, z, n) && idx == At(home, d, n)
      invariant forall d': nat {:trigger At(home, d', n)} :: d' < d ==>
                  values[At(home, d', n)] >= 1 && keys[At(home, d', n)] != k
      decreases n - d
    {
      NextAt(home, d, n);
      assert SlotOk(t, idx);
      idx := Next(idx, n);
      d := d + 1;
    }
    NextAt(home, d, n);
    InsertWF(hash, t, idx, k, v);
    keys' := keys[idx := k];
    values' := values[idx := v];
    slot' := slot[k := idx];
  }

  // The live entries of the first `i` slots, and no others, are in the new table `t`, which has no dead slot.
  ghost predicate Rebuilt(hash: nat -> nat, was: Table, t: Table, i: nat)
    requires |was.keys| == |was.values|
  {
    && WF(hash, t) && (forall j: nat :: j < |t.values| ==> t.values[j] != 1)
    && (forall k :: k in t.slot <==> k in was.slot && was.slot[k] < i)
    && (forall k {:trigger k in t.slot} :: k in t.slot ==>
          t.slot[k] < |t.values| && was.slot[k] < |was.values| && t.values[t.slot[k]] == was.values[was.slot[k]])
  }

  // What the next slot adds, and that there is room for it.
  lemma RebuiltStep(hash: nat -> nat, was: Table, t: Table, i: nat)
    requires WF(hash, was) && i < |was.values| && Rebuilt(hash, was, t, i)
    ensures was.values[i] <= 1 ==> Rebuilt(hash, was, t, i + 1)
    ensures was.values[i] > 1 ==> was.keys[i] !in t.slot && |t.slot| < |was.slot|
    ensures was.values[i] > 1 ==> forall idx: nat :: idx < |t.keys| && t.values[idx] == 0 ==>
              var u := Insert(t, idx, was.keys[i], was.values[i]);
              WF(hash, u) ==> Rebuilt(hash, was, u, i + 1)
  {
    forall k | k in was.slot ensures was.slot[k] == i ==> was.values[i] > 1 && k == was.keys[i] {
      assert KeyOk(hash, was, k);
    }
    if was.values[i] > 1 {
      assert SlotOk(was, i);
      SmallerMap(t.slot, was.slot, was.keys[i]);
      forall idx: nat | idx < |t.keys| && t.values[idx] == 0 && WF(hash, Insert(t, idx, was.keys[i], was.values[i]))
        ensures Rebuilt(hash, was, Insert(t, idx, was.keys[i], was.values[i]), i + 1)
      {
        var u := Insert(t, idx, was.keys[i], was.values[i]);
        forall k | k in u.slot ensures u.slot[k] < |u.values| && was.slot[k] < |was.values|
            && u.values[u.slot[k]] == was.values[was.slot[k]] {
          assert KeyOk(hash, t, k);
        }
      }
    }
  }

  lemma RebuiltAll(hash: nat -> nat, was: Table, t: Table)
    requires WF(hash, was) && Rebuilt(hash, was, t, |was.keys|)
    ensures Counts(t) == Counts(was) && |t.slot| == |was.slot|
  {
    forall k | k in was.slot ensures was.slot[k] < |was.keys| {
      assert KeyOk(hash, was, k);
    }
    assert t.slot.Keys == was.slot.Keys;
  }
}
