// kernel/src/files/vfs/cache.c: the nodes that are in use, by superblock and node number. A lookup moves what it
// finds into the last deleted slot that it has passed.
module VfsCache {
  import opened Basics
  import opened Probing

  const MIN_TABLE_CAPACITY: nat := 32

  datatype Key = Key(superblock: nat, id: nat)

  class VfsNode {
    const key: Key
    var refCount: nat

    constructor (key: Key)
      ensures this.key == key && refCount == 0
    {
      this.key, refCount := key, 0;
    }
  }

  datatype Slot = Empty | Deleted | Live(node: VfsNode)

  // The table as a value; `at` says in which slot a key lies.
  datatype Table = Table(slots: seq<Slot>, at: map<Key, nat>)

  function Home(hash: Key -> nat, k: Key, n: nat): (h: nat)
    requires n > 0
    ensures h < n
  {
    hash(k) % n
  }

  predicate Carries(s: Slot, k: Key) {
    s.Live? && s.node.key == k
  }

  // A key lies where `at` says, and a probe for it meets no empty slot before.
  ghost predicate KeyOk(hash: Key -> nat, t: Table, k: Key) {
    var n := |t.slots|;
    k in t.at ==>
      && t.at[k] < n && Carries(t.slots[t.at[k]], k)
      && forall d: nat {:trigger At(Home(hash, k, n), d, n)} :: d < Dist(Home(hash, k, n), t.at[k], n) ==>
           t.slots[At(Home(hash, k, n), d, n)] != Empty
  }

  ghost predicate SlotOk(t: Table, i: nat)
    requires i < |t.slots|
  {
    t.slots[i].Live? ==> t.slots[i].node.key in t.at && t.at[t.slots[i].node.key] == i
  }

  ghost predicate WF(hash: Key -> nat, t: Table) {
    && (forall k {:trigger KeyOk(hash, t, k)} :: KeyOk(hash, t, k))
    && (forall i: nat {:trigger SlotOk(t, i)} :: i < |t.slots| ==> SlotOk(t, i))
  }

  // The map that the table stands for.
  ghost function Nodes(t: Table): map<Key, VfsNode> {
    map k | k in t.at && t.at[k] < |t.slots| && t.slots[t.at[k]].Live? :: t.slots[t.at[k]].node
  }

  lemma FreeSlot(hash: Key -> nat, t: Table) returns (z: nat)
    requires WF(hash, t) && |t.at| < |t.slots|
    ensures z < |t.slots| && !t.slots[z].Live?
  {
    if forall i: nat :: i < |t.slots| ==> t.slots[i].Live? {
      var keys := seq(|t.slots|, i requires 0 <= i < |t.slots| => t.slots[i].node.key);
      forall i: nat | i < |t.slots| ensures keys[i] in t.at.Keys && t.at[keys[i]] == i {
        assert SlotOk(t, i);
      }
      DistinctCount(keys, t.at.Keys);
    }
    z :| z < |t.slots| && !t.slots[z].Live?;
  }

  // ---- The changes to the table

  ghost function Insert(t: Table, i: nat, node: VfsNode): Table
    requires i < |t.slots|
  {
    Table(t.slots[i := Live(node)], t.at[node.key := i])
  }

  lemma InsertWF(hash: Key -> nat, t: Table, i: nat, node: VfsNode)
    requires WF(hash, t) && i < |t.slots| && node.key !in t.at && !t.slots[i].Live?
    requires var n := |t.slots|;
      forall d: nat {:trigger At(Home(hash, node.key, n), d, n)} :: d < Dist(Home(hash, node.key, n), i, n) ==>
        t.slots[At(Home(hash, node.key, n), d, n)] != Empty
    ensures WF(hash, Insert(t, i, node))
    ensures Nodes(Insert(t, i, node)) == Nodes(t)[node.key := node]
  {
    var u := Insert(t, i, node);
    forall k ensures KeyOk(hash, u, k) && (k in t.at ==> t.at[k] != i) {
      assert KeyOk(hash, t, k);
    }
    forall j: nat | j < |u.slots| ensures SlotOk(u, j) {
      assert SlotOk(t, j);
    }
  }

  ghost function Delete(t: Table, k: Key): Table
    requires k in t.at && t.at[k] < |t.slots|
  {
    Table(t.slots[t.at[k] := Deleted], t.at - {k})
  }

  lemma DeleteWF(hash: Key -> nat, t: Table, k: Key)
    requires WF(hash, t) && k in t.at
    ensures t.at[k] < |t.slots| && WF(hash, Delete(t, k)) && Nodes(Delete(t, k)) == Nodes(t) - {k}
  {
    assert KeyOk(hash, t, k);
    var u := Delete(t, k);
    forall k' ensures KeyOk(hash, u, k') && (k' in t.at && k' != k ==> t.at[k'] != t.at[k]) {
      assert KeyOk(hash, t, k');
    }
    forall j: nat | j < |u.slots| ensures SlotOk(u, j) {
      assert SlotOk(t, j);
    }
  }

  // Moving an entry forward into a deleted slot of its probe.
  ghost function Move(t: Table, k: Key, i: nat): Table
    requires k in t.at && t.at[k] < |t.slots| && i < |t.slots|
  {
    Table(t.slots[i := t.slots[t.at[k]]][t.at[k] := Deleted], t.at[k := i])
  }

  lemma MoveWF(hash: Key -> nat, t: Table, k: Key, i: nat)
    requires WF(hash, t) && k in t.at && i < |t.slots| && t.slots[i] == Deleted
    requires t.at[k] < |t.slots|
             && Dist(Home(hash, k, |t.slots|), i, |t.slots|) < Dist(Home(hash, k, |t.slots|), t.at[k], |t.slots|)
    ensures WF(hash, Move(t, k, i)) && Nodes(Move(t, k, i)) == Nodes(t)
  {
    assert KeyOk(hash, t, k);
    var u := Move(t, k, i);
    forall k' ensures KeyOk(hash, u, k') && (k' in t.at && k' != k ==> t.at[k'] != t.at[k] && t.at[k'] != i) {
      assert KeyOk(hash, t, k');
    }
    forall j: nat | j < |u.slots| ensures SlotOk(u, j) {
      assert SlotOk(t, j);
    }
  }

  class VfsNodeCache {
    const hash: Key -> nat
    var slots: seq<Slot>
    var count: nat
    var capacity: nat
    ghost var at: map<Key, nat>

    ghost function Value(): Table
      reads this
    {
      Table(slots, at)
    }

    ghost function Map(): map<Key, VfsNode>
      reads this
    {
      Nodes(Value())
    }

    ghost predicate Shape()
      reads this
    {
      |slots| == capacity && count == |at| && WF(hash, Value())
    }

    // After every call: no more than about two thirds of the slots are live.
    ghost predicate Valid()
      reads this
    {
      && Shape()
      && (capacity == 0 ==> count == 0)
      && (capacity > 0 ==> MIN_TABLE_CAPACITY / 2 <= capacity && 3 * count <= 2 * capacity + 3)
      && (0 < capacity < MIN_TABLE_CAPACITY ==> 2 * count <= MIN_TABLE_CAPACITY)
    }

    // vfsCacheInit
    constructor (hash: Key -> nat)
      ensures Valid() && Map() == map[] && this.hash == hash
    {
      this.hash := hash;
      slots, count, capacity, at := [], 0, 0, map[];
      new;
      forall k ensures KeyOk(hash, Value(), k) {
      }
    }

    // findIndexHashTable; None stands for SIZE_MAX.
    method FindIndex(k: Key) returns (r: Option<nat>)
      requires Shape() && (capacity == 0 ==> count == 0)
      modifies this`slots, this`at
      ensures Shape() && Map() == old(Map()) && |at| == |old(at)| && |slots| == |old(slots)|
      ensures r == None <==> k !in Map()
      ensures r.Some? ==> k in at && r.value == at[k] && r.value < capacity && slots[r.value] == Live(Map()[k])
    {
      if count == 0 {
        return None;
      }
      assert KeyOk(hash, Value(), k);
      var start := Home(hash, k, capacity);
      var idx, firstFree := Search(k, start);
      if idx == None {
        return None;
      }
      var found := slots[idx.value];
      if found == Deleted || found == Empty {
        return None;
      } else if firstFree.Some? {
        MoveWF(hash, Value(), k, firstFree.value);
        slots := slots[firstFree.value := found][idx.value := Deleted];
        at := at[k := firstFree.value];
        return firstFree;
      } else {
        return idx;
      }
    }

    // Its loop: the slot where the probe stops, unless it has gone round, and the last deleted slot before.
    method Search(k: Key, start: nat) returns (idx: Option<nat>, firstFree: Option<nat>)
      requires Shape() && capacity > 0 && start == Home(hash, k, capacity)
      ensures idx == None ==> k !in at
      ensures idx.Some? ==>
                idx.value < capacity && (k in at ==> idx.value == at[k]) && (k !in at ==> slots[idx.value] == Empty)
      ensures k in at && firstFree.Some? ==>
                && firstFree.value < capacity && slots[firstFree.value] == Deleted && at[k] < capacity
                && Dist(start, firstFree.value, capacity) < Dist(start, at[k], capacity)
    {
      var i := start;
      firstFree := None;
      ghost var d := 0;
      assert KeyOk(hash, Value(), k);
      while slots[i] == Deleted || (slots[i].Live? && slots[i].node.key != k)
        invariant d < capacity && i == At(start, d, capacity)
        invariant k in at ==> d <= Dist(start, at[k], capacity)
        invariant firstFree.Some? ==>
                    firstFree.value < capacity && slots[firstFree.value] == Deleted
                        && Dist(start, firstFree.value, capacity) < d
        decreases capacity - d
      {
        NextAt(start, d, capacity);
        if slots[i] == Deleted {
          firstFree := Some(i);
        }
        i := Next(i, capacity);
        if i == start {
          return None, firstFree;
        }
        d := d + 1;
      }
      NextAt(start, d, capacity);
      assert SlotOk(Value(), i);
      return Some(i), firstFree;
    }

    // rebuildHashTable
    method Rebuild(newSize: nat)
      requires Shape() && count < newSize
      modifies this
      ensures Shape() && capacity == newSize && count == old(count) && Map() == old(Map())
    {
      var newSlots := seq(newSize, _ => Empty);
      ghost var newAt: map<Key, nat> := map[];
      forall k ensures KeyOk(hash, Table(newSlots, newAt), k) {
      }
      for i := 0 to capacity
        invariant Rebuilt(hash, Value(), Table(newSlots, newAt), i) && |newSlots| == newSize
        modifies {}
      {
        RebuiltStep(hash, Value(), Table(newSlots, newAt), i);
        if slots[i].Live? {
          var idx := InsertIndex(hash, newSlots, newAt, slots[i].node);
          newSlots, newAt := newSlots[idx := slots[i]], newAt[slots[i].node.key := idx];
        }
      }
      RebuiltAll(hash, Value(), Table(newSlots, newAt));
      slots, capacity, at := newSlots, newSize, newAt;
    }

    method TestForResize()
      requires Valid()
      modifies this
      ensures Valid() && Map() == old(Map()) && count == old(count)
      ensures 0 < capacity && 3 * count <= 2 * capacity
      ensures capacity < MIN_TABLE_CAPACITY ==> 2 * count < MIN_TABLE_CAPACITY
    {
      if capacity < MIN_TABLE_CAPACITY {
        Rebuild(MIN_TABLE_CAPACITY);
      } else if capacity > MIN_TABLE_CAPACITY && count * 4 < capacity {
        Rebuild(capacity / 2);
      } else if count * 3 > capacity * 2 {
        Rebuild(capacity + capacity / 2);
      }
    }

    // vfsCacheInsertNewNode; the slot is not live, as the source asserts.
    method InsertNewNode(node: VfsNode)
      requires Valid() && node.key !in Map()
      modifies this
      ensures Valid() && Map() == old(Map())[node.key := node]
    {
      TestForResize();
      assert KeyOk(hash, Value(), node.key);
      var idx := InsertIndex(hash, slots, at, node);
      assert !slots[idx].Live?;
      slots := slots[idx := Live(node)];
      at := at[node.key := idx];
      count := count + 1;
    }

    // Exactly the nodes with references are in the cache.
    ghost predicate Counted(nodes: set<VfsNode>)
      reads this, nodes
    {
      && (forall n :: n in nodes ==> (n.refCount > 0 <==> n.key in Map() && Map()[n.key] == n))
      && (forall k :: k in Map() ==> Map()[k] in nodes && Map()[k].key == k)
    }

    // vfsCacheGetNodeOrLock
    method GetNode(k: Key, ghost nodes: set<VfsNode>) returns (found: Option<VfsNode>)
      requires Valid() && Counted(nodes)
      modifies this, nodes
      ensures Valid() && Counted(nodes) && Map() == old(Map())
      ensures found == if k in old(Map()) then Some(old(Map())[k]) else None
      ensures forall n :: n in nodes ==> n.refCount == old(n.refCount) + if found == Some(n) then 1 else 0
    {
      var idx := FindIndex(k);
      if idx.Some? {
        var node := slots[idx.value].node;
        var _ := CopyNode(node, nodes);
        return Some(node);
      } else {
        return None;
      }
    }

    // vfsCacheCopyNode: a node without references is new, and no other node has its key.
    method CopyNode(node: VfsNode, ghost nodes: set<VfsNode>) returns (refs: nat)
      requires Valid() && Counted(nodes) && node in nodes && (node.refCount == 0 ==> node.key !in Map())
      modifies this, node
      ensures Valid() && Counted(nodes) && refs == node.refCount == old(node.refCount) + 1
      ensures Map() == old(Map())[node.key := node]
    {
      if node.refCount == 0 {
        InsertNewNode(node);
      }
      node.refCount := node.refCount + 1;
      refs := node.refCount;
    }

    // vfsCacheCloseNode: the node is found, as the source asserts.
    method CloseNode(node: VfsNode, ghost nodes: set<VfsNode>) returns (refs: nat)
      requires Valid() && Counted(nodes) && node in nodes && node.refCount > 0
      modifies this, node
      ensures Valid() && Counted(nodes) && refs == node.refCount == old(node.refCount) - 1
      ensures Map() == if refs == 0 then old(Map()) - {node.key} else old(Map())
    {
      node.refCount := node.refCount - 1;
      if node.refCount == 0 {
        var idx := FindIndex(node.key);
        assert idx.Some? && slots[idx.value] == Live(node);
        DeleteWF(hash, Value(), node.key);
        slots := slots[idx.value := Deleted];
        at := at - {node.key};
        count := count - 1;
      }
      refs := node.refCount;
    }
  }

  // insertIndexHashTable, for a key that is not in the table: the first slot that is not live.
  method InsertIndex(hash: Key -> nat, slots: seq<Slot>, ghost at: map<Key, nat>, node: VfsNode) returns (idx: nat)
    requires WF(hash, Table(slots, at)) && node.key !in at && |at| < |slots|
    ensures idx < |slots| && !slots[idx].Live?
    ensures WF(hash, Insert(Table(slots, at), idx, node))
    ensures Nodes(Insert(Table(slots, at), idx, node)) == Nodes(Table(slots, at))[node.key := node]
  {
    ghost var t := Table(slots, at);
    var n := |slots|;
    ghost var z := FreeSlot(hash, t);
    var home := Home(hash, node.key, n);
    idx := home;
    ghost var d := 0;
    while slots[idx].Live? && slots[idx].node.key != node.key
      invariant d <= Dist(home, z, n) && idx == At(home, d, n)
      invariant forall d': nat {:trigger At(home, d', n)} :: d' < d ==> slots[At(home, d', n)] != Empty
      decreases n - d
    {
      NextAt(home, d, n);
      idx := Next(idx, n);
      d := d + 1;
    }
    NextAt(home, d, n);
    assert SlotOk(t, idx);
    InsertWF(hash, t, idx, node);
  }

  // The live entries of the first `i` slots, and no others, are in the new table.
  ghost predicate Rebuilt(hash: Key -> nat, was: Table, t: Table, i: nat) {
    && WF(hash, t)
    && (forall k :: k in t.at <==> k in was.at && was.at[k] < i)
    && (forall k {:trigger k in t.at} :: k in t.at ==>
          t.at[k] < |t.slots| && was.at[k] < |was.slots| && t.slots[t.at[k]] == was.slots[was.at[k]])
  }

  lemma RebuiltStep(hash: Key -> nat, was: Table, t: Table, i: nat)
    requires WF(hash, was) && i < |was.slots| && Rebuilt(hash, was, t, i)
    ensures !was.slots[i].Live? ==> Rebuilt(hash, was, t, i + 1)
    ensures was.slots[i].Live? ==> was.slots[i].node.key !in t.at && |t.at| < |was.at|
    ensures was.slots[i].Live? ==> forall idx: nat :: idx < |t.slots| && !t.slots[idx].Live? ==>
              var u := Insert(t, idx, was.slots[i].node);
              WF(hash, u) ==> Rebuilt(hash, was, u, i + 1)
  {
    forall k | k in was.at ensures was.at[k] == i ==> Carries(was.slots[i], k) {
      assert KeyOk(hash, was, k);
    }
    if was.slots[i].Live? {
      assert SlotOk(was, i);
      SmallerMap(t.at, was.at, was.slots[i].node.key);
      forall idx: nat | idx < |t.slots| && !t.slots[idx].Live? && WF(hash, Insert(t, idx, was.slots[i].node))
        ensures Rebuilt(hash, was, Insert(t, idx, was.slots[i].node), i + 1)
      {
        var u := Insert(t, idx, was.slots[i].node);
        forall k | k in u.at ensures u.at[k] < |u.slots| && was.at[k] < |was.slots|
            && u.slots[u.at[k]] == was.slots[was.at[k]] {
          assert KeyOk(hash, t, k);
        }
      }
    }
  }

  lemma RebuiltAll(hash: Key -> nat, was: Table, t: Table)
    requires WF(hash, was) && Rebuilt(hash, was, t, |was.slots|)
    ensures Nodes(t) == Nodes(was) && |t.at| == |was.at|
  {
    forall k | k in was.at ensures was.at[k] < |was.slots| {
      assert KeyOk(hash, was, k);
    }
    assert t.at.Keys == was.at.Keys;
  }
}
