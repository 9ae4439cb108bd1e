// The Robin Hood hash table of kernel/src/devices/blockcache.c as a value.
module RobinHoodSpec {
  import opened Basics
  import opened Probing

  datatype Block = Block(offset: nat, priority: nat, bytes: seq<byte>)

  // `where_` says in which slot the block of an offset lies.
  datatype Table = Table(slots: seq<Option<Block>>, where_: map<nat, nat>)

  function Home(hash: nat -> nat, k: nat, n: nat): (h: nat)
    requires n > 0
    ensures h < n
  {
    hash(k) % n
  }

  function Prev(i: nat, n: nat): (r: nat)
    requires i < n
    ensures r < n && Next(r, n) == i
  {
    if i == 0 then n - 1 else i - 1
  }

  // The probe length of the block in slot `i`: how far it is from its home.
  function ProbeLength(hash: nat -> nat, slots: seq<Option<Block>>, i: nat): (p: nat)
    requires i < |slots| && slots[i].Some?
    ensures p < |slots|
  {
    Dist(Home(hash, slots[i].value.offset, |slots|), i, |slots|)
  }

  // The Robin Hood invariant: from one slot to the next the probe length grows by at most one, and a block
  // that is not at home has a predecessor.
  ghost predicate SlotOk(hash: nat -> nat, slots: seq<Option<Block>>, i: nat)
    requires i < |slots|
  {
    var j := Prev(i, |slots|);
    slots[i].Some? && ProbeLength(hash, slots, i) > 0 ==>
      slots[j].Some? && ProbeLength(hash, slots, i) <= ProbeLength(hash, slots, j) + 1
  }

  ghost predicate KeyOk(t: Table, k: nat) {
    k in t.where_ ==>
      t.where_[k] < |t.slots| && t.slots[t.where_[k]].Some? && t.slots[t.where_[k]].value.offset == k
  }

  ghost predicate HereOk(t: Table, i: nat)
    requires i < |t.slots|
  {
    t.slots[i].Some? ==> t.slots[i].value.offset in t.where_ && t.where_[t.slots[i].value.offset] == i
  }

  // Each offset is in at most one slot, the one that `where_` names.
  ghost predicate Unique(t: Table) {
    && (forall k {:trigger KeyOk(t, k)} :: KeyOk(t, k))
    && (forall i: nat {:trigger HereOk(t, i)} :: i < |t.slots| ==> HereOk(t, i))
  }

  ghost predicate WF(hash: nat -> nat, t: Table) {
    && Unique(t)
    && (forall i: nat {:trigger SlotOk(hash, t.slots, i)} :: i < |t.slots| ==> SlotOk(hash, t.slots, i))
  }

  ghost predicate HasEmpty(slots: seq<Option<Block>>) {
    exists z :: 0 <= z < |slots| && slots[z].None?
  }

  // The map that the table stands for.
  ghost function Blocks(t: Table): map<nat, Block> {
    map k | k in t.where_ && t.where_[k] < |t.slots| && t.slots[t.where_[k]].Some? :: t.slots[t.where_[k]].value
  }

  // On the way to a block every slot is filled, by a block that is at least as far from home.
  lemma {:induction false} Chain(hash: nat -> nat, t: Table, k: nat, q: nat)
    requires WF(hash, t) && k in t.where_ && KeyOk(t, k)
    requires q <= Dist(Home(hash, k, |t.slots|), t.where_[k], |t.slots|)
    ensures var j := At(Home(hash, k, |t.slots|), q, |t.slots|);
      t.slots[j].Some? && ProbeLength(hash, t.slots, j) >= q
    decreases Dist(Home(hash, k, |t.slots|), t.where_[k], |t.slots|) - q
  {
    var n, h := |t.slots|, Home(hash, k, |t.slots|);
    if q < Dist(h, t.where_[k], n) {
      Chain(hash, t, k, q + 1);
      NextAt(h, q, n);
      assert SlotOk(hash, t.slots, At(h, q + 1, n));
    }
  }

  // What a probe for `k` may conclude at distance `pl` from home: it must go on as long as the block is ahead.
  lemma ProbeStep(hash: nat -> nat, t: Table, k: nat, pl: nat)
    requires WF(hash, t) && pl < |t.slots|
    requires k in t.where_ ==> KeyOk(t, k) && pl <= Dist(Home(hash, k, |t.slots|), t.where_[k], |t.slots|)
    ensures var idx := At(Home(hash, k, |t.slots|), pl, |t.slots|);
      && (k in t.where_ ==> t.slots[idx].Some? && ProbeLength(hash, t.slots, idx) >= pl)
      && (t.slots[idx].Some? && t.slots[idx].value.offset == k ==> k in t.where_ && t.where_[k] == idx)
      && (k in t.where_ && t.slots[idx].Some? && t.slots[idx].value.offset != k ==>
            pl < Dist(Home(hash, k, |t.slots|), t.where_[k], |t.slots|))
  {
    var n, h := |t.slots|, Home(hash, k, |t.slots|);
    assert HereOk(t, At(h, pl, n));
    if k in t.where_ {
      Chain(hash, t, k, pl);
    }
  }

  // Moving one step on towards an empty slot.
  lemma TowardsEmpty(i: nat, z: nat, n: nat)
    requires i < n && z < n && i != z
    ensures Dist(Next(i, n), z, n) + 1 == Dist(i, z, n)
  {
  }

  lemma DistNext(h: nat, i: nat, n: nat)
    requires h < n && i < n && Dist(h, i, n) + 1 < n
    ensures Dist(h, Next(i, n), n) == Dist(h, i, n) + 1
  {
  }

  // ---- Insertion

  // Placing `b` in slot `i`, which holds no block, the block of the same offset, or a block nearer to its home.
  function Placed(t: Table, i: nat, b: Block): Table
    requires i < |t.slots|
  {
    Table(t.slots[i := Some(b)],
          (if t.slots[i].Some? then t.where_ - {t.slots[i].value.offset} else t.where_)[b.offset := i])
  }

  // A block may be put into slot `i` as far as its predecessor is concerned.
  ghost predicate Fits(hash: nat -> nat, slots: seq<Option<Block>>, i: nat, pl: nat)
    requires i < |slots|
  {
    var j := Prev(i, |slots|);
    pl > 0 ==> slots[j].Some? && pl <= ProbeLength(hash, slots, j) + 1
  }

  lemma PlacedWF(hash: nat -> nat, t: Table, i: nat, b: Block)
    requires WF(hash, t) && i < |t.slots| && 2 <= |t.slots|
    requires b.offset in t.where_ ==> t.where_[b.offset] == i
    requires var pl := Dist(Home(hash, b.offset, |t.slots|), i, |t.slots|);
      Fits(hash, t.slots, i, pl) && (t.slots[i].Some? ==> ProbeLength(hash, t.slots, i) <= pl)
    ensures WF(hash, Placed(t, i, b))
    ensures Blocks(Placed(t, i, b)) == (if t.slots[i].Some? then Blocks(t) - {t.slots[i].value.offset}
            else Blocks(t))[b.offset := b]
  {
    var u := Placed(t, i, b);
    PlacedUnique(t, i, b);
    forall j: nat | j < |u.slots| ensures SlotOk(hash, u.slots, j) {
      assert SlotOk(hash, t.slots, j);
    }
  }

  lemma PlacedUnique(t: Table, i: nat, b: Block)
    requires Unique(t) && i < |t.slots| && (b.offset in t.where_ ==> t.where_[b.offset] == i)
    ensures Unique(Placed(t, i, b))
    ensures Blocks(Placed(t, i, b)) == (if t.slots[i].Some? then Blocks(t) - {t.slots[i].value.offset}
            else Blocks(t))[b.offset := b]
  {
    var u := Placed(t, i, b);
    assert HereOk(t, i);
    forall k ensures KeyOk(u, k) {
      assert KeyOk(t, k);
    }
    forall j: nat | j < |u.slots| ensures HereOk(u, j) {
      assert HereOk(t, j);
    }
    KeysOk(t);
  }

  lemma KeysOk(t: Table)
    requires Unique(t)
    ensures forall k :: k in t.where_ ==>
              t.where_[k] < |t.slots| && t.slots[t.where_[k]].Some? && t.slots[t.where_[k]].value.offset == k
  {
    forall k | k in t.where_
      ensures t.where_[k] < |t.slots| && t.slots[t.where_[k]].Some? && t.slots[t.where_[k]].value.offset == k
    {
      assert KeyOk(t, k);
    }
  }

  // ---- Removal

  // Taking the block out of slot `i`.
  function Removed(t: Table, i: nat): Table
    requires i < |t.slots|
  {
    Table(t.slots[i := None], if t.slots[i].Some? then t.where_ - {t.slots[i].value.offset} else t.where_)
  }

  // All is well except for a hole at `i`: the block behind it may be one step too far from home.
  ghost predicate Holed(hash: nat -> nat, t: Table, i: nat) {
    && i < |t.slots| && t.slots[i].None? && Unique(t)
    && (forall j: nat {:trigger SlotOk(hash, t.slots, j)} :: j < |t.slots| && j != Next(i, |t.slots|) ==>
        SlotOk(hash, t.slots, j))
    && var p, x := Prev(i, |t.slots|), Next(i, |t.slots|);
    t.slots[x].Some? && ProbeLength(hash, t.slots, x) > 1 ==>
      t.slots[p].Some? && ProbeLength(hash, t.slots, x) <= ProbeLength(hash, t.slots, p) + 2
  }

  lemma RemovedUnique(t: Table, i: nat)
    requires Unique(t) && i < |t.slots| && t.slots[i].Some?
    ensures Unique(Removed(t, i)) && Blocks(Removed(t, i)) == Blocks(t) - {t.slots[i].value.offset}
    ensures |Removed(t, i).where_| == |t.where_| - 1
  {
    var u := Removed(t, i);
    assert HereOk(t, i);
    forall k ensures KeyOk(u, k) && KeyOk(t, k) {
      assert KeyOk(t, k);
    }
    forall j: nat | j < |u.slots| ensures HereOk(u, j) {
      assert HereOk(t, j);
    }
    assert u.where_.Keys == t.where_.Keys - {t.slots[i].value.offset};
    KeysOk(t);
  }

  lemma RemovedHoled(hash: nat -> nat, t: Table, i: nat)
    requires WF(hash, t) && i < |t.slots| && t.slots[i].Some? && 3 <= |t.slots|
    ensures Holed(hash, Removed(t, i), i)
  {
    var n := |t.slots|;
    var u := Removed(t, i);
    RemovedUnique(t, i);
    assert SlotOk(hash, t.slots, i) && SlotOk(hash, t.slots, Next(i, n));
    assert Prev(Next(i, n), n) == i;
    forall j: nat | j < n && j != Next(i, n) ensures SlotOk(hash, u.slots, j) {
      assert SlotOk(hash, t.slots, j);
      assert j != i ==> Prev(j, n) != i;
    }
  }

  // Moving the block behind the hole into the hole.
  function Shifted(t: Table, i: nat): Table
    requires i < |t.slots| && t.slots[Next(i, |t.slots|)].Some?
  {
    var x := Next(i, |t.slots|);
    Table(t.slots[i := t.slots[x]][x := None], t.where_[t.slots[x].value.offset := i])
  }

  lemma ShiftedUnique(t: Table, i: nat)
    requires Unique(t) && i < |t.slots| && t.slots[i].None? && t.slots[Next(i, |t.slots|)].Some?
    ensures Unique(Shifted(t, i)) && Blocks(Shifted(t, i)) == Blocks(t) && |Shifted(t, i).where_| == |t.where_|
  {
    var x := Next(i, |t.slots|);
    var u := Shifted(t, i);
    assert HereOk(t, x);
    forall k ensures KeyOk(u, k) && KeyOk(t, k) {
      assert KeyOk(t, k);
    }
    forall j: nat | j < |u.slots| ensures HereOk(u, j) {
      assert HereOk(t, j);
    }
    assert u.where_.Keys == t.where_.Keys;
    KeysOk(t);
  }

  lemma ShiftedHoled(hash: nat -> nat, t: Table, i: nat)
    requires Holed(hash, t, i) && 3 <= |t.slots|
    requires var x := Next(i, |t.slots|); t.slots[x].Some? && ProbeLength(hash, t.slots, x) > 0
    ensures Holed(hash, Shifted(t, i), Next(i, |t.slots|))
  {
    var n := |t.slots|;
    var x := Next(i, n);
    var y := Next(x, n);
    var u := Shifted(t, i);
    ShiftedUnique(t, i);
    assert Prev(x, n) == i && Prev(y, n) == x && y != i && y != x;
    assert ProbeLength(hash, u.slots, i) == ProbeLength(hash, t.slots, x) - 1;
    assert SlotOk(hash, t.slots, y);
    forall j: nat | j < n && j != y ensures SlotOk(hash, u.slots, j) {
      if j != x {
        assert SlotOk(hash, t.slots, j);
        assert Prev(j, n) != x && (j != x ==> Prev(j, n) != i);
      }
    }
  }

  // The hole can stay where the block behind it is at home, or where there is none.
  lemma HoleCloses(hash: nat -> nat, t: Table, i: nat)
    requires Holed(hash, t, i)
    requires var x := Next(i, |t.slots|); t.slots[x].Some? ==> ProbeLength(hash, t.slots, x) == 0
    ensures WF(hash, t)
  {
    forall j: nat | j < |t.slots| ensures SlotOk(hash, t.slots, j) {
    }
  }

  // ---- Counting

  // A table with fewer blocks than slots has an empty slot.
  lemma EmptySlot(t: Table) returns (z: nat)
    requires Unique(t) && |t.where_| < |t.slots|
    ensures z < |t.slots| && t.slots[z].None?
  {
    if forall i: nat :: i < |t.slots| ==> t.slots[i].Some? {
      var keys := seq(|t.slots|, i requires 0 <= i < |t.slots| => t.slots[i].value.offset);
      forall i: nat | i < |t.slots| ensures keys[i] in t.where_.Keys && t.where_[keys[i]] == i {
        assert HereOk(t, i);
      }
      DistinctCount(keys, t.where_.Keys);
    }
    z :| z < |t.slots| && t.slots[z].None?;
  }
}
