// The three-level page table of kernel/src/memory/pagetable.c as a value: the table pages,
// where each of them hangs, and the flat map of leaf entries that they stand for.
module PageTableSpec {
  import opened Basics

  const ENTRIES: nat := 512

  datatype Flags = Flags(read: bool, write: bool, exec: bool, user: bool, global: bool,
                         accessed: bool, dirty: bool, copy: bool)

  datatype Entry = Entry(v: bool, flags: Flags, frame: nat)

  const NO_FLAGS := Flags(false, false, false, false, false, false, false, false)
  const EMPTY := Entry(false, NO_FLAGS, 0)

  // An entry is a leaf as soon as one of READ, WRITE and EXEC is set, otherwise a branch.
  predicate IsLeaf(e: Entry) {
    e.flags.read || e.flags.write || e.flags.exec
  }

  // A place in the page table of `root`: the indices followed from the root downwards.
  // A table lies at a path of length 0 to 2, a leaf entry at a path of length 1 to 3.
  datatype Loc = Loc(root: nat, path: seq<nat>)

  function Child(l: Loc, i: nat): (c: Loc)
    ensures c.path != [] && Parent(c) == l && Last(c) == i
  {
    var c := Loc(l.root, l.path + [i]);
    assert c.path[..|c.path| - 1] == l.path;
    c
  }

  function Parent(l: Loc): Loc
    requires l.path != []
  {
    Loc(l.root, l.path[..|l.path| - 1])
  }

  function Last(l: Loc): nat
    requires l.path != []
  {
    l.path[|l.path| - 1]
  }

  // `place` and `at` are each other's inverse: which table lies where. `leaves` is the flat map.
  datatype Forest = Forest(tables: map<nat, seq<Entry>>, place: map<nat, Loc>, at: map<Loc, nat>,
                           leaves: map<Loc, Entry>)

  function ZeroTable(): (t: seq<Entry>)
    ensures |t| == ENTRIES
    ensures forall i :: 0 <= i < ENTRIES ==> t[i] == EMPTY
  {
    seq(ENTRIES, _ => EMPTY)
  }

  // The entry stored at a place; EMPTY where there is no table to hold one.
  ghost function Get(f: Forest, l: Loc): Entry {
    if l.path != [] && Parent(l) in f.at && f.at[Parent(l)] in f.tables && Last(l) < |f.tables[f.at[Parent(l)]]|
    then f.tables[f.at[Parent(l)]][Last(l)] else EMPTY
  }

  ghost predicate TableOk(f: Forest, t: nat) {
    t in f.tables ==> t in f.place && f.place[t] in f.at && f.at[f.place[t]] == t
  }

  ghost predicate HomeOk(f: Forest, l: Loc) {
    l in f.at ==>
      && |l.path| <= 2
      && f.at[l] in f.tables && |f.tables[f.at[l]]| == ENTRIES
      && f.at[l] in f.place && f.place[f.at[l]] == l
      && (l.path == [] ==> f.at[l] == l.root)
  }

  // A valid leaf entry is exactly a leaf of the flat map, a valid branch entry exactly the way to a table.
  ghost predicate LocOk(f: Forest, l: Loc) {
    var e := Get(f, l);
    && (l in f.leaves <==> e.v && IsLeaf(e))
    && (l in f.leaves ==> f.leaves[l] == e)
    && (l.path != [] ==> (l in f.at <==> e.v && !IsLeaf(e)))
    && (l.path != [] && l in f.at ==> f.at[l] == e.frame)
  }

  ghost predicate WF(f: Forest) {
    && (forall t {:trigger TableOk(f, t)} :: TableOk(f, t))
    && (forall l {:trigger HomeOk(f, l)} :: HomeOk(f, l))
    && (forall l {:trigger LocOk(f, l)} :: LocOk(f, l))
  }

  // ---- The ways in which the kernel edits the tables, and that each keeps the tables well formed

  // The effect of one store into a table on what is stored where.
  lemma GetAfterStore(f: Forest, g: Forest, t: nat, i: nat, e: Entry, l: Loc)
    requires WF(f) && t in f.tables && i < |f.tables[t]|
    requires g.at == f.at && g.place == f.place && g.tables == f.tables[t := f.tables[t][i := e]]
    ensures t in f.place
    ensures Get(g, l) == if l == Child(f.place[t], i) then e else Get(f, l)
    ensures HomeOk(g, l)
  {
    assert TableOk(f, t) && HomeOk(f, f.place[t]) && HomeOk(f, l);
    if l.path != [] && Parent(l) in f.at {
      assert HomeOk(f, Parent(l));
      StoredAt(f, t, Parent(l));
      EntryAfterStore(f, g, t, i, e, l, f.at[Parent(l)]);
    } else {
      assert Parent(Child(f.place[t], i)) == f.place[t];
    }
  }

  // The entry at `l`, which lies in the table `a`.
  lemma EntryAfterStore(f: Forest, g: Forest, t: nat, i: nat, e: Entry, l: Loc, a: nat)
    requires t in f.tables && i < |f.tables[t]| && t in f.place
    requires g.at == f.at && g.tables == f.tables[t := f.tables[t][i := e]]
    requires l.path != [] && Parent(l) in f.at && f.at[Parent(l)] == a && a in f.tables
    requires a == t <==> Parent(l) == f.place[t]
    ensures Get(g, l) == if l == Child(f.place[t], i) then e else Get(f, l)
  {
    Rejoin(l);
    assert l == Child(f.place[t], i) ==> Parent(l) == f.place[t] && Last(l) == i;
  }

  // A table lies in one place only.
  lemma StoredAt(f: Forest, t: nat, l: Loc)
    requires WF(f) && t in f.tables && l in f.at
    ensures t in f.place && f.place[t] in f.at && f.at[f.place[t]] == t && (f.at[l] == t <==> l == f.place[t])
  {
    assert TableOk(f, t) && HomeOk(f, f.place[t]) && HomeOk(f, l);
  }

  lemma Rejoin(l: Loc)
    requires l.path != []
    ensures l == Child(Parent(l), Last(l))
  {
    assert l.path == l.path[..|l.path| - 1] + [Last(l)];
  }

  // Writing a leaf entry into a slot that holds no branch.
  ghost function PutLeaf(f: Forest, t: nat, i: nat, e: Entry): Forest
    requires t in f.tables && i < |f.tables[t]| && t in f.place
  {
    f.(tables := f.tables[t := f.tables[t][i := e]], leaves := f.leaves[Child(f.place[t], i) := e])
  }

  lemma PutLeafWF(f: Forest, t: nat, i: nat, e: Entry)
    requires WF(f) && t in f.tables && i < |f.tables[t]|
    requires e.v && IsLeaf(e)
    requires f.tables[t][i].v ==> IsLeaf(f.tables[t][i])
    ensures t in f.place && WF(PutLeaf(f, t, i, e))
  {
    assert TableOk(f, t);
    var g := PutLeaf(f, t, i, e);
    forall l ensures HomeOk(g, l) && LocOk(g, l) {
      GetAfterStore(f, g, t, i, e, l);
      assert LocOk(f, l);
    }
    forall t' ensures TableOk(g, t') {
      assert TableOk(f, t');
    }
  }

  // Clearing a slot that holds no branch; `e` is whatever invalid entry is left there.
  ghost function DropLeaf(f: Forest, t: nat, i: nat, e: Entry): Forest
    requires t in f.tables && i < |f.tables[t]| && t in f.place
  {
    f.(tables := f.tables[t := f.tables[t][i := e]], leaves := f.leaves - {Child(f.place[t], i)})
  }

  lemma DropLeafWF(f: Forest, t: nat, i: nat, e: Entry)
    requires WF(f) && t in f.tables && i < |f.tables[t]|
    requires !e.v
    requires f.tables[t][i].v ==> IsLeaf(f.tables[t][i])
    ensures t in f.place && WF(DropLeaf(f, t, i, e))
  {
    assert TableOk(f, t);
    var g := DropLeaf(f, t, i, e);
    forall l ensures HomeOk(g, l) && LocOk(g, l) {
      GetAfterStore(f, g, t, i, e, l);
      assert LocOk(f, l);
    }
    forall t' ensures TableOk(g, t') {
      assert TableOk(f, t');
    }
  }

  // Hanging the fresh zeroed table `n` at the place `k`, without the entry that leads to it.
  ghost function Place(f: Forest, k: Loc, n: nat): Forest {
    f.(tables := f.tables[n := ZeroTable()], place := f.place[n := k], at := f.at[k := n])
  }

  lemma GetAfterPlace(f: Forest, k: Loc, n: nat, l: Loc)
    requires WF(f) && n !in f.tables && k !in f.at && |k.path| <= 2 && (k.path == [] ==> n == k.root)
    ensures Get(Place(f, k, n), l) == if l.path != [] && Parent(l) == k then EMPTY else Get(f, l)
    ensures HomeOk(Place(f, k, n), l)
    ensures l.path != [] && Parent(l) == k ==> !Get(f, l).v
  {
    assert HomeOk(f, l);
    if l.path != [] {
      assert HomeOk(f, Parent(l));
    }
  }

  // Hanging a fresh zeroed table below an invalid slot, which becomes the branch entry `e`.
  ghost function Grow(f: Forest, t: nat, i: nat, e: Entry): Forest
    requires t in f.tables && i < |f.tables[t]| && t in f.place
  {
    var g := Place(f, Child(f.place[t], i), e.frame);
    g.(tables := f.tables[t := f.tables[t][i := e]][e.frame := ZeroTable()])
  }

  lemma GrowWF(f: Forest, t: nat, i: nat, e: Entry)
    requires WF(f) && t in f.tables && t in f.place && |f.place[t].path| < 2 && i < |f.tables[t]|
    requires !f.tables[t][i].v && e.v && !IsLeaf(e) && e.frame !in f.tables
    ensures WF(Grow(f, t, i, e))
    ensures Child(f.place[t], i) !in f.at
  {
    var k := Child(f.place[t], i);
    assert TableOk(f, t) && HomeOk(f, f.place[t]) && LocOk(f, k);
    var g := Grow(f, t, i, e);
    forall l ensures HomeOk(g, l) && LocOk(g, l) {
      GetAfterGrow(f, t, i, e, l);
      GetAfterPlace(f, k, e.frame, l);
      assert HomeOk(f, l) && LocOk(f, l);
    }
    forall t' ensures TableOk(g, t') {
      assert TableOk(f, t');
    }
  }

  lemma GetAfterGrow(f: Forest, t: nat, i: nat, e: Entry, l: Loc)
    requires WF(f) && t in f.tables && t in f.place && |f.place[t].path| < 2 && i < |f.tables[t]|
    requires !f.tables[t][i].v && e.v && !IsLeaf(e) && e.frame !in f.tables
    ensures var k := Child(f.place[t], i);
      Get(Grow(f, t, i, e), l) == if l == k then e else Get(Place(f, k, e.frame), l)
  {
    assert TableOk(f, t) && HomeOk(f, f.place[t]);
    if l.path != [] {
      assert HomeOk(f, Parent(l));
      assert l == Child(Parent(l), Last(l)) by {
        assert l.path == l.path[..|l.path| - 1] + [Last(l)];
      }
    }
  }

  // A new root table.
  lemma PlantWF(f: Forest, n: nat)
    requires WF(f) && n !in f.tables
    ensures WF(Place(f, Loc(n, []), n))
    ensures Loc(n, []) !in f.at
  {
    var k := Loc(n, []);
    assert HomeOk(f, k);
    var g := Place(f, k, n);
    forall l ensures HomeOk(g, l) && LocOk(g, l) {
      GetAfterPlace(f, k, n, l);
      assert LocOk(f, l);
    }
    forall t' ensures TableOk(g, t') {
      assert TableOk(f, t');
    }
  }

  // Freeing the table at `k` once it has no valid entry.
  ghost function Fell(f: Forest, k: Loc, n: nat): Forest {
    f.(tables := f.tables - {n}, place := f.place - {n}, at := f.at - {k})
  }

  lemma GetAfterFell(f: Forest, k: Loc, n: nat, l: Loc)
    requires WF(f) && k in f.at && f.at[k] == n && n in f.tables
    requires forall j: nat :: j < |f.tables[n]| ==> !f.tables[n][j].v
    ensures Get(Fell(f, k, n), l) == if l.path != [] && Parent(l) == k then EMPTY else Get(f, l)
    ensures HomeOk(Fell(f, k, n), l)
    ensures l.path != [] && Parent(l) == k ==> !Get(f, l).v
  {
    assert HomeOk(f, k) && HomeOk(f, l);
    if l.path != [] {
      assert HomeOk(f, Parent(l));
    }
  }

  lemma FellRootWF(f: Forest, n: nat)
    requires WF(f) && Loc(n, []) in f.at && f.at[Loc(n, [])] == n && n in f.tables
    requires forall j: nat :: j < |f.tables[n]| ==> !f.tables[n][j].v
    ensures WF(Fell(f, Loc(n, []), n))
  {
    var k := Loc(n, []);
    var g := Fell(f, k, n);
    forall l ensures HomeOk(g, l) && LocOk(g, l) {
      GetAfterFell(f, k, n, l);
      assert LocOk(f, l);
    }
    forall t' ensures TableOk(g, t') {
      assert TableOk(f, t') && HomeOk(f, k);
    }
  }

  // Freeing a table without a valid entry and clearing the branch to it.
  ghost function Prune(f: Forest, t: nat, i: nat, n: nat): Forest
    requires t in f.tables && i < |f.tables[t]| && t in f.place
  {
    var g := Fell(f, Child(f.place[t], i), n);
    g.(tables := f.tables[t := f.tables[t][i := EMPTY]] - {n})
  }

  lemma PruneWF(f: Forest, t: nat, i: nat, n: nat)
    requires WF(f) && t in f.tables && i < |f.tables[t]|
    requires f.tables[t][i].v && !IsLeaf(f.tables[t][i]) && n == f.tables[t][i].frame
    requires n in f.tables && forall j: nat :: j < |f.tables[n]| ==> !f.tables[n][j].v
    ensures n != t && t in f.place && WF(Prune(f, t, i, n))
    ensures Child(f.place[t], i) in f.at && f.at[Child(f.place[t], i)] == n
  {
    assert TableOk(f, t) && HomeOk(f, f.place[t]);
    var k := Child(f.place[t], i);
    assert LocOk(f, k) && HomeOk(f, k);
    var g := Prune(f, t, i, n);
    forall l ensures HomeOk(g, l) && LocOk(g, l) {
      GetAfterPrune(f, t, i, n, l);
      GetAfterFell(f, k, n, l);
      assert HomeOk(f, l) && LocOk(f, l);
    }
    forall t' ensures TableOk(g, t') {
      assert TableOk(f, t');
    }
  }

  lemma GetAfterPrune(f: Forest, t: nat, i: nat, n: nat, l: Loc)
    requires WF(f) && t in f.tables && i < |f.tables[t]|
    requires f.tables[t][i].v && !IsLeaf(f.tables[t][i]) && n == f.tables[t][i].frame
    requires n in f.tables && forall j: nat :: j < |f.tables[n]| ==> !f.tables[n][j].v
    ensures n != t && t in f.place && Child(f.place[t], i) in f.at && f.at[Child(f.place[t], i)] == n
    ensures var k := Child(f.place[t], i);
      Get(Prune(f, t, i, n), l) == if l == k then EMPTY else Get(Fell(f, k, n), l)
  {
    assert TableOk(f, t) && HomeOk(f, f.place[t]);
    var k := Child(f.place[t], i);
    assert LocOk(f, k) && HomeOk(f, k) && HomeOk(f, l);
    if l.path != [] {
      assert HomeOk(f, Parent(l));
      Rejoin(l);
    }
  }

  // ---- What a walk may conclude

  lemma UnderInvalid(f: Forest, q: Loc, k: Loc)
    requires WF(f) && q.path != [] && q.root == k.root && q.path <= k.path
    requires !Get(f, q).v || (q in f.leaves && q != k)
    ensures k !in f.leaves && k !in f.at
    decreases |k.path|
  {
    assert LocOk(f, q) && LocOk(f, k);
    if q != k {
      assert q.path <= Parent(k).path;
      if q == Parent(k) {
        assert HomeOk(f, q);
      } else {
        UnderInvalid(f, q, Parent(k));
      }
    }
  }

  // ---- Addresses

  const PAGE: nat := 0x1000
  const LIMIT: nat := 0x80_0000_0000

  function LevelSize(level: nat): nat
    requires level <= 2
  {
    if level == 0 then 0x1000 else if level == 1 then 0x20_0000 else 0x4000_0000
  }

  function Vpn(vaddr: nat, i: nat): (r: nat)
    requires i <= 2
    ensures r < ENTRIES
  {
    (vaddr / LevelSize(i)) % ENTRIES
  }

  function PathOf(vaddr: nat): seq<nat> {
    [Vpn(vaddr, 2), Vpn(vaddr, 1), Vpn(vaddr, 0)]
  }

  // The place of the entry that maps `vaddr` with a leaf of the given level.
  function Key(root: nat, vaddr: nat, level: nat): Loc
    requires level <= 2
  {
    Loc(root, PathOf(vaddr)[..3 - level])
  }

  // The start of the region of the given level that `x` lies in.
  function AlignDown(x: nat, level: nat): (r: nat)
    requires level <= 2
    ensures r <= x < r + LevelSize(level)
  {
    if level == 0 then x / 0x1000 * 0x1000
    else if level == 1 then x / 0x20_0000 * 0x20_0000
    else x / 0x4000_0000 * 0x4000_0000
  }

  function Phys(e: Entry, level: nat, vaddr: nat): nat
    requires level <= 2
  {
    AlignDown(e.frame * PAGE, level) + (vaddr - AlignDown(vaddr, level))
  }

  // The level of the leaf that covers `vaddr`; a virtual address is unmapped without one.
  function Hit(leaves: map<Loc, Entry>, root: nat, vaddr: nat): Option<nat> {
    if Key(root, vaddr, 2) in leaves then Some(2)
    else if Key(root, vaddr, 1) in leaves then Some(1)
    else if Key(root, vaddr, 0) in leaves then Some(0)
    else None
  }

  // The flat partial map: the physical address of `vaddr`, or 0 where it is unmapped.
  function Translate(leaves: map<Loc, Entry>, root: nat, vaddr: nat): nat {
    match Hit(leaves, root, vaddr)
    case Some(level) => Phys(leaves[Key(root, vaddr, level)], level, vaddr)
    case None => 0
  }

  // The flags of the leaf that covers `vaddr`.
  function FlagsAt(leaves: map<Loc, Entry>, root: nat, vaddr: nat): Option<Flags> {
    match Hit(leaves, root, vaddr)
    case Some(level) => Some(leaves[Key(root, vaddr, level)].flags)
    case None => None
  }

  // The region of the given level that `v` lies in, as its number and as its digits.
  lemma Digits(v: nat)
    requires v < LIMIT
    ensures v / 0x4000_0000 == Vpn(v, 2)
    ensures v / 0x20_0000 == v / 0x4000_0000 * 512 + Vpn(v, 1)
    ensures v / 0x1000 == v / 0x20_0000 * 512 + Vpn(v, 0)
  {
    var x := v / 0x1000;
    var y := x / 512;
    var z := y / 512;
    assert v / 0x20_0000 == y by {
      assert 0 <= v - y * 0x20_0000 < 0x20_0000;
    }
    assert v / 0x4000_0000 == z by {
      assert 0 <= v - z * 0x4000_0000 < 0x4000_0000;
    }
    assert z < 512;
  }

  // Two addresses of the 39-bit space have the same place exactly when one leaf covers both.
  lemma SameKey(root: nat, v: nat, w: nat, level: nat)
    requires level <= 2 && v < LIMIT && w < LIMIT
    ensures Key(root, v, level) == Key(root, w, level)
      <==> AlignDown(v, level) == AlignDown(w, level)
  {
    Digits(v);
    Digits(w);
    var p, q := PathOf(v), PathOf(w);
    if level == 0 {
      assert p[..3] == q[..3] <==> p[0] == q[0] && p[1] == q[1] && p[2] == q[2];
    } else if level == 1 {
      assert p[..2] == q[..2] <==> p[0] == q[0] && p[1] == q[1];
    } else {
      assert p[..1] == q[..1] <==> p[0] == q[0];
    }
  }

  // One leaf changes the translation and the flags of exactly the addresses that it covers.
  lemma OneLeafTranslates(leaves: map<Loc, Entry>, root: nat, v: nat, level: nat, e: Entry, root': nat, w: nat)
    requires level <= 2 && v < LIMIT && w < LIMIT
    requires forall l: nat :: level < l <= 2 ==> Key(root, v, l) !in leaves
    ensures Translate(leaves[Key(root, v, level) := e], root', w)
         == if root' == root && AlignDown(v, level) == AlignDown(w, level)
            then Phys(e, level, w) else Translate(leaves, root', w)
    ensures FlagsAt(leaves[Key(root, v, level) := e], root', w)
         == if root' == root && AlignDown(v, level) == AlignDown(w, level)
            then Some(e.flags) else FlagsAt(leaves, root', w)
  {
    SameKey(root, v, w, level);
    forall l: nat | l <= 2 ensures |Key(root', w, l).path| == 3 - l && |Key(root, v, l).path| == 3 - l {
    }
    if AlignDown(v, level) == AlignDown(w, level) {
      if level < 2 {
        SameKey(root, v, w, 2);
      }
      if level == 0 {
        SameKey(root, v, w, 1);
      }
    }
  }
}
