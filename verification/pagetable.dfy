// kernel/src/memory/pagetable.c: the tables live in page frames and are edited in place.
module PageTable {
  import opened Basics
  import opened PageTableSpec
  import opened PageRangeSpec

  // A pointer to an entry: the frame of its table and the index in it.
  datatype Slot = Slot(table: nat, index: nat)

  // For every finite set of frames there is another one.
  lemma FreshExists(s: set<nat>)
    ensures exists f: nat :: f > 0 && f !in s
  {
    var b := Bound(s);
    assert b + 1 > 0 && b + 1 !in s;
  }

  lemma Bound(s: set<nat>) returns (b: nat)
    ensures forall x :: x in s ==> x <= b
  {
    if s == {} {
      b := 0;
    } else {
      var x :| x in s;
      b := Bound(s - {x});
      b := if b < x then x else b;
      assert forall y :: y in s ==> y == x || y in s - {x};
    }
  }

  class PageMemory {
    // The contents of the frames that hold page tables, and all the frames that are handed out.
    var tables: map<nat, seq<Entry>>
    var frames: set<nat>
    ghost var forest: Forest

    ghost predicate Valid()
      reads this
    {
      forest.tables == tables && WF(forest) && tables.Keys <= frames && 0 !in frames
    }

    ghost predicate IsRoot(root: nat)
      reads this
    {
      Loc(root, []) in forest.at
    }

    constructor ()
      ensures Valid() && tables == map[] && frames == {} && forest.leaves == map[] && forest.at == map[]
    {
      tables, frames, forest := map[], {}, Forest(map[], map[], map[], map[]);
    }

    // pagealloc.c, allocPage: any frame that is not in use; memory is taken to be unbounded.
    method AllocPage() returns (f: nat)
      modifies this`frames
      ensures f !in old(frames) && f > 0 && frames == old(frames) + {f}
    {
      FreshExists(frames);
      f :| f > 0 && f !in frames;
      frames := frames + {f};
    }

    method DeallocPage(f: nat)
      modifies this`frames
      ensures frames == old(frames) - {f}
    {
      frames := frames - {f};
    }

    // A page table page is a zeroed page.
    method CreatePageTable() returns (f: nat)
      modifies this`frames, this`tables
      ensures f !in old(frames) && f > 0 && frames == old(frames) + {f}
      ensures tables == old(tables)[f := ZeroTable()]
    {
      f := AllocPage();
      tables := tables[f := ZeroTable()];
    }

    method CreateRoot() returns (f: nat)
      requires Valid()
      modifies this
      ensures Valid() && IsRoot(f) && f !in old(frames) && frames == old(frames) + {f}
      ensures forest == Place(old(forest), Loc(f, []), f)
      ensures forall p :: Loc(f, p) !in old(forest.leaves) && Loc(f, p) !in old(forest.at)
      ensures forall p :: Loc(f, p) !in forest.leaves
    {
      PlantUntouched(forest, frames);
      f := CreatePageTable();
      PlantWF(forest, f);
      forest := Place(forest, Loc(f, []), f);
    }

    // One round of the loop of mapPage: from the table above the entry of level `i` to the table below it,
    // which is created if the entry is not valid.
    method Descend(root: nat, vaddr: nat, t: nat, i: nat) returns (next: nat)
      requires Valid() && 1 <= i <= 2 && t in tables && t in forest.place
      requires forest.place[t] == Loc(root, PathOf(vaddr)[..2 - i])
      requires Key(root, vaddr, i) !in forest.leaves
      modifies this
      ensures Valid() && next in tables && next in forest.place
      ensures forest.place[next] == Key(root, vaddr, i)
      ensures Grown(old(forest), old(frames), forest, frames)
      ensures forall l :: l in forest.at && l !in old(forest.at) ==> l == Key(root, vaddr, i)
    {
      var idx := Vpn(vaddr, i);
      TableIsFull(forest, t);
      StepDown(root, vaddr, i);
      var k := Key(root, vaddr, i);
      assert LocOk(forest, k) && Get(forest, k) == tables[t][idx];
      if !tables[t][idx].v {
        next := HangTable(t, idx, NO_FLAGS, k);
      } else {
        assert HomeOk(forest, k);
        next := tables[t][idx].frame;
      }
    }

    // A new table below an invalid entry.
    method HangTable(t: nat, idx: nat, flags: Flags, ghost k: Loc) returns (next: nat)
      requires Valid() && t in tables && t in forest.place && |forest.place[t].path| < 2
      requires idx < |tables[t]| && !tables[t][idx].v && k == Child(forest.place[t], idx)
      requires !IsLeaf(Entry(true, flags, 0))
      modifies this
      ensures Valid() && next !in old(frames) && frames == old(frames) + {next}
      ensures forest == Grow(old(forest), t, idx, Entry(true, flags, next)) && k !in old(forest.at)
      ensures forest.at == old(forest.at)[k := next] && forest.place == old(forest.place)[next := k]
    {
      next := CreatePageTable();
      var e := Entry(true, flags, next);
      GrowWF(forest, t, idx, e);
      tables := tables[t := tables[t][idx := e]];
      forest := Grow(forest, t, idx, e);
    }

    // mapPage: walks down to the wanted level, hanging new tables where there are none.
    method MapPage(root: nat, vaddr: nat, paddr: nat, bits: Flags, level: nat) returns (s: Slot)
      requires Valid() && IsRoot(root) && level <= 2
      requires IsLeaf(Entry(true, bits, 0))
      // The assertions of the original: no leaf on the way, no branch at the target.
      requires forall l: nat :: level < l <= 2 ==> Key(root, vaddr, l) !in forest.leaves
      requires Key(root, vaddr, level) !in forest.at
      modifies this
      ensures Valid()
      ensures forest.leaves == old(forest.leaves)[Key(root, vaddr, level) := Entry(true, bits, paddr / PAGE)]
      ensures GrownTables(old(forest), old(frames), forest, frames)
      ensures forall l :: l in forest.at && l !in old(forest.at) ==>
                exists j: nat :: level < j <= 2 && l == Key(root, vaddr, j)
      ensures s.table in tables && s.index < ENTRIES && s.table in forest.place
      ensures Child(forest.place[s.table], s.index) == Key(root, vaddr, level)
    {
      var t := WalkToLevel(root, vaddr, level);
      forall j: nat | level < j <= 2 ensures Key(root, vaddr, j) != Key(root, vaddr, level) {
        KeysDiffer(root, vaddr, j, level);
      }
      var idx := Vpn(vaddr, level);
      var e := Entry(true, bits, paddr / PAGE);
      WriteLeaf(t, idx, e, Key(root, vaddr, level)) by {
        StepDown(root, vaddr, level);
        TableIsFull(forest, t);
        assert LocOk(forest, Key(root, vaddr, level));
      }
      s := Slot(t, idx);
    }

    // Its loop.
    method WalkToLevel(root: nat, vaddr: nat, level: nat) returns (t: nat)
      requires Valid() && IsRoot(root) && level <= 2
      requires forall l: nat :: level < l <= 2 ==> Key(root, vaddr, l) !in forest.leaves
      modifies this
      ensures Valid() && t in tables && t in forest.place && forest.place[t] == Loc(root, PathOf(vaddr)[..2 - level])
      ensures Grown(old(forest), old(frames), forest, frames)
      ensures forall l :: l in forest.at && l !in old(forest.at) ==>
                exists j: nat :: level < j <= 2 && l == Key(root, vaddr, j)
    {
      assert HomeOk(forest, Loc(root, []));
      t := root;
      var i := 2;
      assert PathOf(vaddr)[..0] == [];
      while i > level
        invariant level <= i <= 2
        invariant Valid() && t in tables && t in forest.place
        invariant forest.place[t] == Loc(root, PathOf(vaddr)[..2 - i])
        invariant Grown(old(forest), old(frames), forest, frames)
        invariant forall l :: l in forest.at && l !in old(forest.at) ==>
                    exists j: nat :: level < j <= 2 && l == Key(root, vaddr, j)
      {
        t := Descend(root, vaddr, t, i);
        i := i - 1;
      }
    }

    // A store of a whole leaf entry through a pointer to it.
    method WriteLeaf(t: nat, i: nat, e: Entry, ghost k: Loc)
      requires Valid() && t in tables && i < |tables[t]| && t in forest.place && Child(forest.place[t], i) == k
      requires e.v && IsLeaf(e) && (tables[t][i].v ==> IsLeaf(tables[t][i]))
      modifies this`tables, this`forest
      ensures Valid() && forest == PutLeaf(old(forest), t, i, e)
      ensures forest.leaves == old(forest.leaves)[k := e] && tables.Keys == old(tables.Keys)
    {
      PutLeafWF(forest, t, i, e);
      tables := tables[t := tables[t][i := e]];
      forest := PutLeaf(forest, t, i, e);
    }

    // tryToFreeTable: frees the table unless one of its entries is valid.
    method TryToFreeTable(t: nat) returns (freed: bool)
      requires t in tables && |tables[t]| == ENTRIES
      modifies this`tables, this`frames
      ensures freed <==> forall j: nat :: j < ENTRIES ==> !old(tables)[t][j].v
      ensures tables == if freed then old(tables) - {t} else old(tables)
      ensures frames == if freed then old(frames) - {t} else old(frames)
    {
      for i := 0 to ENTRIES
        invariant forall j: nat :: j < i ==> !tables[t][j].v
      {
        if tables[t][i].v {
          return false;
        }
      }
      tables := tables - {t};
      DeallocPage(t);
      return true;
    }

    // virtToEntry: the entry that handles `vaddr`, if there is one.
    method VirtToEntry(root: nat, vaddr: nat) returns (s: Option<Slot>)
      requires Valid() && IsRoot(root)
      ensures s.None? <==> Hit(forest.leaves, root, vaddr).None?
      ensures s.Some? ==> s.value.table in tables && s.value.index < |tables[s.value.table]| &&
                          s.value.table in forest.place &&
                          Child(forest.place[s.value.table], s.value.index)
                          == Key(root, vaddr, Hit(forest.leaves, root, vaddr).value)
    {
      assert HomeOk(forest, Loc(root, []));
      var t := root;
      var i := 2;
      assert PathOf(vaddr)[..0] == [];
      while i >= 0
        invariant -1 <= i <= 2
        invariant i >= 0 ==> t in tables && t in forest.place && forest.place[t] == Loc(root, PathOf(vaddr)[..2 - i])
        invariant forall j: nat :: i < j <= 2 ==> Key(root, vaddr, j) !in forest.leaves
      {
        var k := Key(root, vaddr, i);
        TableIsFull(forest, t);
        StepDown(root, vaddr, i);
        assert LocOk(forest, k) && HomeOk(forest, k);
        var e := tables[t][Vpn(vaddr, i)];
        if e.v {
          if IsLeaf(e) {
            return Some(Slot(t, Vpn(vaddr, i)));
          }
          t := e.frame;
        } else {
          UnderInvalidKey(forest, root, vaddr, i);
          return None;
        }
        i := i - 1;
      }
      return None;
    }

    // unsafeVirtToPhys: the same walk, returning the physical address or 0.
    method UnsafeVirtToPhys(root: nat, vaddr: nat) returns (paddr: nat)
      requires Valid() && IsRoot(root)
      ensures paddr == Translate(forest.leaves, root, vaddr)
    {
      assert HomeOk(forest, Loc(root, []));
      var t := root;
      var i := 2;
      assert PathOf(vaddr)[..0] == [];
      while i >= 0
        invariant -1 <= i <= 2
        invariant i >= 0 ==> t in tables && t in forest.place && forest.place[t] == Loc(root, PathOf(vaddr)[..2 - i])
        invariant forall j: nat :: i < j <= 2 ==> Key(root, vaddr, j) !in forest.leaves
      {
        var e := ReadEntry(root, vaddr, t, i);
        if e.v {
          if IsLeaf(e) {
            return AlignDown(e.frame * PAGE, i) + (vaddr - AlignDown(vaddr, i));
          }
          t := e.frame;
        } else {
          return 0;
        }
        i := i - 1;
      }
      return 0;
    }

    // The entry for `vaddr` in the table `t` on its way, and what it means for the levels below.
    method ReadEntry(ghost root: nat, vaddr: nat, t: nat, i: nat) returns (e: Entry)
      requires Valid() && i <= 2 && t in tables && t in forest.place
               && forest.place[t] == Loc(root, PathOf(vaddr)[..2 - i])
      ensures e.v && IsLeaf(e) ==> Key(root, vaddr, i) in forest.leaves && forest.leaves[Key(root, vaddr, i)] == e
      ensures e.v && !IsLeaf(e) ==> Key(root, vaddr, i) !in forest.leaves
      ensures e.v && !IsLeaf(e) && i > 0 ==>
                e.frame in tables && e.frame in forest.place
                    && forest.place[e.frame] == Loc(root, PathOf(vaddr)[..2 - (i - 1)])
      ensures !e.v ==> forall j: nat :: j <= i ==> Key(root, vaddr, j) !in forest.leaves
    {
      ghost var k := Key(root, vaddr, i);
      TableIsFull(forest, t);
      StepDown(root, vaddr, i);
      assert LocOk(forest, k) && HomeOk(forest, k);
      e := tables[t][Vpn(vaddr, i)];
      if !e.v {
        UnderInvalidKey(forest, root, vaddr, i);
      }
    }

    // The tables on the way to `vaddr`, from level `i` up to the root.
    ghost predicate Chain(root: nat, vaddr: nat, table: seq<nat>, i: nat)
      reads this
    {
      |table| == 3 && forall m :: i <= m <= 2 ==>
        table[m] in tables && table[m] in forest.place && forest.place[table[m]] == Loc(root, PathOf(vaddr)[..2 - m])
    }

    // A store of an invalid entry over a leaf or another invalid entry.
    method WriteInvalid(t: nat, i: nat, e: Entry, ghost k: Loc)
      requires Valid() && t in tables && i < |tables[t]| && t in forest.place && Child(forest.place[t], i) == k
      requires !e.v && (tables[t][i].v ==> IsLeaf(tables[t][i]))
      modifies this`tables, this`forest
      ensures Valid() && forest == DropLeaf(old(forest), t, i, e)
      ensures forest.leaves == old(forest.leaves) - {k} && tables.Keys == old(tables.Keys)
    {
      DropLeafWF(forest, t, i, e);
      tables := tables[t := tables[t][i := e]];
      forest := DropLeaf(forest, t, i, e);
    }

    // deallocPage of a root table without a valid entry.
    method DropRoot(root: nat)
      requires Valid() && IsRoot(root) && forall l: Loc :: l.root == root && l.path != [] ==>
                 l !in forest.at && l !in forest.leaves
      modifies this
      ensures Valid() && forest == Fell(old(forest), Loc(root, []), root) && frames == old(frames) - {root}
      ensures tables.Keys == old(tables.Keys) - {root} && forest.at == old(forest.at) - {Loc(root, [])}
    {
      assert HomeOk(forest, Loc(root, []));
      TableIsFull(forest, root);
      forall j: nat | j < ENTRIES ensures !tables[root][j].v {
        assert LocOk(forest, Child(Loc(root, []), j));
      }
      FellRootWF(forest, root);
      tables := tables - {root};
      DeallocPage(root);
      forest := Fell(forest, Loc(root, []), root);
    }

    // deallocPage of a table without a valid entry, and the end of the branch to it.
    method DropTable(t: nat, i: nat, n: nat)
      requires Valid() && t in tables && t in forest.place && i < |tables[t]| && n in tables && n != t
      requires WF(Prune(forest, t, i, n))
      modifies this
      ensures Valid() && forest == Prune(old(forest), t, i, n) && frames == old(frames) - {n}
      ensures tables.Keys == old(tables.Keys) - {n}
    {
      tables := tables - {n};
      DeallocPage(n);
      tables := tables[t := tables[t][i := EMPTY]];
      forest := Prune(forest, t, i, n);
      assert forest.tables == tables;
    }

    // One round of the inner loop of unmapPage: frees the table of level `j` and clears the entry above it,
    // unless the table still has a valid entry.
    method FreeOneTable(root: nat, vaddr: nat, table: seq<nat>, j: nat) returns (freed: bool)
      requires Valid() && j < 2 && Chain(root, vaddr, table, j)
      modifies this
      ensures Valid() && forest.leaves == old(forest.leaves) && Chain(root, vaddr, table, j + 1)
      ensures Shrunk(old(forest), old(frames), forest, frames)
      ensures freed ==> forest.at == old(forest.at) - {Key(root, vaddr, j + 1)}
      ensures !freed ==> forest == old(forest) && Key(root, vaddr, j + 1) in forest.at &&
                         HasValid(forest, Key(root, vaddr, j + 1))
    {
      var n, t, idx := table[j], table[j + 1], Vpn(vaddr, j + 1);
      EmptyOrNot(forest, frames, root, vaddr, j + 1, t, n);
      ghost var before := forest;
      freed := TryToFreeTable(n);
      if freed {
        tables := tables[t := tables[t][idx := EMPTY]];
        forest := Prune(before, t, idx, n);
        assert forest.tables == tables;
      }
    }

    // The inner loop of unmapPage: after a leaf of level `i` is gone, frees the tables that became empty.
    method FreeUpwards(root: nat, vaddr: nat, table: seq<nat>, i: nat)
      requires Valid() && i <= 2 && Chain(root, vaddr, table, i)
      modifies this
      ensures Valid() && forest.leaves == old(forest.leaves)
      ensures Shrunk(old(forest), old(frames), forest, frames)
      ensures forall l :: l in old(forest.at) && l !in forest.at ==>
                exists m: nat :: i < m <= 2 && l == Key(root, vaddr, m)
      // No table on the way is left without a valid entry, except for the root.
      ensures forall m: nat :: i < m <= 2 && Key(root, vaddr, m) in forest.at ==>
                HasValid(forest, Key(root, vaddr, m))
    {
      var j := i;
      while j < 2
        invariant i <= j <= 2
        invariant Valid() && forest.leaves == old(forest.leaves) && Chain(root, vaddr, table, j)
        invariant Shrunk(old(forest), old(frames), forest, frames)
        invariant forall l :: l in old(forest.at) && l !in forest.at ==>
                    exists m: nat :: i < m <= j && l == Key(root, vaddr, m)
        invariant forall m: nat :: i < m <= j ==> Key(root, vaddr, m) !in forest.at
      {
        var freed := FreeOneTable(root, vaddr, table, j);
        if !freed {
          StillBranches(forest, root, vaddr, j + 1);
          break;
        }
        j := j + 1;
      }
    }

    // unmapPage: removes the leaf that covers `vaddr`, if any, and the tables that it leaves empty.
    method UnmapPage(root: nat, vaddr: nat)
      requires Valid() && IsRoot(root)
      modifies this
      ensures Valid()
      ensures forest.leaves == match Hit(old(forest.leaves), root, vaddr)
                               case None => old(forest.leaves)
                               case Some(level) => old(forest.leaves) - {Key(root, vaddr, level)}
      ensures Shrunk(old(forest), old(frames), forest, frames)
      ensures match Hit(old(forest.leaves), root, vaddr)
              case None => forest == old(forest)
              case Some(level) =>
                && (forall l :: l in old(forest.at) && l !in forest.at ==>
                      exists m: nat :: level < m <= 2 && l == Key(root, vaddr, m))
                && (forall m: nat :: level < m <= 2 && Key(root, vaddr, m) in forest.at ==>
                      HasValid(forest, Key(root, vaddr, m)))
    {
      assert HomeOk(forest, Loc(root, []));
      var table: seq<nat> := [0, 0, root];
      var i := 2;
      assert PathOf(vaddr)[..0] == [];
      while i >= 0
        invariant -1 <= i <= 2 && forest == old(forest) && tables == old(tables) && frames == old(frames)
        invariant i >= 0 ==> Chain(root, vaddr, table, i)
        invariant forall j: nat :: i < j <= 2 ==> Key(root, vaddr, j) !in forest.leaves
      {
        var k := Key(root, vaddr, i);
        var t := table[i];
        TableIsFull(forest, t);
        StepDown(root, vaddr, i);
        assert LocOk(forest, k) && HomeOk(forest, k);
        var e := tables[t][Vpn(vaddr, i)];
        if e.v {
          if IsLeaf(e) {
            DropLeafWF(forest, t, Vpn(vaddr, i), EMPTY);
            tables := tables[t := tables[t][Vpn(vaddr, i) := EMPTY]];
            forest := DropLeaf(forest, t, Vpn(vaddr, i), EMPTY);
            FreeUpwards(root, vaddr, table, i);
            return;
          }
          table := table[i - 1 := e.frame];
        } else {
          UnderInvalidKey(forest, root, vaddr, i);
          return;
        }
        i := i - 1;
      }
    }

    // mapPageRangeAtLevel: [from, to) with leaves of one level.
    method MapPageRangeAtLevel(root: nat, from: nat, to: nat, paddr: nat, bits: Flags, level: nat)
      requires Valid() && IsRoot(root) && level <= 2 && IsLeaf(Entry(true, bits, 0))
      requires Aligned(from, level) && Aligned(to, level) && from <= to <= LIMIT
      requires RoomLevel(forest, root, from, to, level)
      modifies this
      ensures Valid() && IsRoot(root) && Extends(old(forest), forest, root, from, to)
      ensures RoomLevel(forest, root, from, to, level)
      ensures Uniform(forest, root, from, to, from, paddr, level)
      ensures Translated(old(forest), forest, root, from, to) && Flagged(old(forest), forest, root, from, to, bits)
    {
      var size := LevelSize(level);
      var i := 0;
      while i < to - from
        invariant 0 <= i <= to - from && Aligned(from + i, level)
        invariant Valid() && IsRoot(root)
                  && MappedUpTo(old(forest), forest, root, from, from + i, to, paddr, bits, level)
      {
        NextAligned(from + i, to, level);
        MapNext(root, from, i, to, paddr, bits, level, old(forest));
        i := i + size;
      }
    }

    // One round of its loop.
    method MapNext(root: nat, from: nat, i: nat, to: nat, paddr: nat, bits: Flags, level: nat, ghost was: Forest)
      requires Valid() && IsRoot(root) && level <= 2 && IsLeaf(Entry(true, bits, 0))
      requires Aligned(from, level) && Aligned(to, level) && Aligned(from + i, level)
      requires from + i + LevelSize(level) <= to <= LIMIT
      requires MappedUpTo(was, forest, root, from, from + i, to, paddr, bits, level)
      modifies this
      ensures Valid() && IsRoot(root)
              && MappedUpTo(was, forest, root, from, from + i + LevelSize(level), to, paddr, bits, level)
    {
      ghost var before, next := forest, from + i + LevelSize(level);
      MapOne(root, from, from + i, to, paddr + i, bits, level);
      MappedNext(was, before, forest, root, from, from + i, next, to, paddr, bits, level);
    }

    // tryMapingRangeAtLevel: as much of [from, to) as possible with leaves of `level`, the rest with smaller ones.
    method TryMapingRangeAtLevel(root: nat, from: nat, to: nat, paddr: nat, bits: Flags, level: nat)
      requires Valid() && IsRoot(root) && level <= 2 && IsLeaf(Entry(true, bits, 0))
      requires Aligned(from, 0) && Aligned(to, 0) && from <= to <= LIMIT
      requires Room(forest, root, from, to, level)
      modifies this
      ensures Valid() && IsRoot(root) && Extends(old(forest), forest, root, from, to)
      ensures Room(forest, root, from, to, level)
      ensures Ranged(forest, root, from, to, paddr, level)
      ensures Translated(old(forest), forest, root, from, to) && Flagged(old(forest), forest, root, from, to, bits)
      decreases level, 3
    {
      if from != to {
        if level == 0 {
          RoomSmall(forest, root, from, to);
          MapPageRangeAtLevel(root, from, to, paddr, bits, 0);
          RoomSmall(forest, root, from, to);
          UniformIsRanged(forest, root, from, to, paddr);
        } else {
          var size := LevelSize(level);
          var start := AlignDown(from + size - 1, level);
          var end := AlignDown(to, level);
          AlignedDown(from + size - 1, level);
          AlignedDown(to, level);
          if start < end && end - start > size {
            AlignedBelow(start, level, 0);
            AlignedBelow(end, level, 0);
            MapInThreeParts(root, from, to, paddr, bits, level, start, end);
          } else {
            RoomSame(forest, root, from, to, level);
            TryMapingRangeAtLevel(root, from, to, paddr, bits, level - 1);
            RoomSame(forest, root, from, to, level);
            RangedSame(forest, root, from, to, paddr, level);
          }
        }
      }
    }

    // The middle of the range with leaves of this level, and what is left on both sides with smaller ones.
    method MapInThreeParts(root: nat, from: nat, to: nat, paddr: nat, bits: Flags, level: nat, start: nat, end: nat)
      requires Valid() && IsRoot(root) && 1 <= level <= 2 && IsLeaf(Entry(true, bits, 0))
      requires Aligned(from, 0) && Aligned(to, 0) && from <= start < end <= to <= LIMIT && Splits(from, to, level)
      requires start == AlignDown(from + LevelSize(level) - 1, level) && end == AlignDown(to, level)
      requires Aligned(start, level) && Aligned(end, level) && Aligned(start, 0) && Aligned(end, 0)
      requires Room(forest, root, from, to, level)
      modifies this
      ensures Valid() && IsRoot(root) && Extends(old(forest), forest, root, from, to)
      ensures Room(forest, root, from, to, level)
      ensures Ranged(forest, root, from, to, paddr, level)
      ensures Translated(old(forest), forest, root, from, to) && Flagged(old(forest), forest, root, from, to, bits)
      decreases level, 2
    {
      ghost var f := forest;
      RoomSplit(f, root, from, to, level, start, end);
      TryMapingRangeAtLevel(root, from, start, paddr, bits, level - 1);
      ghost var a := forest;
      RoomLevelStays(f, a, root, from, start, start, end, level);
      RoomStays(f, a, root, from, start, end, to, level - 1);
      ghost var b := MapMiddleAndEnd(root, from, to, paddr, bits, level, start, end);
      RoomSplit(forest, root, from, to, level, start, end);
      ThreeParts(f, a, b, forest, root, from, to, paddr, level, start, end);
      FlaggedGrows(f, a, b, root, from, start, end, bits);
      FlaggedGrows(f, b, forest, root, from, end, to, bits);
    }

    method MapMiddleAndEnd(root: nat, from: nat, to: nat, paddr: nat, bits: Flags, level: nat, start: nat, end: nat)
      returns (ghost b: Forest)
      requires Valid() && IsRoot(root) && 1 <= level <= 2 && IsLeaf(Entry(true, bits, 0))
      requires Aligned(from, 0) && Aligned(to, 0) && from <= start < end <= to <= LIMIT
      requires Aligned(start, level) && Aligned(end, level) && Aligned(start, 0) && Aligned(end, 0)
      requires Room(forest, root, from, start, level - 1) && RoomLevel(forest, root, start, end, level)
      requires Room(forest, root, end, to, level - 1)
      modifies this
      ensures Valid() && IsRoot(root)
      ensures Room(forest, root, from, start, level - 1) && RoomLevel(forest, root, start, end, level)
      ensures Room(forest, root, end, to, level - 1)
      ensures Extends(old(forest), b, root, start, end) && Extends(b, forest, root, end, to)
      ensures Translated(old(forest), b, root, start, end)
      ensures Uniform(b, root, start, end, start, paddr + (start - from), level)
      ensures Translated(b, forest, root, end, to) && Ranged(forest, root, end, to, paddr + (end - from), level - 1)
      ensures Flagged(old(forest), b, root, start, end, bits) && Flagged(b, forest, root, end, to, bits)
      decreases level, 1
    {
      ghost var a := forest;
      MapPageRangeAtLevel(root, start, end, paddr + (start - from), bits, level);
      b := forest;
      RoomBeside(a, b, root, from, start, end, to, level);
      MapEnd(root, from, to, paddr, bits, level, start, end);
    }

    method MapEnd(root: nat, from: nat, to: nat, paddr: nat, bits: Flags, level: nat, start: nat, end: nat)
      requires Valid() && IsRoot(root) && 1 <= level <= 2 && IsLeaf(Entry(true, bits, 0))
      requires Aligned(from, 0) && Aligned(to, 0) && from <= start < end <= to <= LIMIT
      requires Aligned(start, level) && Aligned(end, level) && Aligned(start, 0) && Aligned(end, 0)
      requires Room(forest, root, from, start, level - 1) && RoomLevel(forest, root, start, end, level)
      requires Room(forest, root, end, to, level - 1)
      modifies this
      ensures Valid() && IsRoot(root)
      ensures Room(forest, root, from, start, level - 1) && RoomLevel(forest, root, start, end, level)
      ensures Room(forest, root, end, to, level - 1) && Extends(old(forest), forest, root, end, to)
      ensures Translated(old(forest), forest, root, end, to) && Flagged(old(forest), forest, root, end, to, bits)
      ensures Ranged(forest, root, end, to, paddr + (end - from), level - 1)
      decreases level, 0
    {
      ghost var b := forest;
      TryMapingRangeAtLevel(root, end, to, paddr + (end - from), bits, level - 1);
      RoomStays(b, forest, root, end, to, from, start, level - 1);
      RoomLevelStays(b, forest, root, end, to, start, end, level);
    }

    // mapPageRange: the range is widened to whole pages.
    method MapPageRange(root: nat, from: nat, to: nat, paddr: nat, bits: Flags)
      requires Valid() && IsRoot(root) && IsLeaf(Entry(true, bits, 0))
      requires from <= to <= LIMIT
      requires Room(forest, root, AlignDown(from, 0), AlignDown(to + PAGE - 1, 0), 2)
      modifies this
      ensures Valid() && IsRoot(root) && Room(forest, root, AlignDown(from, 0), AlignDown(to + PAGE - 1, 0), 2)
      ensures Extends(old(forest), forest, root, AlignDown(from, 0), AlignDown(to + PAGE - 1, 0))
      ensures Ranged(forest, root, AlignDown(from, 0), AlignDown(to + PAGE - 1, 0), paddr, 2)
      ensures Translated(old(forest), forest, root, AlignDown(from, 0), AlignDown(to + PAGE - 1, 0))
      ensures Flagged(old(forest), forest, root, AlignDown(from, 0), AlignDown(to + PAGE - 1, 0), bits)
    {
      var start := AlignDown(from, 0);
      var end := AlignDown(to + PAGE - 1, 0);
      AlignedDown(from, 0);
      AlignedDown(to + PAGE - 1, 0);
      TryMapingRangeAtLevel(root, start, end, paddr, bits, 2);
    }

    // The identity mapping that virtmem.c builds from a new table: one range after the other.
    method MapIdentity(root: nat, ranges: seq<Range>)
      requires Valid() && IsRoot(root)
      requires forall k :: k in forest.leaves || k in forest.at ==> k.root != root || k == Loc(root, [])
      requires forall i :: 0 <= i < |ranges| ==> Proper(ranges[i])
      requires forall i, j :: 0 <= i < j < |ranges| ==> Beside(ranges[i], ranges[j])
      modifies this
      ensures Valid() && IsRoot(root)
      ensures forall w: nat :: w < LIMIT ==>
                Translate(forest.leaves, root, w)
                == if exists i :: 0 <= i < |ranges| && Within(w, ranges[i]) then w else 0
      ensures forall w: nat, i :: 0 <= i < |ranges| && Within(w, ranges[i]) ==>
                FlagsAt(forest.leaves, root, w) == Some(ranges[i].bits)
      ensures forall w: nat :: w < LIMIT && (forall i :: 0 <= i < |ranges| ==> !Within(w, ranges[i])) ==>
                FlagsAt(forest.leaves, root, w) == None
      ensures forall r: nat, w: nat :: r != root && w < LIMIT ==>
                FlagsAt(forest.leaves, r, w) == FlagsAt(old(forest).leaves, r, w)
    {
      ghost var start := forest;
      IdentityBegins(forest, root, ranges);
      var n := 0;
      while n < |ranges|
        invariant 0 <= n <= |ranges| && Valid() && IsRoot(root) && IdentityUpTo(start, forest, root, ranges, n)
      {
        ghost var f := forest;
        MapPageRange(root, ranges[n].from, ranges[n].to, ranges[n].from, ranges[n].bits);
        IdentityRound(start, f, forest, root, ranges, n);
        n := n + 1;
      }
      FlagsDone(start, forest, root, ranges);
    }

    // One round of the loop of mapPageRangeAtLevel.
    method MapOne(root: nat, ghost from: nat, v: nat, ghost to: nat, paddr: nat, bits: Flags, level: nat)
      requires Valid() && IsRoot(root) && level <= 2 && IsLeaf(Entry(true, bits, 0))
      requires Aligned(from, level) && Aligned(v, level) && Aligned(to, level)
      requires from <= v && v + LevelSize(level) <= to <= LIMIT
      requires RoomLevel(forest, root, from, to, level)
      modifies this
      ensures Valid() && IsRoot(root) && Extends(old(forest), forest, root, v, v + LevelSize(level))
      ensures RoomLevel(forest, root, from, to, level)
      ensures Uniform(forest, root, v, v + LevelSize(level), v, paddr, level)
      ensures Translated(old(forest), forest, root, v, v + LevelSize(level))
      ensures Flagged(old(forest), forest, root, v, v + LevelSize(level), bits)
    {
      ghost var before := forest;
      assert RoomAt(forest, root, v, level);
      var _ := MapPage(root, v, paddr, bits, level);
      OneLeafExtends(before, forest, root, v, paddr, bits, level);
      OneLeafRoom(before, forest, root, from, v, to, paddr, bits, level);
    }
  }

  datatype Range = Range(from: nat, to: nat, bits: Flags)

  function Start(r: Range): nat { AlignDown(r.from, 0) }
  function End(r: Range): nat { AlignDown(r.to + PAGE - 1, 0) }

  predicate Proper(r: Range) {
    r.from <= r.to <= LIMIT && IsLeaf(Entry(true, r.bits, 0))
  }

  predicate Beside(r: Range, s: Range) {
    End(r) <= Start(s) || End(s) <= Start(r)
  }

  predicate Within(w: nat, r: Range) {
    Start(r) <= w < End(r)
  }

  // After the first `n` ranges an address has the flags of the range that it is in, or none, or those that it had in
  // another space.
  ghost predicate FlagOk(f: Forest, g: Forest, root: nat, ranges: seq<Range>, n: nat, r: nat, w: nat)
    requires n <= |ranges|
  {
    && (r != root ==> FlagsAt(g.leaves, r, w) == FlagsAt(f.leaves, r, w))
    && (forall i :: 0 <= i < n && Within(w, ranges[i]) ==> FlagsAt(g.leaves, root, w) == Some(ranges[i].bits))
    && ((forall i :: 0 <= i < n ==> !Within(w, ranges[i])) ==> FlagsAt(g.leaves, root, w) == None)
  }

  ghost predicate FlaggedUpTo(f: Forest, g: Forest, root: nat, ranges: seq<Range>, n: nat)
    requires n <= |ranges|
  {
    forall r: nat, w: nat {:trigger FlagOk(f, g, root, ranges, n, r, w)} :: w < LIMIT ==>
      FlagOk(f, g, root, ranges, n, r, w)
  }

  lemma FlagsStep(f: Forest, g: Forest, h: Forest, root: nat, ranges: seq<Range>, n: nat)
    requires n < |ranges| && FlaggedUpTo(f, g, root, ranges, n)
    requires Flagged(g, h, root, Start(ranges[n]), End(ranges[n]), ranges[n].bits)
    requires forall i :: 0 <= i < n ==> Beside(ranges[i], ranges[n])
    ensures FlaggedUpTo(f, h, root, ranges, n + 1)
  {
    var m := n + 1;
    forall r: nat, w: nat | w < LIMIT ensures FlagOk(f, h, root, ranges, m, r, w) {
      assert FlagOk(f, g, root, ranges, n, r, w);
      var x, y := FlagsAt(h.leaves, r, w), FlagsAt(h.leaves, root, w);
    }
  }

  lemma FlagsDone(f: Forest, g: Forest, root: nat, ranges: seq<Range>)
    requires FlaggedUpTo(f, g, root, ranges, |ranges|) && forall i :: 0 <= i < |ranges| ==> Proper(ranges[i])
    ensures forall w: nat, i :: 0 <= i < |ranges| && Within(w, ranges[i]) ==>
              FlagsAt(g.leaves, root, w) == Some(ranges[i].bits)
    ensures forall w: nat :: w < LIMIT && (forall i :: 0 <= i < |ranges| ==> !Within(w, ranges[i])) ==>
              FlagsAt(g.leaves, root, w) == None
    ensures forall r: nat, w: nat :: r != root && w < LIMIT ==> FlagsAt(g.leaves, r, w) == FlagsAt(f.leaves, r, w)
  {
    var n := |ranges|;
    forall w: nat, i | 0 <= i < n && Within(w, ranges[i]) ensures FlagsAt(g.leaves, root, w) == Some(ranges[i].bits) {
      RangeEnds(ranges[i]);
      assert FlagOk(f, g, root, ranges, n, root, w);
    }
    forall w: nat | w < LIMIT && (forall i :: 0 <= i < n ==> !Within(w, ranges[i]))
      ensures FlagsAt(g.leaves, root, w) == None
    {
      assert FlagOk(f, g, root, ranges, n, root, w);
    }
    forall r: nat, w: nat | r != root && w < LIMIT ensures FlagsAt(g.leaves, r, w) == FlagsAt(f.leaves, r, w) {
      assert FlagOk(f, g, root, ranges, n, r, w);
    }
  }

  // Below a root without entries every range is clear.
  lemma EmptyIsClear(f: Forest, root: nat)
    requires forall k :: k in f.leaves || k in f.at ==> k.root != root || k == Loc(root, [])
    requires WF(f)
    ensures forall from: nat, to: nat :: from <= to ==> Room(f, root, from, to, 2)
    ensures forall w: nat :: Translate(f.leaves, root, w) == 0
    ensures forall w: nat :: FlagsAt(f.leaves, root, w) == None
  {
    assert LocOk(f, Loc(root, []));
    forall w: nat, l: nat | l <= 2 ensures Key(root, w, l) !in f.leaves && Key(root, w, l) !in f.at {
      assert |Key(root, w, l).path| == 3 - l;
    }
    forall from: nat, to: nat, w: nat | from <= w < to ensures RoomAt(f, root, w, LevelAt(from, to, w, 2)) {
      LevelAtMost(from, to, w);
    }
  }

  lemma RangeEnds(r: Range)
    requires Proper(r)
    ensures Start(r) <= End(r) <= LIMIT && Aligned(Start(r), 0) && Aligned(End(r), 0)
  {
    AlignedDown(r.from, 0);
    AlignedDown(r.to + PAGE - 1, 0);
  }

  lemma UniformIsRanged(g: Forest, root: nat, from: nat, to: nat, paddr: nat)
    requires from <= to && Uniform(g, root, from, to, from, paddr, 0)
    ensures Ranged(g, root, from, to, paddr, 0)
  {
    forall w: nat | from <= w < to
      ensures var l := LevelAt(from, to, w, 0);
        l <= 2 && from <= AlignDown(w, l) && Translate(g.leaves, root, w) == RangePhys(w, from, paddr, l)
    {
      var t := Translate(g.leaves, root, w);
      assert t == RangePhys(w, from, paddr, 0);
    }
  }

  // From `f` to `g` the first `n` ranges have been mapped, and there is room for the others.
  ghost predicate IdentityUpTo(f: Forest, g: Forest, root: nat, ranges: seq<Range>, n: nat)
    requires n <= |ranges|
  {
    && (forall j :: n <= j < |ranges| ==> Start(ranges[j]) <= End(ranges[j]) &&
                                          Room(g, root, Start(ranges[j]), End(ranges[j]), 2))
    && (forall w: nat {:trigger Translate(g.leaves, root, w)} :: w < LIMIT ==>
          Translate(g.leaves, root, w) == if exists i :: 0 <= i < n && Within(w, ranges[i]) then w else 0)
    && FlaggedUpTo(f, g, root, ranges, n)
  }

  lemma IdentityBegins(f: Forest, root: nat, ranges: seq<Range>)
    requires forall k :: k in f.leaves || k in f.at ==> k.root != root || k == Loc(root, [])
    requires WF(f) && forall i :: 0 <= i < |ranges| ==> Proper(ranges[i])
    ensures IdentityUpTo(f, f, root, ranges, 0)
  {
    EmptyIsClear(f, root);
    forall j | 0 <= j < |ranges|
      ensures Start(ranges[j]) <= End(ranges[j]) && Room(f, root, Start(ranges[j]), End(ranges[j]), 2)
    {
      RangeEnds(ranges[j]);
    }
    forall r: nat, w: nat | w < LIMIT ensures FlagOk(f, f, root, ranges, 0, r, w) {
      assert FlagsAt(f.leaves, root, w) == None;
    }
  }

  lemma IdentityRound(f: Forest, g: Forest, h: Forest, root: nat, ranges: seq<Range>, n: nat)
    requires n < |ranges| && WF(h) && IdentityUpTo(f, g, root, ranges, n)
    requires forall i :: 0 <= i < |ranges| ==> Proper(ranges[i])
    requires forall i, j :: 0 <= i < j < |ranges| ==> Beside(ranges[i], ranges[j])
    requires Extends(g, h, root, Start(ranges[n]), End(ranges[n]))
    requires Ranged(h, root, Start(ranges[n]), End(ranges[n]), ranges[n].from, 2)
    requires Translated(g, h, root, Start(ranges[n]), End(ranges[n]))
    requires Flagged(g, h, root, Start(ranges[n]), End(ranges[n]), ranges[n].bits)
    ensures IdentityUpTo(f, h, root, ranges, n + 1)
  {
    forall j | n + 1 <= j < |ranges|
      ensures Start(ranges[j]) <= End(ranges[j]) && Room(h, root, Start(ranges[j]), End(ranges[j]), 2)
    {
      assert Beside(ranges[n], ranges[j]);
      RangeEnds(ranges[j]);
      RoomStays(g, h, root, Start(ranges[n]), End(ranges[n]), Start(ranges[j]), End(ranges[j]), 2);
    }
    IdentityStep(g, h, root, ranges, n);
    FlagsStep(f, g, h, root, ranges, n);
  }

  // A range that is mapped to itself is congruent with itself at every level.
  lemma IdentityStep(f: Forest, g: Forest, root: nat, ranges: seq<Range>, n: nat)
    requires n < |ranges| && Proper(ranges[n])
    requires Ranged(g, root, Start(ranges[n]), End(ranges[n]), ranges[n].from, 2)
    requires Translated(f, g, root, Start(ranges[n]), End(ranges[n]))
    requires forall w: nat {:trigger Translate(f.leaves, root, w)} :: w < LIMIT ==>
               Translate(f.leaves, root, w) == if exists i :: 0 <= i < n && Within(w, ranges[i]) then w else 0
    ensures forall w: nat {:trigger Translate(g.leaves, root, w)} :: w < LIMIT ==>
              Translate(g.leaves, root, w) == if exists i :: 0 <= i < n + 1 && Within(w, ranges[i]) then w else 0
  {
    var r := ranges[n];
    forall w: nat | w < LIMIT
      ensures Translate(g.leaves, root, w) == if exists i :: 0 <= i < n + 1 && Within(w, ranges[i]) then w else 0
    {
      if Within(w, r) {
        var t := Translate(g.leaves, root, w);
        var l := LevelAt(Start(r), End(r), w, 2);
        assert l <= 2 && Start(r) <= AlignDown(w, l);
        assert t == RangePhys(w, Start(r), r.from, l);
        ContiguousIf(w, r.from, r.from, l);
      } else {
        assert Translate(g.leaves, root, w) == Translate(f.leaves, root, w);
      }
    }
  }

  // Only the leaf is new, and tables above it.
  lemma OneLeafOnly(f: Forest, g: Forest, root: nat, v: nat, paddr: nat, bits: Flags, level: nat)
    requires level <= 2 && Aligned(v, level) && v + LevelSize(level) <= LIMIT
    requires g.leaves == f.leaves[Key(root, v, level) := Entry(true, bits, paddr / PAGE)]
    requires forall l :: l in f.at ==> l in g.at && g.at[l] == f.at[l]
    requires forall l :: l in g.at && l !in f.at ==> exists j: nat :: level < j <= 2 && l == Key(root, v, j)
    ensures Extends(f, g, root, v, v + LevelSize(level))
  {
    var size := LevelSize(level);
    forall w: nat, l: nat | l <= 2 && w < LIMIT && Written(f, g, Key(root, w, l))
      ensures v <= AlignDown(w, l) && AlignDown(w, l) + LevelSize(l) <= v + size
    {
      assert |Key(root, w, l).path| == 3 - l && |Key(root, v, level).path| == 3 - level;
      SameKey(root, v, w, level);
    }
    forall w: nat, l: nat | 1 <= l <= 2 && w < LIMIT && Key(root, w, l) in g.at && Key(root, w, l) !in f.at
      ensures AlignDown(w, l) < v + size && v < AlignDown(w, l) + LevelSize(l)
    {
      var j: nat :| level < j <= 2 && Key(root, w, l) == Key(root, v, j);
      assert |Key(root, w, l).path| == 3 - l && |Key(root, v, j).path| == 3 - j;
      SameKey(root, v, w, j);
    }
  }

  // The effect of one leaf.
  lemma OneLeafExtends(f: Forest, g: Forest, root: nat, v: nat, paddr: nat, bits: Flags, level: nat)
    requires level <= 2 && Aligned(v, level) && v + LevelSize(level) <= LIMIT && RoomAt(f, root, v, level)
    requires g.leaves == f.leaves[Key(root, v, level) := Entry(true, bits, paddr / PAGE)]
    requires forall l :: l in f.at ==> l in g.at && g.at[l] == f.at[l]
    requires forall l :: l in g.at && l !in f.at ==> exists j: nat :: level < j <= 2 && l == Key(root, v, j)
    ensures Extends(f, g, root, v, v + LevelSize(level))
    ensures Uniform(g, root, v, v + LevelSize(level), v, paddr, level)
    ensures Translated(f, g, root, v, v + LevelSize(level))
    ensures Flagged(f, g, root, v, v + LevelSize(level), bits)
  {
    var size := LevelSize(level);
    OneLeafFlags(f, g, root, v, paddr, bits, level);
    OneLeafOnly(f, g, root, v, paddr, bits, level);
    forall w: nat | v <= w < v + size
      ensures AlignDown(w, level) == v && Translate(g.leaves, root, w) == RangePhys(w, v, paddr, level)
    {
      AlignUnique(w, v, level);
      OneLeafTranslates(f.leaves, root, v, level, Entry(true, bits, paddr / PAGE), root, w);
      AlignPage(paddr, level);
    }
    forall r: nat, w: nat | w < LIMIT && (r != root || !(v <= w < v + size))
      ensures Translate(g.leaves, r, w) == Translate(f.leaves, r, w)
    {
      OneLeafTranslates(f.leaves, root, v, level, Entry(true, bits, paddr / PAGE), r, w);
    }
  }

  lemma OneLeafFlags(f: Forest, g: Forest, root: nat, v: nat, paddr: nat, bits: Flags, level: nat)
    requires level <= 2 && Aligned(v, level) && v + LevelSize(level) <= LIMIT && RoomAt(f, root, v, level)
    requires g.leaves == f.leaves[Key(root, v, level) := Entry(true, bits, paddr / PAGE)]
    ensures Flagged(f, g, root, v, v + LevelSize(level), bits)
  {
    forall r: nat, w: nat | w < LIMIT
      ensures FlagsAt(g.leaves, r, w)
           == if r == root && v <= w < v + LevelSize(level) then Some(bits) else FlagsAt(f.leaves, r, w)
    {
      OneLeafTranslates(f.leaves, root, v, level, Entry(true, bits, paddr / PAGE), r, w);
      if v <= w < v + LevelSize(level) {
        AlignUnique(w, v, level);
      }
    }
  }

  // It leaves room for leaves of its level, also in its own place.
  lemma OneLeafRoom(f: Forest, g: Forest, root: nat, from: nat, v: nat, to: nat, paddr: nat, bits: Flags, level: nat)
    requires level <= 2 && Aligned(from, level) && Aligned(v, level) && Aligned(to, level) && WF(g)
    requires from <= v && v + LevelSize(level) <= to <= LIMIT && RoomLevel(f, root, from, to, level)
    requires g.leaves == f.leaves[Key(root, v, level) := Entry(true, bits, paddr / PAGE)]
    requires Extends(f, g, root, v, v + LevelSize(level))
    ensures RoomLevel(g, root, from, to, level)
  {
    var size := LevelSize(level);
    NextAligned(v, to, level);
    forall w: nat | from <= w < to ensures RoomAt(g, root, w, level) {
      assert RoomAt(f, root, w, level);
      if w < v {
        BelowAligned(v, w, level);
        RoomAtStays(f, g, root, v, v + size, w, level);
      } else if w >= v + size {
        InsideAligned(v + size, w, level);
        RoomAtStays(f, g, root, v, v + size, w, level);
      } else {
        OwnRoom(f, g, root, v, w, paddr, bits, level);
      }
    }
  }

  lemma OwnRoom(f: Forest, g: Forest, root: nat, v: nat, w: nat, paddr: nat, bits: Flags, level: nat)
    requires level <= 2 && Aligned(v, level) && v <= w < v + LevelSize(level) <= LIMIT && WF(g)
    requires RoomAt(f, root, w, level)
    requires g.leaves == f.leaves[Key(root, v, level) := Entry(true, bits, paddr / PAGE)]
    ensures RoomAt(g, root, w, level)
  {
    AlignUnique(w, v, level);
    SameKey(root, v, w, level);
    assert LocOk(g, Key(root, w, level));
    forall m: nat | level < m <= 2 ensures Key(root, w, m) !in g.leaves {
      assert |Key(root, w, m).path| == 3 - m && |Key(root, v, level).path| == 3 - level;
    }
  }

  // The table at `l` has a valid entry.
  ghost predicate HasValid(f: Forest, l: Loc) {
    exists j: nat :: j < ENTRIES && Get(f, Child(l, j)).v
  }

  // Tables are only taken away, and their frames given back.
  ghost predicate Shrunk(f: Forest, used: set<nat>, g: Forest, used': set<nat>) {
    && (forall t :: t in used' <==> t in used && !(t in f.tables && t !in g.tables))
    && (forall t :: t in g.tables ==> t in f.tables)
    && (forall l :: l in g.at ==> l in f.at && g.at[l] == f.at[l])
    && (forall l :: l in f.at && l !in g.at ==> f.at[l] !in used')
  }

  // The table `n` below the entry of level `i`: with a valid entry it stays, without one it can be pruned.
  lemma EmptyOrNot(f: Forest, used: set<nat>, root: nat, vaddr: nat, i: nat, t: nat, n: nat)
    requires WF(f) && 1 <= i <= 2 && f.tables.Keys <= used
    requires t in f.tables && t in f.place && f.place[t] == Loc(root, PathOf(vaddr)[..2 - i])
    requires n in f.tables && n in f.place && f.place[n] == Key(root, vaddr, i)
    ensures |f.tables[n]| == ENTRIES && Vpn(vaddr, i) < |f.tables[t]| && Key(root, vaddr, i) in f.at && n != t
    ensures (exists v: nat :: v < ENTRIES && f.tables[n][v].v) ==> HasValid(f, Key(root, vaddr, i))
    ensures (forall v: nat :: v < ENTRIES ==> !f.tables[n][v].v) ==>
              var g := Prune(f, t, Vpn(vaddr, i), n);
              && WF(g) && Shrunk(f, used, g, used - {n})
              && g.at == f.at - {Key(root, vaddr, i)} && g.place == f.place - {n}
  {
    TableIsFull(f, n);
    TableIsFull(f, t);
    var k := Key(root, vaddr, i);
    StepDown(root, vaddr, i);
    assert HomeOk(f, k) && TableOk(f, n) && LocOk(f, k);
    if v: nat :| v < ENTRIES && f.tables[n][v].v {
      assert Get(f, Child(k, v)).v;
    } else {
      PruneWF(f, t, Vpn(vaddr, i), n);
    }
  }

  lemma UnderInvalidKey(f: Forest, root: nat, vaddr: nat, i: nat)
    requires WF(f) && i <= 2 && !Get(f, Key(root, vaddr, i)).v
    ensures forall j: nat :: j <= i ==> Key(root, vaddr, j) !in f.leaves
  {
    forall j: nat | j <= i ensures Key(root, vaddr, j) !in f.leaves {
      assert PathOf(vaddr)[..3 - i] <= PathOf(vaddr)[..3 - j];
      UnderInvalid(f, Key(root, vaddr, i), Key(root, vaddr, j));
    }
  }

  // A table has a valid entry as long as another one hangs below it.
  lemma StillBranches(f: Forest, root: nat, vaddr: nat, i: nat)
    requires WF(f) && 1 <= i <= 2 && Key(root, vaddr, i) in f.at
    ensures forall m: nat :: i < m <= 2 ==> HasValid(f, Key(root, vaddr, m))
  {
    if i == 1 {
      StepDown(root, vaddr, 1);
      assert PathOf(vaddr)[..1] == Key(root, vaddr, 2).path;
      assert LocOk(f, Key(root, vaddr, 1));
      assert Get(f, Child(Key(root, vaddr, 2), Vpn(vaddr, 1))).v;
    }
  }

  // Tables are only added, and only in frames that were not in use.
  ghost predicate GrownTables(f: Forest, used: set<nat>, g: Forest, used': set<nat>) {
    && used <= used'
    && (forall t :: t in g.tables && t !in f.tables ==> t !in used)
    && (forall t :: t in f.tables ==> t in g.tables)
    && (forall l :: l in f.at ==> l in g.at && g.at[l] == f.at[l])
  }

  ghost predicate Grown(f: Forest, used: set<nat>, g: Forest, used': set<nat>) {
    GrownTables(f, used, g, used') && g.leaves == f.leaves
  }

  lemma PlantUntouched(f: Forest, frames: set<nat>)
    requires WF(f) && f.tables.Keys <= frames
    ensures forall r, p {:trigger Loc(r, p)} :: r !in frames ==> Loc(r, p) !in f.leaves && Loc(r, p) !in f.at
  {
    forall r, p | r !in frames ensures Loc(r, p) !in f.leaves && Loc(r, p) !in f.at {
      RootOfEverything(f, Loc(r, p));
    }
  }

  // Whatever hangs anywhere hangs below a root table.
  lemma RootOfEverything(f: Forest, l: Loc)
    requires WF(f)
    ensures l in f.leaves || l in f.at ==> Loc(l.root, []) in f.at && l.root in f.tables
    decreases |l.path|
  {
    assert LocOk(f, l) && HomeOk(f, l);
    if l.path != [] {
      RootOfEverything(f, Parent(l));
    }
  }

  lemma TableIsFull(f: Forest, t: nat)
    requires WF(f) && t in f.tables
    ensures |f.tables[t]| == ENTRIES && t in f.place
    ensures forall i: nat :: i < ENTRIES ==> Get(f, Child(f.place[t], i)) == f.tables[t][i]
  {
    assert TableOk(f, t) && HomeOk(f, f.place[t]);
  }

  lemma StepDown(root: nat, vaddr: nat, i: nat)
    requires i <= 2
    ensures Child(Loc(root, PathOf(vaddr)[..2 - i]), Vpn(vaddr, i)) == Key(root, vaddr, i)
  {
    assert PathOf(vaddr)[..2 - i] + [PathOf(vaddr)[2 - i]] == PathOf(vaddr)[..3 - i];
  }

  lemma KeysDiffer(root: nat, vaddr: nat, i: nat, j: nat)
    requires i <= 2 && j <= 2 && i != j
    ensures Key(root, vaddr, i) != Key(root, vaddr, j)
  {
    assert |Key(root, vaddr, i).path| == 3 - i && |Key(root, vaddr, j).path| == 3 - j;
  }
}
