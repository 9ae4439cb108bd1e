// kernel/src/memory/memspace.c: address spaces with copy-on-write, on the page tables of pagetable.c and the
// reference counts of pageref.c.
module MemSpace {
  import opened Basics
  import opened PageTableSpec
  import opened PageTable
  import opened CowSpec
  import opened CowCounts
  import PageRef
  import VirtPtrs
  import CopySpaces

  class MemorySpaces {
    const pt: PageMemory
    const refs: PageRef.PageRefTable
    const zero: nat
    var pages: map<nat, Page>
    // Frames that have been lost. No operation changes the set, so it says that they stay lost.
    ghost var lost: set<nat>

    ghost function Abs(): Sys
      requires |refs.keys| == |refs.values|
      reads this, pt, refs
    {
      Sys(zero, pt.forest.leaves, pages, refs.Map())
    }

    ghost predicate Valid()
      reads this, pt, refs
    {
      && pt.Valid() && refs.Valid() && refs.zeroPage == zero
      && Kept(Abs(), lost)
      && pages.Keys <= pt.frames && pages.Keys !! pt.tables.Keys
      && forall l {:trigger l in pt.forest.leaves} :: l in pt.forest.leaves ==> |l.path| == 3
    }

    // What the processes see.
    ghost function Seen(): Spaces
      requires |refs.keys| == |refs.values|
      reads this, pt, refs
    {
      View(Abs())
    }

    constructor (hash: nat -> nat)
      ensures Valid() && Seen() == map[] && fresh(pt) && fresh(refs)
    {
      var p := new PageMemory();
      var z := p.AllocPage();
      pt := p;
      zero := z;
      refs := new PageRef.PageRefTable(hash, z);
      pages := map[z := Zeros()];
      lost := {};
      new;
      EmptyInv(Abs());
    }

    // From here on it is all the frames that are lost now.
    method Observe()
      requires Valid()
      modifies this`lost
      ensures Valid() && forall f {:trigger Lost(Abs(), f)} :: f in lost <==> Lost(Abs(), f)
    {
      lost := set f | f in pages && Lost(Abs(), f);
    }

    // virtToEntry in a space without superpages.
    method Lookup(root: nat, vaddr: nat) returns (entry: Option<Slot>)
      requires Valid() && pt.IsRoot(root)
      ensures entry.Some? <==> Key(root, vaddr, 0) in pt.forest.leaves
      ensures entry.Some? ==> Points(entry.value.table, entry.value.index, Key(root, vaddr, 0))
    {
      OnlySmallPages(pt.forest.leaves, root, vaddr);
      entry := pt.VirtToEntry(root, vaddr);
      if entry.Some? {
        TableIsFull(pt.forest, entry.value.table);
        assert LocOk(pt.forest, Key(root, vaddr, 0));
      }
    }

    // The slot holds the leaf entry of place `l`.
    ghost predicate Points(t: nat, i: nat, l: Loc)
      reads pt
    {
      && t in pt.tables && i < |pt.tables[t]| && t in pt.forest.place && Child(pt.forest.place[t], i) == l
      && l in pt.forest.leaves && pt.tables[t][i] == pt.forest.leaves[l]
    }

    // handlePageFault: a private frame for a page that is marked COPY.
    method HandlePageFault(root: nat, vaddr: nat) returns (ok: bool)
      requires Valid() && pt.IsRoot(root)
      modifies this`pages, pt
      ensures Valid() && pt.forest.at == old(pt.forest.at)
      ensures Seen() == old(Seen())
      ensures ok <==>
                Key(root, vaddr, 0) in old(pt.forest.leaves) && old(pt.forest.leaves)[Key(root, vaddr, 0)].flags.copy
      ensures ok ==> var l := Key(root, vaddr, 0);
        l in pt.forest.leaves
        && pt.forest.leaves[l].flags == old(pt.forest.leaves)[l].flags.(write := true, copy := false)
      ensures !ok ==> pt.forest == old(pt.forest) && pages == old(pages)
    {
      var entry := Lookup(root, vaddr);
      if entry.Some? && pt.tables[entry.value.table][entry.value.index].flags.copy {
        MakePrivate(entry.value.table, entry.value.index, Key(root, vaddr, 0));
        return true;
      } else {
        return false;
      }
    }

    // The body of handlePageFault for a copy-on-write page.
    method MakePrivate(t: nat, i: nat, ghost l: Loc)
      requires Valid() && Points(t, i, l) && pt.tables[t][i].flags.copy
      modifies this`pages, pt
      ensures Valid() && pt.forest.at == old(pt.forest.at) && pt.forest.leaves.Keys == old(pt.forest.leaves.Keys)
      ensures Seen() == old(Seen())
      ensures l in pt.forest.leaves
              && pt.forest.leaves[l].flags == old(pt.tables[t][i]).flags.(write := true, copy := false)
    {
      var e := pt.tables[t][i];
      assert LeafOk(Abs(), l) && FrameOk(Abs(), e.frame);
      var shared := e.frame == zero;
      if !shared {
        shared := refs.HasOtherReferences(e.frame);
      }
      if shared {
        MoveToNewFrame(t, i, l, if e.frame == zero then Zeros() else pages[e.frame]);
      } else {
        // If we have no other reference, we can reuse the current page
        ghost var s := Abs();
        FaultKeeps(s, l, 0);
        FaultKept(s, l, 0, lost);
        WriteEntry(t, i, Writable(e), l, Fault(s, l, 0));
      }
    }

    // A fault that needs a new frame: a zeroed one for the zero page, otherwise a copy.
    method MoveToNewFrame(t: nat, i: nat, ghost l: Loc, bytes: Page)
      requires Valid() && Points(t, i, l) && pt.tables[t][i].flags.copy
      requires var f := pt.tables[t][i].frame; f == zero || Count(Abs().refs, f) > 1
      requires bytes == Bytes(Abs(), pt.tables[t][i].frame)
      modifies this`pages, pt
      ensures Valid() && pt.forest.at == old(pt.forest.at) && pt.forest.leaves.Keys == old(pt.forest.leaves.Keys)
      ensures Seen() == old(Seen())
      ensures l in pt.forest.leaves
              && pt.forest.leaves[l].flags == old(pt.tables[t][i]).flags.(write := true, copy := false)
    {
      ghost var s := Abs();
      var e := pt.tables[t][i];
      assert LeafOk(s, l);
      var page := pt.AllocPage();
      FaultKeeps(s, l, page);
      FaultKept(s, l, page, lost);
      UnmappedPage(s, page, bytes);
      pages := pages[page := bytes];
      WriteEntry(t, i, Writable(e).(frame := page), l, Fault(s, l, page));
    }

    // A store of a leaf entry, after the pages and counts have been brought up to date: the new state is `goal`.
    method WriteEntry(t: nat, i: nat, e: Entry, ghost l: Loc, ghost goal: Sys)
      requires Ready() && Kept(goal, lost) && Points(t, i, l)
      requires e.v && IsLeaf(e) && IsLeaf(pt.tables[t][i])
      requires goal == Sys(zero, pt.forest.leaves[l := e], pages, refs.Map())
      modifies pt`tables, pt`forest
      ensures Valid() && Abs() == goal && pt.forest.at == old(pt.forest.at) && pt.forest.place == old(pt.forest.place)
      ensures pt.tables.Keys == old(pt.tables.Keys)
    {
      pt.WriteLeaf(t, i, e, l);
    }

    // Valid() without what concerns the leaf entries and the pages together.
    ghost predicate Ready()
      reads this, pt, refs
    {
      && pt.Valid() && refs.Valid() && refs.zeroPage == zero
      && pages.Keys <= pt.frames && pages.Keys !! pt.tables.Keys
      && forall l {:trigger l in pt.forest.leaves} :: l in pt.forest.leaves ==> |l.path| == 3
    }

    // freePageEntryData: what the removal of the leaf entry at `l` does to pages and counts.
    method FreePageEntryData(e: Entry, ghost l: Loc)
      requires Valid() && l in pt.forest.leaves && pt.forest.leaves[l] == e
      modifies this`pages, pt`frames, refs
      ensures Ready() && pages == Free(old(Abs()), l).pages && refs.Map() == Free(old(Abs()), l).refs
    {
      FreeCases(Abs(), l);
      assert LeafOk(Abs(), l);
      assert e.frame in pages && e.frame !in pt.tables;
      if !e.flags.global {
        if e.frame != zero {
          DropFrame(e.frame);
        }
      }
    }

    // A mapping of the frame is gone.
    method DropFrame(frame: nat)
      requires Ready() && frame != zero && frame !in pt.tables
      modifies this`pages, pt`frames, refs
      ensures Ready()
      ensures frame in old(refs.Map()) ==> pages == old(pages) && refs.Map() == RemoveRef(old(refs.Map()), frame)
      ensures frame !in old(refs.Map()) ==> pages == old(pages) - {frame} && refs.Map() == old(refs.Map())
    {
      var shared := refs.HasOtherReferences(frame);
      if !shared {
        // If we have no other table using this page, deallocate it
        DeallocFrame(frame);
      } else {
        LowerCount(frame);
      }
    }

    method LowerCount(frame: nat)
      requires Ready() && frame in refs.Map()
      modifies refs
      ensures Ready() && refs.Map() == RemoveRef(old(refs.Map()), frame)
    {
      refs.RemoveReferenceFor(frame);
    }

    method DeallocFrame(frame: nat)
      requires Ready() && frame !in pt.tables
      modifies this`pages, pt`frames
      ensures Ready() && pages == old(pages) - {frame}
    {
      pt.DeallocPage(frame);
      pages := pages - {frame};
    }

    // Clearing the entry after its data have been freed: the new state is `goal`.
    method ClearEntry(t: nat, i: nat, e: Entry, ghost l: Loc, ghost goal: Sys)
      requires Ready() && Kept(goal, lost) && !e.v
      requires t in pt.tables && i < |pt.tables[t]| && t in pt.forest.place && Child(pt.forest.place[t], i) == l
      requires pt.tables[t][i].v ==> IsLeaf(pt.tables[t][i])
      requires goal == Sys(zero, pt.forest.leaves - {l}, pages, refs.Map())
      modifies pt`tables, pt`forest
      ensures Valid() && Abs() == goal && pt.forest.at == old(pt.forest.at) && pt.forest.place == old(pt.forest.place)
    {
      pt.WriteInvalid(t, i, e, l);
    }

    // Both together, for a valid leaf entry.
    method FreeEntry(t: nat, i: nat, e: Entry, ghost l: Loc)
      requires Valid() && Points(t, i, l) && !e.v
      modifies this`pages, pt, refs
      ensures Valid() && Abs() == Free(old(Abs()), l) && Seen() == old(Seen()) - {l}
      ensures pt.forest.at == old(pt.forest.at) && pt.forest.place == old(pt.forest.place)
    {
      ghost var s := Abs();
      FreeKeeps(s, l);
      FreeKept(s, l, lost);
      assert LeafOk(s, l);
      FreePageEntryData(pt.tables[t][i], l);
      ClearEntry(t, i, e, l, Free(s, l));
    }

    method UnmapAndFreePage(root: nat, vaddr: nat)
      requires Valid() && pt.IsRoot(root)
      modifies this`pages, pt, refs
      ensures Valid() && Seen() == old(Seen()) - {Key(root, vaddr, 0)}
      ensures pt.forest.at == old(pt.forest.at)
    {
      var entry := Lookup(root, vaddr);
      if entry.Some? {
        var t, i := entry.value.table, entry.value.index;
        // Only the valid bit is cleared.
        FreeEntry(t, i, pt.tables[t][i].(v := false), Key(root, vaddr, 0));
      }
    }

    // freePagesInTable: all entries of the table `t`, and everything below them.
    method FreePagesInTable(t: nat, level: nat, ghost r: Loc)
      requires Valid() && level <= 2 && |r.path| == 2 - level && r in pt.forest.at && pt.forest.at[r] == t
      modifies this`pages, pt, refs
      ensures Valid() && Seen() == Without(old(Seen()), r, ENTRIES)
      ensures AtWithout(old(pt.forest.at), pt.forest.at, r, ENTRIES)
      decreases level, 4
    {
      FreedNone(pt.forest, Seen(), r);
      FreeEntries(t, level, r, Seen(), pt.forest.at);
    }

    method FreeEntries(t: nat, level: nat, ghost r: Loc, ghost was: Spaces, ghost wasAt: map<Loc, nat>)
      requires Valid() && level <= 2 && |r.path| == 2 - level && r in wasAt && wasAt[r] == t
      requires FreedUpTo(was, wasAt, pt.forest, Seen(), r, 0)
      modifies this`pages, pt, refs
      ensures Valid() && FreedUpTo(was, wasAt, pt.forest, Seen(), r, ENTRIES)
      decreases level, 3
    {
      for i := 0 to ENTRIES
        invariant Valid() && FreedUpTo(was, wasAt, pt.forest, Seen(), r, i)
      {
        FreeNextEntry(t, i, level, r, was, wasAt);
      }
    }

    // One round of the loop above, in terms of what has been freed since the loop began.
    method FreeNextEntry(t: nat, i: nat, level: nat, ghost r: Loc, ghost was: Spaces, ghost wasAt: map<Loc, nat>)
      requires Valid() && level <= 2 && |r.path| == 2 - level && r in wasAt && wasAt[r] == t && i < ENTRIES
      requires FreedUpTo(was, wasAt, pt.forest, Seen(), r, i)
      modifies this`pages, pt, refs
      ensures Valid() && FreedUpTo(was, wasAt, pt.forest, Seen(), r, i + 1)
      decreases level, 2
    {
      FreeStep(pt.forest, was, Seen(), r, i);
      FreeStepAt(pt.forest, wasAt, r, i);
      FreeOneEntry(t, i, level, r);
    }

    // One round of the loop above.
    method FreeOneEntry(t: nat, i: nat, level: nat, ghost r: Loc)
      requires Valid() && level <= 2 && |r.path| == 2 - level && r in pt.forest.at && pt.forest.at[r] == t
               && i < ENTRIES
      modifies this`pages, pt, refs
      ensures Valid()
      ensures Seen() == EntryFreed(old(pt.forest), old(Seen()), Child(r, i))
      ensures AtFreed(old(pt.forest), pt.forest.at, Child(r, i))
      decreases level, 1
    {
      assert HomeOk(pt.forest, r);
      TableIsFull(pt.forest, t);
      ghost var c := Child(r, i);
      assert LocOk(pt.forest, c) && HomeOk(pt.forest, c);
      var e := pt.tables[t][i];
      if e.v {
        if !IsLeaf(e) {
          FreeBranch(t, i, e.frame, level, r);
        } else {
          FreeEntry(t, i, EMPTY, c);
        }
      } else {
        ClearEntry(t, i, EMPTY, c, Abs());
      }
    }

    // An entry that leads to the table `n`.
    method FreeBranch(t: nat, i: nat, n: nat, level: nat, ghost r: Loc)
      requires Valid() && 1 <= level <= 2 && |r.path| == 2 - level && r in pt.forest.at && pt.forest.at[r] == t
               && i < ENTRIES
      requires Child(r, i) in pt.forest.at && pt.forest.at[Child(r, i)] == n
      modifies this`pages, pt, refs
      ensures Valid() && Seen() == Without(old(Seen()), Child(r, i), ENTRIES)
      ensures forall l :: l in pt.forest.at <==>
                l in old(pt.forest.at) && !Under(l, Child(r, i), ENTRIES) && l != Child(r, i)
      ensures forall l :: l in pt.forest.at ==> pt.forest.at[l] == old(pt.forest.at[l])
      decreases level, 0
    {
      ghost var was, wasAt, c := Seen(), pt.forest.at, Child(r, i);
      FreePagesInTable(n, level - 1, c);
      GoneBelow(was, wasAt, pt.forest, Seen(), c);
      DropEmptyTable(t, i, n, r);
    }

    // deallocPage of a table whose entries are all zero, and the end of the branch to it.
    method DropEmptyTable(t: nat, i: nat, n: nat, ghost r: Loc)
      requires Valid() && r in pt.forest.at && pt.forest.at[r] == t && i < ENTRIES
      requires Child(r, i) in pt.forest.at && pt.forest.at[Child(r, i)] == n
      requires forall l :: Under(l, Child(r, i), ENTRIES) ==> l !in pt.forest.at && l !in pt.forest.leaves
      modifies pt
      ensures Valid() && Seen() == old(Seen()) && pt.forest.at == old(pt.forest.at) - {Child(r, i)}
    {
      EmptyTable(pt.forest, t, i, n, r);
      pt.DropTable(t, i, n);
    }

    // freeMemorySpace: the space stays, with nothing in it.
    method FreeMemorySpace(root: nat)
      requires Valid() && pt.IsRoot(root)
      modifies this`pages, pt, refs
      ensures Valid() && Seen() == EagerFree(old(Seen()), root)
      ensures forall l :: l in pt.forest.at <==> l in old(pt.forest.at) && (l.root == root ==> l.path == [])
      ensures forall l: Loc :: l.root == root ==> l !in pt.forest.leaves
    {
      ghost var r, f := Loc(root, []), pt.forest;
      assert HomeOk(f, r);
      WholeSpace(f, root);
      ghost var was, wasAt := Seen(), pt.forest.at;
      FreePagesInTable(root, 2, r);
      SpaceGone(f, was, pt.forest, Seen(), root);
    }

    method DeallocMemorySpace(root: nat)
      requires Valid() && pt.IsRoot(root)
      modifies this`pages, pt, refs
      ensures Valid() && Seen() == EagerFree(old(Seen()), root)
      ensures forall l :: l in pt.forest.at <==> l in old(pt.forest.at) && l.root != root
    {
      FreeMemorySpace(root);
      ghost var s := Abs();
      assert root in pt.tables by {
        assert HomeOk(pt.forest, Loc(root, []));
      }
      pt.DropRoot(root);
      assert Abs() == s;
    }

    method CreateMemorySpace() returns (root: nat)
      requires Valid()
      modifies pt
      ensures Valid() && pt.IsRoot(root) && Seen() == old(Seen())
      ensures forall p :: Loc(root, p) !in pt.forest.leaves && Loc(root, p) !in old(pt.forest.at)
      ensures pt.forest.at == old(pt.forest.at)[Loc(root, []) := root]
      ensures forall p :: Loc(root, p) !in old(Seen())
    {
      root := pt.CreateRoot();
    }

    // copyMemoryPageEntry, after the entry of `src` at `l` has been copied to `dest` at `d`.
    method CopyMemoryPageEntry(dest: nat, src: nat, i: nat, ghost l: Loc, ghost d: Loc, ghost s: Sys)
      requires Ready() && Kept(s, lost) && l in s.leaves && d !in s.leaves && dest != src && |l.path| == 3
      requires Points(src, i, l) && Points(dest, i, d)
      requires s.(leaves := s.leaves[d := s.leaves[l]]) == Abs()
      modifies pt`tables, pt`forest, refs
      ensures Valid() && Abs() == Share(s, l, d)
      ensures pt.forest.at == old(pt.forest.at) && pt.forest.place == old(pt.forest.place)
    {
      ShareKept(s, l, d, lost);
      var e := pt.tables[src][i];
      assert LeafOk(s, l);
      if !e.flags.global {
        if e.frame != zero {
          CountAndProtect(dest, src, i, e, l, d, s);
        }
      }
    }

    method CountAndProtect(dest: nat, src: nat, i: nat, e: Entry, ghost l: Loc, ghost d: Loc, ghost s: Sys)
      requires Ready() && Kept(s, lost) && l in s.leaves && d !in s.leaves && dest != src && e.frame != zero
      requires Points(src, i, l) && Points(dest, i, d) && pt.tables[src][i] == e
      requires s.(leaves := s.leaves[d := s.leaves[l]]) == Abs()
      modifies pt`tables, pt`forest, refs
      ensures Valid() && Abs() == Share(s, l, d)
      ensures pt.forest.at == old(pt.forest.at) && pt.forest.place == old(pt.forest.place)
    {
      ShareKept(s, l, d, lost);
      assert LeafOk(s, l) && FrameOk(s, e.frame);
      refs.AddReferenceFor(e.frame);
      ShareGoal(s, l, d);
      ProtectBoth(dest, src, i, e, l, d, Share(s, l, d));
    }

    // If this page can be written, we also have to set the copy-on-write flag in both entries.
    method ProtectBoth(dest: nat, src: nat, i: nat, e: Entry, ghost l: Loc, ghost d: Loc, ghost goal: Sys)
      requires Ready() && Kept(goal, lost) && dest != src && l != d && Durable(e) && e.v
      requires Points(src, i, l) && Points(dest, i, d) && pt.tables[src][i] == e && pt.tables[dest][i] == e
      requires goal == Sys(zero, pt.forest.leaves[l := Protected(e)][d := Protected(e)], pages, refs.Map())
      modifies pt`tables, pt`forest
      ensures Valid() && Abs() == goal
      ensures pt.forest.at == old(pt.forest.at) && pt.forest.place == old(pt.forest.place)
    {
      if e.flags.write {
        pt.WriteLeaf(src, i, Protected(e), l);
        pt.WriteLeaf(dest, i, Protected(e), d);
      } else {
        assert pt.forest.leaves[l := Protected(e)][d := Protected(e)] == pt.forest.leaves;
      }
    }

    // One leaf entry of the loop of copyAllPagesAndAllocUsers.
    method ShareEntry(dest: nat, src: nat, i: nat, ghost l: Loc, ghost d: Loc)
      requires Valid() && Points(src, i, l) && dest != src
      requires dest in pt.tables && i < |pt.tables[dest]| && dest in pt.forest.place
               && Child(pt.forest.place[dest], i) == d
      requires !pt.tables[dest][i].v && |d.path| == 3 && d !in pt.forest.leaves
      modifies pt`tables, pt`forest, refs
      ensures Valid() && Seen() == old(Seen())[d := old(Seen())[l]]
      ensures pt.forest.at == old(pt.forest.at) && pt.forest.place == old(pt.forest.place)
    {
      ghost var s := Abs();
      ShareKeeps(s, l, d);
      assert LeafOk(s, l);
      pt.WriteLeaf(dest, i, pt.tables[src][i], d);
      CopyMemoryPageEntry(dest, src, i, l, d, s);
    }

    // copyAllPagesAndAllocUsers: everything below the table at `r` again below the table at `d`.
    method CopyAllPagesAndAllocUsers(dest: nat, src: nat, level: nat, ghost d: Loc, ghost r: Loc)
      requires Valid() && level <= 2 && |r.path| == 2 - level && d.path == r.path && d.root != r.root
      requires r in pt.forest.at && pt.forest.at[r] == src && d in pt.forest.at && pt.forest.at[d] == dest
      requires Vacant(pt.forest, d, 0)
      modifies this`pages, pt, refs
      ensures Valid() && Seen() == Copied(old(Seen()), r, d, ENTRIES)
      ensures AtGrown(old(pt.forest.at), pt.forest.at, d, ENTRIES)
      decreases level, 4
    {
      CopiedNone(Seen(), r, d);
      CopyEntries(dest, src, level, d, r, Seen(), pt.forest.at);
    }

    method CopyEntries(dest: nat, src: nat, level: nat, ghost d: Loc, ghost r: Loc,
                       ghost was: Spaces, ghost wasAt: map<Loc, nat>)
      requires Valid() && level <= 2 && |r.path| == 2 - level && d.path == r.path && d.root != r.root
      requires r in wasAt && wasAt[r] == src && d in wasAt && wasAt[d] == dest
      requires Progress(was, wasAt, pt.forest, Seen(), r, d, 0)
      modifies this`pages, pt, refs
      ensures Valid() && Progress(was, wasAt, pt.forest, Seen(), r, d, ENTRIES)
      decreases level, 3
    {
      for i := 0 to ENTRIES
        invariant Valid() && Progress(was, wasAt, pt.forest, Seen(), r, d, i)
      {
        CopyNextEntry(dest, src, i, level, d, r, was, wasAt);
      }
    }

    // One round of the loop above, in terms of what has been copied since the loop began.
    method CopyNextEntry(dest: nat, src: nat, i: nat, level: nat, ghost d: Loc, ghost r: Loc,
                         ghost was: Spaces, ghost wasAt: map<Loc, nat>)
      requires Valid() && level <= 2 && |r.path| == 2 - level && d.path == r.path && d.root != r.root && i < ENTRIES
      requires r in wasAt && wasAt[r] == src && d in wasAt && wasAt[d] == dest
      requires Progress(was, wasAt, pt.forest, Seen(), r, d, i)
      modifies this`pages, pt, refs
      ensures Valid() && Progress(was, wasAt, pt.forest, Seen(), r, d, i + 1)
      decreases level, 2
    {
      ghost var f, v := pt.forest, Seen();
      StillThere(was, wasAt, f, v, r, d, i);
      CopyRounds(f, was, v, wasAt, r, d, i, i + 1);
      CopyThatEntry(dest, src, i, level, d, r);
    }

    method CopyThatEntry(dest: nat, src: nat, i: nat, level: nat, ghost d: Loc, ghost r: Loc)
      requires Valid() && level <= 2 && CanCopy(pt.forest, dest, src, i, level, d, r)
      modifies this`pages, pt, refs
      ensures Valid() && CopiedOne(old(pt.forest), old(Seen()), pt.forest, Seen(), r, d, i)
      decreases level, 1
    {
      CopyOneEntry(dest, src, i, level, d, r);
    }

    // One round of the loop above. The original stores the address of the new table after it has been filled;
    // here it is stored before, so that the half-filled table already hangs where it belongs.
    method CopyOneEntry(dest: nat, src: nat, i: nat, level: nat, ghost d: Loc, ghost r: Loc)
      requires Valid() && level <= 2 && CanCopy(pt.forest, dest, src, i, level, d, r)
      modifies this`pages, pt, refs
      ensures Valid() && Seen() == EntryCopied(old(pt.forest), old(Seen()), Child(r, i), Child(d, i))
      ensures AtGrownBy(old(pt.forest.at), pt.forest.at, Child(d, i))
      decreases level, 0
    {
      ghost var cs, cd := Child(r, i), Child(d, i);
      BothSlots(pt.forest, d, r, dest, src, i);
      ghost var f := pt.forest;
      var e := pt.tables[src][i];
      if e.v {
        if !IsLeaf(e) {
          CopyBranch(dest, e, i, level, cd, cs, d);
        } else {
          ShareEntry(dest, src, i, cs, cd);
        }
      } else {
        ClearEntry(dest, i, e, cd, Abs());
      }
    }

    method CopyBranch(dest: nat, e: Entry, i: nat, level: nat, ghost cd: Loc, ghost cs: Loc, ghost d: Loc)
      requires Valid() && 1 <= level <= 2 && |cs.path| == 3 - level && cd.path == cs.path && cd.root != cs.root
      requires cs in pt.forest.at && pt.forest.at[cs] == e.frame && e.v && !IsLeaf(e)
      requires dest in pt.tables && i < |pt.tables[dest]| && i < ENTRIES && dest in pt.forest.place
               && pt.forest.place[dest] == d
      requires cd == Child(d, i) && !pt.tables[dest][i].v && Vacant(pt.forest, d, i)
      modifies this`pages, pt, refs
      ensures Valid() && Seen() == Copied(old(Seen()), cs, cd, ENTRIES)
      ensures AtGrownBy(old(pt.forest.at), pt.forest.at, cd)
      decreases level - 1, 5
    {
      ghost var wasAt := pt.forest.at;
      var table := HangCopy(dest, e, i, cd, d);
      CopyAllPagesAndAllocUsers(table, e.frame, level - 1, cd, cs);
    }

    method HangCopy(dest: nat, e: Entry, i: nat, ghost cd: Loc, ghost d: Loc) returns (table: nat)
      requires Valid() && |d.path| < 2 && e.v && !IsLeaf(e)
      requires dest in pt.tables && i < |pt.tables[dest]| && i < ENTRIES && dest in pt.forest.place
               && pt.forest.place[dest] == d
      requires cd == Child(d, i) && !pt.tables[dest][i].v && Vacant(pt.forest, d, i)
      modifies pt
      ensures Valid() && Seen() == old(Seen()) && cd !in old(pt.forest.at)
      ensures pt.forest.at == old(pt.forest.at)[cd := table] && Vacant(pt.forest, cd, 0)
    {
      ghost var f, s := pt.forest, Abs();
      table := pt.HangTable(dest, i, e.flags, cd);
      StillVacant(f, pt.forest, d, i);
      assert Abs() == s;
    }

    method CloneMemorySpace(mem: nat) returns (space: nat)
      requires Valid() && pt.IsRoot(mem)
      modifies this`pages, pt, refs
      ensures Valid() && pt.IsRoot(space) && Loc(space, []) !in old(pt.forest.at)
      ensures Seen() == EagerClone(old(Seen()), mem, space)
      ensures forall l :: l in old(pt.forest.at) ==> l in pt.forest.at
      ensures forall p :: Loc(space, p) !in old(pt.forest.leaves) && Loc(space, p) !in old(Seen())
    {
      ghost var f := pt.forest;
      space := CreateMemorySpace();
      assert HomeOk(f, Loc(mem, [])) && HomeOk(pt.forest, Loc(mem, []));
      WholeSpace(f, mem);
      ghost var was := Seen();
      CopyAllPagesAndAllocUsers(space, mem, 2, Loc(space, []), Loc(mem, []));
      CloneIsCopy(f, was, mem, space);
    }

    // allocPage and mapPage, as the loader maps a page that holds data.
    method MapFreshPage(root: nat, vaddr: nat, bits: Flags, bytes: Page)
      requires Valid() && pt.IsRoot(root) && Durable(Entry(true, bits, 0)) && !bits.global
      modifies this`pages, pt
      ensures Valid() && GrownRoots(old(pt.forest.at), pt.forest.at)
      ensures Seen() == old(Seen())[Key(root, vaddr, 0) := See(Entry(true, bits, 0), bytes)]
      ensures Key(root, vaddr, 0) in pt.forest.leaves
      ensures var f := pt.forest.leaves[Key(root, vaddr, 0)].frame;
              f in pages && pages[f] == bytes
              && pt.forest.leaves == old(pt.forest.leaves)[Key(root, vaddr, 0) := Entry(true, bits, f)]
    {
      ghost var s, l := Abs(), Key(root, vaddr, 0);
      var page := pt.AllocPage();
      MapFreshKeeps(s, l, Entry(true, bits, page), bytes);
      MapFreshKept(s, l, Entry(true, bits, page), bytes, lost);
      pages := pages[page := bytes];
      MapAtLevel0(root, vaddr, page, bits);
      assert Abs() == MapFresh(s, l, Entry(true, bits, page), bytes);
    }

    // mapPage of the zero page, as sbrk and the loader do.
    method MapZeroPage(root: nat, vaddr: nat, bits: Flags)
      requires Valid() && pt.IsRoot(root) && Durable(Entry(true, bits, 0)) && !bits.global && !bits.write
      modifies this`pages, pt
      ensures Valid() && GrownRoots(old(pt.forest.at), pt.forest.at)
      ensures Seen() == old(Seen())[Key(root, vaddr, 0) := See(Entry(true, bits, 0), Zeros())]
      ensures pt.forest.leaves == old(pt.forest.leaves)[Key(root, vaddr, 0) := Entry(true, bits, zero)]
    {
      ghost var s, l := Abs(), Key(root, vaddr, 0);
      MapZeroKeeps(s, l, Entry(true, bits, zero));
      MapZeroKept(s, l, Entry(true, bits, zero), lost);
      MapAtLevel0(root, vaddr, zero, bits);
      assert Abs() == MapZero(s, l, Entry(true, bits, zero));
    }

    method MapAtLevel0(root: nat, vaddr: nat, frame: nat, bits: Flags)
      requires Ready() && pt.IsRoot(root) && Durable(Entry(true, bits, 0))
      modifies pt
      ensures Ready() && GrownRoots(old(pt.forest.at), pt.forest.at)
      ensures pt.forest.leaves == old(pt.forest.leaves)[Key(root, vaddr, 0) := Entry(true, bits, frame)]
    {
      assert |Key(root, vaddr, 2).path| == 1 && |Key(root, vaddr, 1).path| == 2 && |Key(root, vaddr, 0).path| == 3;
      assert HomeOk(pt.forest, Key(root, vaddr, 0));
      assert frame * PAGE / PAGE == frame;
      var _ := pt.MapPage(root, vaddr, frame * PAGE, bits, 0);
    }

    // virtToPhys. It is the translation that buffers are divided by, except that it returns the start of the page
    // when it has resolved a fault.
    method VirtToPhys(root: nat, vaddr: nat, write: bool, allowAll: bool) returns (paddr: nat)
      requires Valid() && pt.IsRoot(root)
      modifies this`pages, pt
      ensures Valid() && pt.forest.at == old(pt.forest.at) && Seen() == old(Seen())
      ensures !old(Faults(root, vaddr, write)) ==>
                pt.forest == old(pt.forest) && paddr == PhysOf(pt.forest.leaves, root, vaddr, write, allowAll)
      ensures old(Faults(root, vaddr, write)) ==>
                paddr + vaddr % PAGE == PhysOf(pt.forest.leaves, root, vaddr, write, allowAll)
      ensures var l, was, now := Key(root, vaddr, 0), old(pt.forest.leaves), pt.forest.leaves;
        if l !in was then paddr == 0
        else if !write then
          paddr == if was[l].flags.read || allowAll then was[l].frame * PAGE + vaddr % PAGE else 0
        else if was[l].flags.write then paddr == was[l].frame * PAGE + vaddr % PAGE
        else if was[l].flags.copy then
          && l in now && paddr == now[l].frame * PAGE
          && now[l].flags == was[l].flags.(write := true, copy := false)
        else paddr == if allowAll then was[l].frame * PAGE + vaddr % PAGE else 0
    {
      var entry := Lookup(root, vaddr);
      OnlySmallPages(pt.forest.leaves, root, vaddr);
      if entry == None {
        return 0;
      }
      var flags := pt.tables[entry.value.table][entry.value.index].flags;
      if write && !flags.write && flags.copy {
        paddr := FaultedPhys(root, vaddr, allowAll);
      } else if allowAll || (if write then flags.write else flags.read) {
        SmallPagePhys(pt.tables[entry.value.table][entry.value.index], vaddr);
        paddr := pt.UnsafeVirtToPhys(root, vaddr);
      } else {
        paddr := 0;
      }
    }

    // The first translation of a buffer that is written, and what it falls short by.
    method FirstTranslation(root: nat, address: nat) returns (paddr: nat, ghost short: nat)
      requires Valid() && pt.IsRoot(root)
      modifies this`pages, pt
      ensures Valid() && Seen() == old(Seen())
      ensures short == if old(Faults(root, address, true)) then address % PAGE else 0
      ensures var p := CopySpaces.Ptr(Abs(), root, address);
        VirtPtrs.Short(p, true, short) && paddr + short == VirtPtrs.Phys(p, address, true)
    {
      short := if Faults(root, address, true) then address % PAGE else 0;
      paddr := VirtToPhys(root, address, true, false);
      SmallSpaces();
      CopySpaces.ShortOf(Abs(), root, address, paddr, short);
    }

    // What copies between spaces ask for.
    lemma SmallSpaces()
      requires Valid()
      ensures Inv(Abs()) && CopySpaces.SmallPages(Abs())
    {
    }

    // The branch of virtToPhys for a page that waits for its copy.
    method FaultedPhys(root: nat, vaddr: nat, ghost allowAll: bool) returns (paddr: nat)
      requires Valid() && pt.IsRoot(root) && Faults(root, vaddr, true)
      modifies this`pages, pt
      ensures Valid() && pt.forest.at == old(pt.forest.at) && Seen() == old(Seen())
      ensures paddr + vaddr % PAGE == PhysOf(pt.forest.leaves, root, vaddr, true, allowAll)
      ensures var l := Key(root, vaddr, 0);
        && l in pt.forest.leaves && paddr == pt.forest.leaves[l].frame * PAGE
        && pt.forest.leaves[l].flags == old(pt.forest.leaves)[l].flags.(write := true, copy := false)
    {
      var ok := HandlePageFault(root, vaddr);
      var entry := Lookup(root, vaddr);
      OnlySmallPages(pt.forest.leaves, root, vaddr);
      paddr := pt.tables[entry.value.table][entry.value.index].frame * PAGE;
      SmallPagePhys(pt.tables[entry.value.table][entry.value.index], vaddr);
    }

    ghost predicate Faults(root: nat, vaddr: nat, write: bool)
      reads pt
    {
      var l := Key(root, vaddr, 0);
      write && l in pt.forest.leaves && !pt.forest.leaves[l].flags.write && pt.forest.leaves[l].flags.copy
    }

    // A store instruction of a process: it goes through, or faults and is tried again, or is an error.
    method Store(root: nat, vaddr: nat, b: byte) returns (ok: bool)
      requires Valid() && pt.IsRoot(root)
      modifies this`pages, pt
      ensures Valid() && pt.forest.at == old(pt.forest.at)
      ensures Seen() == EagerStore(old(Seen()), Key(root, vaddr, 0), vaddr % PAGE, b)
      ensures ok <==> Key(root, vaddr, 0) in old(Seen()) && old(Seen())[Key(root, vaddr, 0)].writable
    {
      var entry := Lookup(root, vaddr);
      if entry.Some? && !pt.tables[entry.value.table][entry.value.index].flags.write {
        ok := HandlePageFault(root, vaddr);
        entry := Lookup(root, vaddr);
      } else {
        ok := entry.Some?;
      }
      if ok {
        PutByte(pt.tables[entry.value.table][entry.value.index].frame, vaddr % PAGE, b, Key(root, vaddr, 0));
      }
    }

    // A store through the entry at `l`, which has WRITE.
    method PutByte(frame: nat, off: nat, b: byte, ghost l: Loc)
      requires Valid() && off < PAGE && l in pt.forest.leaves
      requires pt.forest.leaves[l].flags.write && pt.forest.leaves[l].frame == frame
      modifies this`pages
      ensures Valid() && Seen() == EagerStore(old(Seen()), l, off, b)
    {
      ghost var s := Abs();
      StoreByteKeeps(s, l, off, b);
      StoreKept(s, l, off, b, lost);
      pages := pages[frame := pages[frame][off := b]];
      assert Abs() == StoreByte(s, l, off, b);
    }
  }

  // The translation that kernel/src/memory/virtptr.c works with.
  ghost function PhysOf(leaves: map<Loc, Entry>, root: nat, vaddr: nat, write: bool, allowAll: bool): nat {
    VirtPtrs.Phys(VirtPtrs.VirtPtr(vaddr, VirtPtrs.Mapped(leaves, root), allowAll), vaddr, write)
  }

  lemma SmallPagePhys(e: Entry, vaddr: nat)
    ensures Phys(e, 0, vaddr) == e.frame * PAGE + vaddr % PAGE
  {
  }

  // The spaces that exist still exist, and no new one does.
  ghost predicate GrownRoots(was: map<Loc, nat>, now: map<Loc, nat>) {
    forall r: nat :: Loc(r, []) in now <==> Loc(r, []) in was
  }

  ghost predicate AtGrown(was: map<Loc, nat>, now: map<Loc, nat>, d: Loc, n: nat) {
    && (forall l :: l in was ==> l in now && now[l] == was[l])
    && (forall l :: l in now ==> l in was || Under(l, d, n))
  }

  ghost predicate AtGrownBy(was: map<Loc, nat>, now: map<Loc, nat>, c: Loc) {
    && (forall l :: l in was ==> l in now && now[l] == was[l])
    && (forall l :: l in now ==> l in was || l == c || Under(l, c, ENTRIES))
  }

  // Nothing lies below `d`, from entry `i` on.
  ghost predicate Vacant(f: Forest, d: Loc, i: nat) {
    forall l {:trigger Under(l, d, ENTRIES)} :: Under(l, d, ENTRIES) && !Under(l, d, i) ==> l !in f.leaves && l !in f.at
  }

  ghost function EntryCopied(f: Forest, v: Spaces, cs: Loc, cd: Loc): Spaces {
    if !Get(f, cs).v then v
    else if IsLeaf(Get(f, cs)) then (if cs in v then v[cd := v[cs]] else v)
    else Copied(v, cs, cd, ENTRIES)
  }

  ghost predicate Progress(was: Spaces, wasAt: map<Loc, nat>, f: Forest, v: Spaces, r: Loc, d: Loc, i: nat) {
    v == Copied(was, r, d, i) && AtGrown(wasAt, f.at, d, i) && Vacant(f, d, i)
  }

  // What one round of the copying loop adds to what has been copied before.
  lemma CopyRound(f: Forest, was: Spaces, v: Spaces, wasAt: map<Loc, nat>, g: Forest, w: Spaces, r: Loc, d: Loc, i: nat)
    requires WF(f) && Progress(was, wasAt, f, v, r, d, i) && v.Keys == f.leaves.Keys && d.root != r.root
             && d.path == r.path && i < ENTRIES
    requires w == EntryCopied(f, v, Child(r, i), Child(d, i)) && w.Keys == g.leaves.Keys
    requires AtGrownBy(f.at, g.at, Child(d, i))
    ensures Progress(was, wasAt, g, w, r, d, i + 1)
  {
    CopyStep(f, was, v, r, d, i);
    CopyStepAt(wasAt, f.at, d, i);
    VacantStep(f, v, g, w, d, r, i);
  }

  // From `f` and `v` to `g` and `w` one entry has been copied.
  ghost predicate CopiedOne(f: Forest, v: Spaces, g: Forest, w: Spaces, r: Loc, d: Loc, i: nat) {
    w == EntryCopied(f, v, Child(r, i), Child(d, i)) && w.Keys == g.leaves.Keys && AtGrownBy(f.at, g.at, Child(d, i))
  }

  lemma CopyRounds(f: Forest, was: Spaces, v: Spaces, wasAt: map<Loc, nat>, r: Loc, d: Loc, i: nat, n: nat)
    requires WF(f) && Progress(was, wasAt, f, v, r, d, i) && v.Keys == f.leaves.Keys && d.root != r.root
             && d.path == r.path && i < ENTRIES
    requires n == i + 1
    ensures forall g: Forest, w: Spaces {:trigger CopiedOne(f, v, g, w, r, d, i)} ::
              CopiedOne(f, v, g, w, r, d, i) ==> Progress(was, wasAt, g, w, r, d, n)
  {
    forall g: Forest, w: Spaces | CopiedOne(f, v, g, w, r, d, i) ensures Progress(was, wasAt, g, w, r, d, n) {
      CopyRound(f, was, v, wasAt, g, w, r, d, i);
    }
  }

  lemma StillThere(was: Spaces, wasAt: map<Loc, nat>, f: Forest, v: Spaces, r: Loc, d: Loc, i: nat)
    requires Progress(was, wasAt, f, v, r, d, i) && r in wasAt && d in wasAt
    ensures r in f.at && f.at[r] == wasAt[r] && d in f.at && f.at[d] == wasAt[d] && Vacant(f, d, i)
  {
  }

  // The entry `i` of the table `src` at `r` may be copied to the table `dest` at `d`.
  ghost predicate CanCopy(f: Forest, dest: nat, src: nat, i: nat, level: nat, d: Loc, r: Loc) {
    && |r.path| + level == 2 && d.path == r.path && d.root != r.root && i < ENTRIES
    && r in f.at && f.at[r] == src && d in f.at && f.at[d] == dest && Vacant(f, d, i)
  }

  lemma CopiedNone(v: Spaces, r: Loc, d: Loc)
    ensures Copied(v, r, d, 0) == v
  {
    assert Images(v, r, d, 0) == {};
  }

  lemma CopyStep(f: Forest, was: Spaces, v: Spaces, r: Loc, d: Loc, i: nat)
    requires WF(f) && v == Copied(was, r, d, i) && v.Keys == f.leaves.Keys && d.root != r.root && d.path == r.path
    ensures EntryCopied(f, v, Child(r, i), Child(d, i)) == Copied(was, r, d, i + 1)
  {
    var x, y := EntryCopied(f, v, Child(r, i), Child(d, i)), Copied(was, r, d, i + 1);
    forall l ensures l in x <==> l in y
             ensures l in x ==> x[l] == y[l]
    {
      CopyStepOne(f, was, v, r, d, i, l);
    }
    SameSpaces(x, y);
  }

  lemma SameSpaces(x: Spaces, y: Spaces)
    requires forall l :: l in x <==> l in y
    requires forall l :: l in x ==> x[l] == y[l]
    ensures x == y
  {
  }

  lemma CopyStepOne(f: Forest, was: Spaces, v: Spaces, r: Loc, d: Loc, i: nat, l: Loc)
    requires WF(f) && v == Copied(was, r, d, i) && v.Keys == f.leaves.Keys && d.root != r.root && d.path == r.path
    ensures var x, y := EntryCopied(f, v, Child(r, i), Child(d, i)), Copied(was, r, d, i + 1);
      (l in x <==> l in y) && (l in x ==> x[l] == y[l])
  {
    var cs, cd := Child(r, i), Child(d, i);
    CopiedAt(was, r, d, i, l);
    CopiedAt(was, r, d, i, cs);
    CopiedAt(was, r, d, i + 1, l);
    CopiedAt(v, cs, cd, ENTRIES, l);
    if l.root == d.root {
      var q := Loc(r.root, l.path);
      CopiedAt(was, r, d, i, q);
      assert q in v <==> q in was;
      assert q == cs <==> l == cd;
      ReachedThrough(f, r, i, q);
    }
  }

  // Below entry `i` of the table at `r` lies what its entry leads to.
  lemma ReachedThrough(f: Forest, r: Loc, i: nat, q: Loc)
    requires WF(f)
    ensures q in f.leaves ==> (Under(q, r, i + 1) <==> Under(q, r, i) || EntryLeadsTo(f, Child(r, i), q))
    ensures Child(r, i) in f.leaves <==> Get(f, Child(r, i)).v && IsLeaf(Get(f, Child(r, i)))
  {
    assert LocOk(f, Child(r, i));
    UnderStep(q, r, i);
    if q in f.leaves && Under(q, r, i + 1) && !Under(q, r, i) {
      NextEntry(f, r, i, q);
    }
  }

  ghost predicate EntryLeadsTo(f: Forest, c: Loc, q: Loc) {
    Get(f, c).v && if IsLeaf(Get(f, c)) then q == c else Under(q, c, ENTRIES)
  }

  lemma CopyStepAt(was: map<Loc, nat>, at: map<Loc, nat>, d: Loc, i: nat)
    requires AtGrown(was, at, d, i) && i < ENTRIES
    ensures forall now :: AtGrownBy(at, now, Child(d, i)) ==> AtGrown(was, now, d, i + 1)
  {
    forall l ensures l == Child(d, i) || Under(l, Child(d, i), ENTRIES) || Under(l, d, i) ==> Under(l, d, i + 1) {
      UnderStep(l, d, i);
    }
  }

  lemma BothSlots(f: Forest, d: Loc, r: Loc, dest: nat, src: nat, i: nat)
    requires WF(f) && r in f.at && f.at[r] == src && d in f.at && f.at[d] == dest && i < ENTRIES
    requires d.root != r.root && Vacant(f, d, i)
    ensures src in f.tables && i < |f.tables[src]| && src in f.place && f.place[src] == r
    ensures dest in f.tables && i < |f.tables[dest]| && dest in f.place && f.place[dest] == d && dest != src
    ensures var e := f.tables[src][i];
      && e == Get(f, Child(r, i))
      && (Child(r, i) in f.leaves <==> e.v && IsLeaf(e)) && (e.v && IsLeaf(e) ==> f.leaves[Child(r, i)] == e)
      && (Child(r, i) in f.at <==> e.v && !IsLeaf(e))
          && (e.v && !IsLeaf(e) ==> f.at[Child(r, i)] == e.frame && |r.path| < 2)
    ensures !f.tables[dest][i].v && Child(d, i) !in f.leaves && Child(d, i) !in f.at
  {
    assert HomeOk(f, r) && HomeOk(f, d) && HomeOk(f, Child(r, i));
    TableIsFull(f, src);
    TableIsFull(f, dest);
    assert LocOk(f, Child(r, i)) && LocOk(f, Child(d, i));
    UnderStep(Child(d, i), d, i);
    assert Under(Child(d, i), d, ENTRIES);
  }

  // Below the table that has just been hung there is nothing yet.
  lemma StillVacant(f: Forest, g: Forest, d: Loc, i: nat)
    requires Vacant(f, d, i) && g.leaves == f.leaves && i < ENTRIES
    requires forall l :: l in g.at <==> l in f.at || l == Child(d, i)
    ensures Vacant(g, Child(d, i), 0)
  {
    var c := Child(d, i);
    forall l | Under(l, c, ENTRIES) ensures l !in g.leaves && l !in g.at {
      UnderStep(l, d, i);
      assert Under(l, d, i + 1) && Under(l, d, ENTRIES);
      assert l.path[|d.path|] == c.path[|d.path|] == i;
    }
  }

  lemma VacantStep(f: Forest, was: Spaces, g: Forest, v: Spaces, d: Loc, r: Loc, i: nat)
    requires Vacant(f, d, i) && was.Keys == f.leaves.Keys && v.Keys == g.leaves.Keys && i < ENTRIES && d.path == r.path
    requires v == EntryCopied(f, was, Child(r, i), Child(d, i)) && AtGrownBy(f.at, g.at, Child(d, i))
    ensures Vacant(g, d, i + 1)
  {
    var cd := Child(d, i);
    forall l | Under(l, d, ENTRIES) && !Under(l, d, i + 1) ensures l !in g.leaves && l !in g.at {
      UnderStep(l, d, i);
      CopiedAt(was, Child(r, i), cd, ENTRIES, l);
    }
  }

  lemma CloneIsCopy(f: Forest, v: Spaces, mem: nat, space: nat)
    requires WF(f) && v.Keys == f.leaves.Keys
    ensures Copied(v, Loc(mem, []), Loc(space, []), ENTRIES) == EagerClone(v, mem, space)
  {
    WholeSpace(f, mem);
    forall l | l in v ensures Under(l, Loc(mem, []), ENTRIES) <==> l.root == mem {
      assert LocOk(f, l);
    }
  }

  lemma ShareGoal(s: Sys, l: Loc, d: Loc)
    requires l in s.leaves && d !in s.leaves && s.leaves[l].frame != s.zero
    ensures var e := s.leaves[l];
      && Share(s, l, d).leaves == s.leaves[d := e][l := Protected(e)][d := Protected(e)]
      && Share(s, l, d).refs == s.refs[e.frame := if e.frame in s.refs then s.refs[e.frame] + 1 else 2]
  {
  }

  lemma SpaceGone(f: Forest, was: Spaces, g: Forest, v: Spaces, root: nat)
    requires WF(f) && was.Keys == f.leaves.Keys && v.Keys == g.leaves.Keys
    requires v == Without(was, Loc(root, []), ENTRIES) && AtWithout(f.at, g.at, Loc(root, []), ENTRIES)
    ensures v == EagerFree(was, root)
    ensures forall l :: l in g.at <==> l in f.at && (l.root == root ==> l.path == [])
    ensures forall l: Loc :: l.root == root ==> l !in g.leaves
  {
    WholeSpace(f, root);
    forall l | l in f.leaves ensures l.path != [] {
      assert LocOk(f, l);
    }
    forall l: Loc | l.root == root ensures l !in g.leaves {
      assert l !in v;
    }
  }

  lemma WholeSpace(f: Forest, root: nat)
    requires WF(f)
    ensures forall l :: l in f.leaves || l in f.at ==>
            (Under(l, Loc(root, []), ENTRIES) <==> l.root == root && l.path != [])
  {
    forall l | (l in f.leaves || l in f.at) && l.root == root && l.path != [] ensures l.path[0] < ENTRIES {
      var q := Loc(root, l.path[..1]);
      assert Parent(q) == Loc(root, []);
      if l.path[0] >= ENTRIES {
        assert HomeOk(f, Loc(root, []));
        UnderInvalid(f, q, l);
      }
    }
    forall l | l in f.leaves ensures l.path != [] {
      assert LocOk(f, l);
    }
  }

  ghost predicate AtWithout(was: map<Loc, nat>, now: map<Loc, nat>, r: Loc, n: nat) {
    && (forall l :: l in now <==> l in was && !Under(l, r, n))
    && (forall l :: l in now ==> now[l] == was[l])
  }

  // The pages under the first `n` entries of the table at `r` are gone, and the tables too.
  ghost predicate FreedUpTo(was: Spaces, wasAt: map<Loc, nat>, f: Forest, v: Spaces, r: Loc, n: nat) {
    v == Without(was, r, n) && AtWithout(wasAt, f.at, r, n)
  }

  lemma FreedNone(f: Forest, v: Spaces, r: Loc)
    ensures FreedUpTo(v, f.at, f, v, r, 0)
  {
  }

  lemma GoneBelow(was: Spaces, wasAt: map<Loc, nat>, f: Forest, v: Spaces, r: Loc)
    requires v.Keys == f.leaves.Keys && v == Without(was, r, ENTRIES) && AtWithout(wasAt, f.at, r, ENTRIES)
    ensures forall l :: Under(l, r, ENTRIES) ==> l !in f.at && l !in f.leaves
  {
    forall l | Under(l, r, ENTRIES) ensures l !in f.leaves {
      assert l !in v;
    }
  }

  // What is seen after the entry at `c` has been freed.
  ghost function EntryFreed(f: Forest, v: Spaces, c: Loc): Spaces {
    if !Get(f, c).v then v else if IsLeaf(Get(f, c)) then v - {c} else Without(v, c, ENTRIES)
  }

  ghost predicate AtFreed(f: Forest, now: map<Loc, nat>, c: Loc) {
    if Get(f, c).v && !IsLeaf(Get(f, c))
    then (forall l :: l in now <==> l in f.at && l != c && !Under(l, c, ENTRIES))
        && (forall l :: l in now ==> now[l] == f.at[l])
    else now == f.at
  }

  // Whatever is reached through entry `i` of the table at `r`.
  lemma NextEntry(f: Forest, r: Loc, i: nat, l: Loc)
    requires WF(f) && (l in f.leaves || l in f.at)
    requires Under(l, r, i + 1) && !Under(l, r, i)
    ensures l == Child(r, i) || Under(l, Child(r, i), ENTRIES)
    ensures Get(f, Child(r, i)).v && (IsLeaf(Get(f, Child(r, i))) ==> l == Child(r, i))
  {
    var c := Child(r, i);
    UnderStep(l, r, i);
    assert LocOk(f, l) && LocOk(f, c);
    if l != c {
      assert c.path <= l.path;
      if !Get(f, c).v || c in f.leaves {
        UnderInvalid(f, c, l);
      }
      var q := Loc(l.root, l.path[..|c.path| + 1]);
      assert Parent(q).path == l.path[..|c.path|] == c.path;
      if l.path[|c.path|] >= ENTRIES {
        assert HomeOk(f, c);
        UnderInvalid(f, q, l);
      }
    }
  }

  lemma FreeStep(f: Forest, was: Spaces, v: Spaces, r: Loc, i: nat)
    requires WF(f) && v == Without(was, r, i) && v.Keys == f.leaves.Keys
    ensures EntryFreed(f, v, Child(r, i)) == Without(was, r, i + 1)
  {
    var c := Child(r, i);
    assert LocOk(f, c);
    forall l | l in v ensures Under(l, r, i + 1) <==>
        Get(f, c).v && if IsLeaf(Get(f, c)) then l == c else Under(l, c, ENTRIES) {
      UnderStep(l, r, i);
      if Under(l, r, i + 1) {
        NextEntry(f, r, i, l);
      }
    }
    forall l | l in was ensures Under(l, r, i) ==> Under(l, r, i + 1) {
    }
  }

  lemma FreeStepAt(f: Forest, was: map<Loc, nat>, r: Loc, i: nat)
    requires WF(f) && AtWithout(was, f.at, r, i)
    ensures forall now :: AtFreed(f, now, Child(r, i)) ==> AtWithout(was, now, r, i + 1)
  {
    var c := Child(r, i);
    assert LocOk(f, c);
    forall l | l in f.at
      ensures Under(l, r, i + 1) <==> Get(f, c).v && !IsLeaf(Get(f, c)) && (l == c || Under(l, c, ENTRIES))
    {
      UnderStep(l, r, i);
      if Under(l, r, i + 1) {
        NextEntry(f, r, i, l);
      }
    }
  }

  lemma EmptyTable(f: Forest, t: nat, i: nat, n: nat, r: Loc)
    requires WF(f) && r in f.at && f.at[r] == t && i < ENTRIES
    requires Child(r, i) in f.at && f.at[Child(r, i)] == n
    requires forall l :: Under(l, Child(r, i), ENTRIES) ==> l !in f.at && l !in f.leaves
    ensures t in f.tables && t in f.place && f.place[t] == r && i < |f.tables[t]| && n != t && n in f.tables
    ensures WF(Prune(f, t, i, n)) && Prune(f, t, i, n).at == f.at - {Child(r, i)}
  {
    var c := Child(r, i);
    assert HomeOk(f, r) && HomeOk(f, c) && LocOk(f, c);
    TableIsFull(f, t);
    TableIsFull(f, n);
    forall j: nat | j < ENTRIES ensures !f.tables[n][j].v {
      assert Under(Child(c, j), c, ENTRIES);
      assert LocOk(f, Child(c, j));
    }
    PruneWF(f, t, i, n);
  }

  lemma UnmappedPage(s: Sys, page: nat, bytes: Page)
    requires Inv(s) && page !in s.pages
    ensures Inv(s.(pages := s.pages[page := bytes]))
  {
    var t := s.(pages := s.pages[page := bytes]);
    forall l ensures LeafOk(t, l) {
      assert LeafOk(s, l);
      if l in s.leaves {
        assert Holders(t, s.leaves[l].frame) == Holders(s, s.leaves[l].frame);
      }
    }
    forall f ensures FrameOk(t, f) {
      assert FrameOk(s, f);
      assert Holders(t, f) == Holders(s, f);
    }
  }

  lemma EmptyInv(s: Sys)
    requires s.leaves == map[] && s.refs == map[] && s.pages == map[s.zero := Zeros()]
    ensures Inv(s) && View(s) == map[]
  {
  }

  // Without superpages a lookup ends at a leaf of level 0.
  lemma OnlySmallPages(leaves: map<Loc, Entry>, root: nat, vaddr: nat)
    requires forall l {:trigger l in leaves} :: l in leaves ==> |l.path| == 3
    ensures Hit(leaves, root, vaddr) == if Key(root, vaddr, 0) in leaves then Some(0) else None
  {
    assert |Key(root, vaddr, 2).path| == 1 && |Key(root, vaddr, 1).path| == 2;
  }
}
