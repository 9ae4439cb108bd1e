// Copy-on-write as kernel/src/memory/memspace.c performs it on single leaf entries, and what it stands for:
// address spaces that never share a page.
module CowSpec {
  import opened Basics
  import opened PageTableSpec

  type Page = p: seq<byte> | |p| == PAGE witness seq(PAGE, _ => 0)

  function Zeros(): (p: Page)
    ensures forall i :: 0 <= i < PAGE ==> p[i] == 0
  {
    seq(PAGE, _ => 0)
  }

  // The leaf entries of all address spaces, the contents of the data frames, and the recorded counts.
  datatype Sys = Sys(zero: nat, leaves: map<Loc, Entry>, pages: map<nat, Page>, refs: map<nat, nat>)

  // A frame without a recorded count has one reference.
  function Count(refs: map<nat, nat>, f: nat): nat {
    if f in refs then refs[f] else 1
  }

  ghost function Holders(s: Sys, f: nat): set<Loc> {
    set l | l in s.leaves && s.leaves[l].frame == f
  }

  // READ or EXEC is set, so the entry stays a leaf when WRITE is taken away.
  predicate Durable(e: Entry) {
    e.flags.read || e.flags.exec
  }

  ghost predicate LeafOk(s: Sys, l: Loc) {
    l in s.leaves ==>
      var e := s.leaves[l];
      && e.v && Durable(e) && !e.flags.global && e.frame in s.pages
      && (e.flags.write ==> e.frame != s.zero && Holders(s, e.frame) == {l})
  }

  // The recorded count may be too high (a fault that copies does not lower it) but never too low.
  ghost predicate FrameOk(s: Sys, f: nat) {
    && (f != s.zero ==> |Holders(s, f)| <= Count(s.refs, f))
    && (f in s.refs ==> s.refs[f] >= 2 && f in s.pages && f != s.zero)
  }

  ghost predicate Inv(s: Sys) {
    && s.zero in s.pages && s.pages[s.zero] == Zeros()
    && (forall l {:trigger LeafOk(s, l)} :: LeafOk(s, l))
    && (forall f {:trigger FrameOk(s, f)} :: FrameOk(s, f))
  }

  // ---- What a process sees

  // A mapped page: its bytes, whether a store to it succeeds, and the permissions that never change.
  datatype Cell = Cell(bytes: Page, writable: bool, rest: Flags)

  function See(e: Entry, bytes: Page): Cell {
    Cell(bytes, e.flags.write || e.flags.copy, e.flags.(write := false, copy := false))
  }

  ghost function Bytes(s: Sys, f: nat): Page {
    if f in s.pages then s.pages[f] else Zeros()
  }

  type Spaces = map<Loc, Cell>

  ghost function View(s: Sys): Spaces {
    map l | l in s.leaves :: See(s.leaves[l], Bytes(s, s.leaves[l].frame))
  }

  // ---- The steps on one leaf entry

  function Writable(e: Entry): Entry {
    e.(flags := e.flags.(write := true, copy := false))
  }

  function Protected(e: Entry): Entry {
    if e.flags.write then e.(flags := e.flags.(write := false, copy := true)) else e
  }

  // Cloning turns a leaf that has WRITE as its only permission into an entry that reads as a branch,
  // and it does so to no other leaf.
  lemma ProtectedStaysLeaf(e: Entry)
    requires IsLeaf(e)
    ensures IsLeaf(Protected(e)) <==> Durable(e)
    ensures var w := Entry(true, NO_FLAGS.(write := true), 1); IsLeaf(w) && !IsLeaf(Protected(w))
  {
  }

  // handlePageFault on an entry with COPY; `next` is the frame that the allocator hands out if one is needed.
  ghost function Fault(s: Sys, l: Loc, next: nat): Sys
    requires l in s.leaves
  {
    var e := s.leaves[l];
    if e.frame == s.zero then
      s.(pages := s.pages[next := Zeros()], leaves := s.leaves[l := Writable(e).(frame := next)])
    else if Count(s.refs, e.frame) > 1 && e.frame in s.pages then
      s.(pages := s.pages[next := s.pages[e.frame]], leaves := s.leaves[l := Writable(e).(frame := next)])
    else
      s.(leaves := s.leaves[l := Writable(e)])
  }

  // A fault gives the entry a frame of its own and is invisible.
  lemma FaultKeeps(s: Sys, l: Loc, next: nat)
    requires Inv(s) && l in s.leaves && s.leaves[l].flags.copy
    requires next !in s.pages
    ensures Inv(Fault(s, l, next)) && View(Fault(s, l, next)) == View(s)
    ensures Fault(s, l, next).leaves[l].flags.write
  {
    FaultHolders(s, l, next);
    FaultView(s, l, next);
    var t := Fault(s, l, next);
    assert LeafOk(s, l);
    forall l' ensures LeafOk(t, l') {
      assert LeafOk(s, l');
      if l' in s.leaves && l' != l {
        assert l' in Holders(s, s.leaves[l'].frame);
      }
    }
    forall f ensures FrameOk(t, f) {
      assert FrameOk(s, f);
    }
  }

  // Who maps what after a fault.
  lemma FaultHolders(s: Sys, l: Loc, next: nat)
    requires Inv(s) && l in s.leaves && next !in s.pages
    ensures var t := Fault(s, l, next);
      && Holders(t, t.leaves[l].frame) == {l}
      && (forall f :: f != t.leaves[l].frame ==> Holders(t, f) == Holders(s, f) - {l})
      && t.leaves[l].frame in t.pages && t.leaves[l].frame != s.zero
      && (t.leaves[l].frame == s.leaves[l].frame || t.leaves[l].frame == next)
      && next !in s.refs
  {
    var t := Fault(s, l, next);
    assert LeafOk(s, l) && FrameOk(s, s.leaves[l].frame);
    NoHolders(s, next);
    assert l in Holders(s, s.leaves[l].frame);
    if t.leaves[l].frame == s.leaves[l].frame {
      SoleHolder(s, s.leaves[l].frame, l);
    }
  }

  lemma FaultView(s: Sys, l: Loc, next: nat)
    requires Inv(s) && l in s.leaves && s.leaves[l].flags.copy && next !in s.pages
    ensures View(Fault(s, l, next)) == View(s)
  {
    var t := Fault(s, l, next);
    assert t.leaves.Keys == s.leaves.Keys;
    forall l' | l' in s.leaves
      ensures See(t.leaves[l'], Bytes(t, t.leaves[l'].frame)) == See(s.leaves[l'], Bytes(s, s.leaves[l'].frame))
    {
      FaultViewAt(s, l, next, l');
    }
  }

  lemma FaultViewAt(s: Sys, l: Loc, next: nat, l': Loc)
    requires Inv(s) && l in s.leaves && s.leaves[l].flags.copy && next !in s.pages && l' in s.leaves
    ensures var t := Fault(s, l, next);
      See(t.leaves[l'], Bytes(t, t.leaves[l'].frame)) == See(s.leaves[l'], Bytes(s, s.leaves[l'].frame))
  {
    assert LeafOk(s, l');
    SeeWritable(s.leaves[l], Fault(s, l, next).leaves[l].frame, Bytes(s, s.leaves[l].frame));
  }

  lemma SeeWritable(e: Entry, f: nat, bytes: Page)
    requires e.flags.copy
    ensures See(Writable(e).(frame := f), bytes) == See(e, bytes)
    ensures See(Writable(e), bytes) == See(e, bytes)
  {
  }

  lemma NoHolders(s: Sys, f: nat)
    requires Inv(s) && f !in s.pages
    ensures Holders(s, f) == {} && f !in s.refs
  {
    assert FrameOk(s, f);
    forall l | l in s.leaves ensures s.leaves[l].frame != f {
      assert LeafOk(s, l);
    }
  }

  lemma SoleHolder(s: Sys, f: nat, l: Loc)
    requires |Holders(s, f)| <= 1 && l in Holders(s, f)
    ensures Holders(s, f) == {l}
  {
    forall x | x in Holders(s, f) ensures x == l {
      if x != l {
        Subset({l, x}, Holders(s, f));
      }
    }
  }

  function AddRef(refs: map<nat, nat>, f: nat): map<nat, nat> {
    refs[f := Count(refs, f) + 1]
  }

  function RemoveRef(refs: map<nat, nat>, f: nat): map<nat, nat> {
    if f !in refs then refs else if refs[f] <= 2 then refs - {f} else refs[f := refs[f] - 1]
  }

  // freePageEntryData followed by the removal of the entry.
  ghost function Free(s: Sys, l: Loc): Sys
    requires l in s.leaves
  {
    var f := s.leaves[l].frame;
    var t := s.(leaves := s.leaves - {l});
    if f == s.zero then t
    else if Count(s.refs, f) > 1 then t.(refs := RemoveRef(s.refs, f))
    else t.(pages := s.pages - {f})
  }

  // Removing an entry removes one page from one space; its frame goes back to the page allocator only when
  // no other entry maps it.
  lemma FreeKeeps(s: Sys, l: Loc)
    requires Inv(s) && l in s.leaves
    ensures Inv(Free(s, l)) && View(Free(s, l)) == View(s) - {l}
    ensures forall f :: f in s.pages && f !in Free(s, l).pages ==> Holders(s, f) == {l}
    ensures forall f :: f in Free(s, l).pages ==> f in s.pages && Free(s, l).pages[f] == s.pages[f]
  {
    var t := Free(s, l);
    var f0 := s.leaves[l].frame;
    assert LeafOk(s, l) && FrameOk(s, f0);
    forall f ensures FrameOk(t, f) {
      FreeFrame(s, l, f);
    }
    forall l' ensures LeafOk(t, l') {
      FreeLeaf(s, l, l');
    }
    FreeView(s, l);
    if f0 != s.zero && Count(s.refs, f0) <= 1 {
      SoleHolder(s, f0, l);
    }
  }

  // What it does to frames and counts, in terms of the table of counts.
  lemma FreeCases(s: Sys, l: Loc)
    requires Inv(s) && l in s.leaves
    ensures var f := s.leaves[l].frame;
      && !s.leaves[l].flags.global
      && (f == s.zero ==> Free(s, l).pages == s.pages && Free(s, l).refs == s.refs)
      && (f != s.zero && f !in s.refs ==> Free(s, l).pages == s.pages - {f} && Free(s, l).refs == s.refs)
      && (f != s.zero && f in s.refs ==> Free(s, l).pages == s.pages && Free(s, l).refs == RemoveRef(s.refs, f))
  {
    assert LeafOk(s, l) && FrameOk(s, s.leaves[l].frame);
  }

  lemma FreeHolders(s: Sys, l: Loc, f: nat)
    requires l in s.leaves
    ensures Holders(Free(s, l), f) == Holders(s, f) - {l} && l in Holders(s, s.leaves[l].frame)
  {
  }

  lemma FreeFrame(s: Sys, l: Loc, f: nat)
    requires Inv(s) && l in s.leaves
    ensures FrameOk(Free(s, l), f)
  {
    assert FrameOk(s, f) && LeafOk(s, l);
    FreeHolders(s, l, f);
    if f == s.leaves[l].frame && f != s.zero && Count(s.refs, f) <= 1 {
      SoleHolder(s, f, l);
    }
  }

  lemma FreeLeaf(s: Sys, l: Loc, l': Loc)
    requires Inv(s) && l in s.leaves
    ensures LeafOk(Free(s, l), l')
  {
    var f0 := s.leaves[l].frame;
    assert LeafOk(s, l') && LeafOk(s, l) && FrameOk(s, f0);
    FreeHolders(s, l, f0);
    if l' in s.leaves {
      FreeHolders(s, l, s.leaves[l'].frame);
      assert l' in Holders(s, s.leaves[l'].frame);
    }
    if f0 != s.zero && Count(s.refs, f0) <= 1 {
      SoleHolder(s, f0, l);
    }
  }

  lemma FreeView(s: Sys, l: Loc)
    requires Inv(s) && l in s.leaves
    ensures View(Free(s, l)) == View(s) - {l}
  {
    var t := Free(s, l);
    forall l' | l' in t.leaves ensures t.leaves[l'].frame in t.pages && t.leaves[l'].frame in s.pages {
      FreeLeaf(s, l, l');
      assert LeafOk(s, l');
    }
  }

  // copyMemoryPageEntry: the new entry `d` shares the frame of `l`, and neither may write it any more.
  ghost function Share(s: Sys, l: Loc, d: Loc): Sys
    requires l in s.leaves
  {
    var e := s.leaves[l];
    if e.frame == s.zero then s.(leaves := s.leaves[d := e])
    else s.(leaves := s.leaves[l := Protected(e)][d := Protected(e)], refs := AddRef(s.refs, e.frame))
  }

  lemma ShareKeeps(s: Sys, l: Loc, d: Loc)
    requires Inv(s) && l in s.leaves && d !in s.leaves
    ensures Inv(Share(s, l, d)) && View(Share(s, l, d)) == View(s)[d := View(s)[l]]
  {
    var t := Share(s, l, d);
    assert LeafOk(s, l) && FrameOk(s, s.leaves[l].frame);
    ShareHolders(s, l, d);
    forall f ensures FrameOk(t, f) {
      assert FrameOk(s, f);
    }
    forall l' ensures LeafOk(t, l') {
      ShareLeaf(s, l, d, l');
    }
    ShareView(s, l, d);
  }

  lemma ShareView(s: Sys, l: Loc, d: Loc)
    requires l in s.leaves && d !in s.leaves
    ensures View(Share(s, l, d)) == View(s)[d := View(s)[l]]
  {
    var t := Share(s, l, d);
    assert t.leaves.Keys == s.leaves.Keys + {d};
    forall x | x in t.leaves
      ensures See(t.leaves[x], Bytes(t, t.leaves[x].frame)) == View(s)[d := View(s)[l]][x]
    {
      ShareSeen(s, l, d, x);
    }
  }

  lemma ShareSeen(s: Sys, l: Loc, d: Loc, x: Loc)
    requires l in s.leaves && d !in s.leaves && (x == d || x in s.leaves)
    ensures var t, q := Share(s, l, d), if x == d then l else x;
      x in t.leaves && See(t.leaves[x], Bytes(t, t.leaves[x].frame)) == See(s.leaves[q], Bytes(s, s.leaves[q].frame))
  {
    SeeProtected(s.leaves[l], Bytes(s, s.leaves[l].frame));
  }

  lemma SeeProtected(e: Entry, bytes: Page)
    ensures See(Protected(e), bytes) == See(e, bytes) && Protected(e).frame == e.frame
  {
  }

  lemma ShareLeaf(s: Sys, l: Loc, d: Loc, l': Loc)
    requires Inv(s) && l in s.leaves && d !in s.leaves
    ensures LeafOk(Share(s, l, d), l')
  {
    assert LeafOk(s, l) && LeafOk(s, l');
    ShareHolders(s, l, d);
    assert l in Holders(s, s.leaves[l].frame);
  }

  lemma ShareHolders(s: Sys, l: Loc, d: Loc)
    requires l in s.leaves && d !in s.leaves
    ensures var t := Share(s, l, d);
      forall f :: Holders(t, f) == if f == s.leaves[l].frame then Holders(s, f) + {d} else Holders(s, f)
  {
  }

  // Mapping an entry with its own new frame, or with the zero page.
  ghost function MapFresh(s: Sys, l: Loc, e: Entry, bytes: Page): Sys {
    s.(leaves := s.leaves[l := e], pages := s.pages[e.frame := bytes])
  }

  lemma MapFreshKeeps(s: Sys, l: Loc, e: Entry, bytes: Page)
    requires Inv(s) && e.frame !in s.pages && e.v && Durable(e) && !e.flags.global
    ensures Inv(MapFresh(s, l, e, bytes)) && View(MapFresh(s, l, e, bytes)) == View(s)[l := See(e, bytes)]
  {
    NoHolders(s, e.frame);
    MapInv(s, l, e, MapFresh(s, l, e, bytes));
    forall l' | l' in s.leaves ensures s.leaves[l'].frame != e.frame {
      assert LeafOk(s, l');
    }
  }

  ghost function MapZero(s: Sys, l: Loc, e: Entry): Sys {
    s.(leaves := s.leaves[l := e])
  }

  lemma MapZeroKeeps(s: Sys, l: Loc, e: Entry)
    requires Inv(s) && e.frame == s.zero && e.v && Durable(e) && !e.flags.global && !e.flags.write
    ensures Inv(MapZero(s, l, e)) && View(MapZero(s, l, e)) == View(s)[l := See(e, Zeros())]
  {
    MapInv(s, l, e, MapZero(s, l, e));
  }

  lemma MapInv(s: Sys, l: Loc, e: Entry, t: Sys)
    requires Inv(s) && t.zero == s.zero && t.refs == s.refs && t.leaves == s.leaves[l := e]
    requires forall f :: f in s.pages ==> f in t.pages && (f == s.zero ==> t.pages[f] == s.pages[f])
    requires e.v && Durable(e) && !e.flags.global && e.frame in t.pages
    requires (e.frame == s.zero && !e.flags.write)
             || (e.frame !in s.refs && Holders(s, e.frame) == {} && e.frame != s.zero)
    ensures Inv(t)
  {
    MapHolders(s, l, e, t);
    forall l' ensures LeafOk(t, l') {
      assert LeafOk(s, l');
      if l' in s.leaves {
        assert l' in Holders(s, s.leaves[l'].frame);
      }
    }
    forall f ensures FrameOk(t, f) {
      assert FrameOk(s, f);
    }
  }

  lemma MapHolders(s: Sys, l: Loc, e: Entry, t: Sys)
    requires t.leaves == s.leaves[l := e]
    ensures forall f :: Holders(t, f) == if f == e.frame then Holders(s, f) + {l} else Holders(s, f) - {l}
  {
  }

  // A store through an entry with WRITE.
  ghost function StoreByte(s: Sys, l: Loc, off: nat, b: byte): Sys
    requires l in s.leaves && s.leaves[l].frame in s.pages && off < PAGE
  {
    var f := s.leaves[l].frame;
    s.(pages := s.pages[f := s.pages[f][off := b]])
  }

  // The frame of a writable entry is mapped nowhere else, so the store is seen by one space only.
  lemma StoreByteKeeps(s: Sys, l: Loc, off: nat, b: byte)
    requires Inv(s) && l in s.leaves && s.leaves[l].flags.write && off < PAGE
    ensures s.leaves[l].frame in s.pages && Inv(StoreByte(s, l, off, b))
    ensures View(StoreByte(s, l, off, b)) == EagerStore(View(s), l, off, b)
  {
    assert LeafOk(s, l);
    var t := StoreByte(s, l, off, b);
    forall f ensures FrameOk(t, f) && Holders(t, f) == Holders(s, f) {
      assert FrameOk(s, f);
    }
    forall l' ensures LeafOk(t, l') {
      assert LeafOk(s, l');
      if l' in s.leaves && s.leaves[l'].frame == s.leaves[l].frame {
        assert l' in Holders(s, s.leaves[l].frame);
      }
    }
    forall l' | l' in s.leaves ensures s.leaves[l'].frame == s.leaves[l].frame ==> l' in Holders(s, s.leaves[l].frame) {
    }
  }

  // ---- The same steps on spaces that share nothing

  function EagerStore(v: Spaces, l: Loc, off: nat, b: byte): Spaces
    requires off < PAGE
  {
    if l in v && v[l].writable then v[l := v[l].(bytes := v[l].bytes[off := b])] else v
  }

  // Every page of `src` copied to `dst` at once.
  function EagerClone(v: Spaces, src: nat, dst: nat): Spaces {
    v + map k | k in (set l | l in v && l.root == src :: Loc(dst, l.path))
        && Loc(src, k.path) in v :: v[Loc(src, k.path)]
  }

  function EagerFree(v: Spaces, root: nat): Spaces {
    map l | l in v && l.root != root :: v[l]
  }

  // ---- Subtrees

  // `l` lies below the table at `r`, in one of its first `n` entries.
  predicate Under(l: Loc, r: Loc, n: nat) {
    l.root == r.root && |l.path| > |r.path| && r.path <= l.path && l.path[|r.path|] < n
  }

  function Without(v: Spaces, r: Loc, n: nat): Spaces {
    map l | l in v && !Under(l, r, n) :: v[l]
  }

  function Images(v: Spaces, src: Loc, dst: Loc, n: nat): set<Loc> {
    set l | l in v && Under(l, src, n) :: Loc(dst.root, l.path)
  }

  // The pages below `src` also below `dst`.
  function Copied(v: Spaces, src: Loc, dst: Loc, n: nat): Spaces {
    v + map k | k in Images(v, src, dst, n) && Loc(src.root, k.path) in v :: v[Loc(src.root, k.path)]
  }

  lemma CopiedAt(v: Spaces, src: Loc, dst: Loc, n: nat, l: Loc)
    ensures var q := Loc(src.root, l.path);
      var new_ := l.root == dst.root && q in v && Under(q, src, n);
      && (l in Copied(v, src, dst, n) <==> l in v || new_)
      && (l in Copied(v, src, dst, n) ==> Copied(v, src, dst, n)[l] == if new_ then v[q] else v[l])
  {
    var q := Loc(src.root, l.path);
    if l.root == dst.root && q in v && Under(q, src, n) {
      assert l == Loc(dst.root, q.path);
      assert l in Images(v, src, dst, n);
    }
  }

  // The entries of one table partition what lies below it.
  lemma UnderStep(l: Loc, r: Loc, i: nat)
    ensures Under(l, r, i + 1) <==>
              Under(l, r, i) || l == Child(r, i) || (Under(l, Child(r, i), ENTRIES) || Beyond(l, Child(r, i)))
    ensures !Under(Child(r, i), r, i)
  {
    var c := Child(r, i);
    if Under(l, r, i + 1) && !Under(l, r, i) {
      assert l.path[..|r.path| + 1] == c.path;
      if |l.path| == |c.path| {
        assert l.path == c.path;
      } else {
        assert c.path <= l.path;
      }
    }
    if l.root == c.root && |l.path| > |c.path| && c.path <= l.path {
      assert l.path[|r.path|] == c.path[|r.path|] == i;
      assert r.path <= l.path by {
        assert l.path[..|c.path|] == c.path && c.path[..|r.path|] == r.path;
        assert l.path[..|r.path|] == r.path;
      }
    }
  }

  // Below `r`, but through an index that no table has.
  predicate Beyond(l: Loc, r: Loc) {
    l.root == r.root && |l.path| > |r.path| && r.path <= l.path && l.path[|r.path|] >= ENTRIES
  }
}
