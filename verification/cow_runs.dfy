// Whole runs of the memory spaces: whatever the processes do, they see what they would see if cloning a space
// copied all of its pages at once.
module CowRuns {
  import opened Basics
  import opened PageTableSpec
  import opened CowSpec
  import opened CowCounts
  import opened MemSpace

  // The steps of a run. Spaces are named by the order in which they were made.
  datatype Op =
    | Create
    | Clone(i: nat)
    | MapFresh(i: nat, vaddr: nat, bits: Flags, bytes: Page)
    | MapZero(i: nat, vaddr: nat, bits: Flags)
    | PageFault(i: nat, vaddr: nat)
    | Store(i: nat, vaddr: nat, b: byte)
    | Unmap(i: nat, vaddr: nat)
    | Free(i: nat)
    | Dealloc(i: nat)

  // READ or EXEC is set and GLOBAL is not; the zero page is never mapped with WRITE.
  predicate Proper(op: Op) {
    match op
    case MapFresh(_, _, bits, _) => Durable(Entry(true, bits, 0)) && !bits.global
    case MapZero(_, _, bits) => Durable(Entry(true, bits, 0)) && !bits.global && !bits.write
    case _ => true
  }

  // ---- Spaces that share nothing: each one has its own bytes for every page

  type Own = map<seq<nat>, Cell>
  type Eager = seq<Option<Own>>

  predicate Alive<T>(e: seq<Option<T>>, i: nat) {
    i < |e| && e[i].Some?
  }

  function StoreOwn(m: Own, vaddr: nat, b: byte): Own {
    var p := PathOf(vaddr);
    if p in m && m[p].writable then m[p := m[p].(bytes := m[p].bytes[vaddr % PAGE := b])] else m
  }

  function EagerStep(e: Eager, op: Op): Eager {
    match op
    case Create => e + [Some(map[])]
    case Clone(i) => if Alive(e, i) then e + [e[i]] else e
    case MapFresh(i, vaddr, bits, bytes) =>
      if Alive(e, i) then e[i := Some(e[i].value[PathOf(vaddr) := See(Entry(true, bits, 0), bytes)])] else e
    case MapZero(i, vaddr, bits) =>
      if Alive(e, i) then e[i := Some(e[i].value[PathOf(vaddr) := See(Entry(true, bits, 0), Zeros())])] else e
    case PageFault(_, _) => e
    case Store(i, vaddr, b) => if Alive(e, i) then e[i := Some(StoreOwn(e[i].value, vaddr, b))] else e
    case Unmap(i, vaddr) => if Alive(e, i) then e[i := Some(e[i].value - {PathOf(vaddr)})] else e
    case Free(i) => if Alive(e, i) then e[i := Some(map[])] else e
    case Dealloc(i) => if Alive(e, i) then e[i := None] else e
  }

  function EagerRun(e: Eager, ops: seq<Op>): Eager {
    if ops == [] then e else EagerStep(EagerRun(e, ops[..|ops| - 1]), ops[|ops| - 1])
  }

  // ---- The relation between the two

  function OwnOf(v: Spaces, root: nat): Own {
    map p | p in (set l | l in v && l.root == root :: l.path) && Loc(root, p) in v :: v[Loc(root, p)]
  }

  ghost predicate Related(v: Spaces, roots: seq<Option<nat>>, e: Eager) {
    && |roots| == |e|
    && (forall i :: 0 <= i < |e| ==> e[i] == if roots[i].Some? then Some(OwnOf(v, roots[i].value)) else None)
    && (forall i, j :: 0 <= i < j < |e| && roots[i].Some? && roots[j].Some? ==> roots[i].value != roots[j].value)
  }

  lemma OwnOfPut(v: Spaces, l: Loc, c: Cell, root: nat)
    ensures OwnOf(v[l := c], root) == if l.root == root then OwnOf(v, root)[l.path := c] else OwnOf(v, root)
  {
    OwnOfAt(v, root);
    OwnOfAt(v[l := c], root);
  }

  lemma OwnOfAt(v: Spaces, root: nat)
    ensures forall p :: p in OwnOf(v, root) <==> Loc(root, p) in v
    ensures forall p :: p in OwnOf(v, root) ==> OwnOf(v, root)[p] == v[Loc(root, p)]
  {
    forall p | Loc(root, p) in v ensures p in OwnOf(v, root) {
      var l := Loc(root, p);
      assert l in v && l.root == root && l.path == p;
    }
  }

  lemma OwnOfRemove(v: Spaces, l: Loc, root: nat)
    ensures OwnOf(v - {l}, root) == if l.root == root then OwnOf(v, root) - {l.path} else OwnOf(v, root)
  {
    OwnOfAt(v, root);
    OwnOfAt(v - {l}, root);
  }

  lemma OwnOfFree(v: Spaces, r: nat, root: nat)
    ensures OwnOf(EagerFree(v, r), root) == if r == root then map[] else OwnOf(v, root)
  {
    OwnOfAt(v, root);
    OwnOfAt(EagerFree(v, r), root);
  }

  lemma OwnOfClone(v: Spaces, src: nat, dst: nat, root: nat)
    requires src != dst && forall p :: Loc(dst, p) !in v
    ensures OwnOf(EagerClone(v, src, dst), root) == if root == dst then OwnOf(v, src) else OwnOf(v, root)
  {
    var w := EagerClone(v, src, dst);
    OwnOfAt(v, root);
    OwnOfAt(v, src);
    OwnOfAt(w, root);
    forall p ensures Loc(root, p) in w <==> if root == dst then Loc(src, p) in v else Loc(root, p) in v
             ensures Loc(root, p) in w ==> w[Loc(root, p)] == if root == dst then v[Loc(src, p)] else v[Loc(root, p)]
    {
      if root == dst && Loc(src, p) in v {
        var l := Loc(src, p);
        assert l in v && l.root == src && Loc(dst, l.path) == Loc(root, p);
      }
    }
  }

  // A step that changes only what one space sees.
  lemma RelatedUpdate(v: Spaces, w: Spaces, roots: seq<Option<nat>>, e: Eager, i: nat, m: Own)
    requires Related(v, roots, e) && Alive(roots, i) && OwnOf(w, roots[i].value) == m
    requires forall r: nat {:trigger OwnOf(w, r)} :: r != roots[i].value ==> OwnOf(w, r) == OwnOf(v, r)
    ensures Related(w, roots, e[i := Some(m)])
  {
  }

  // What all spaces together see after a step on the space with root `r`, in terms of what they saw before.
  ghost function SeenAfter(v: Spaces, op: Op, r: nat): Spaces {
    match op
    case MapFresh(_, vaddr, bits, bytes) => v[Key(r, vaddr, 0) := See(Entry(true, bits, 0), bytes)]
    case MapZero(_, vaddr, bits) => v[Key(r, vaddr, 0) := See(Entry(true, bits, 0), Zeros())]
    case Store(_, vaddr, b) => EagerStore(v, Key(r, vaddr, 0), vaddr % PAGE, b)
    case Unmap(_, vaddr) => v - {Key(r, vaddr, 0)}
    case Free(_) => EagerFree(v, r)
    case Dealloc(_) => EagerFree(v, r)
    case _ => v
  }

  predicate InPlace(op: Op) {
    !op.Create? && !op.Clone? && !op.Dealloc?
  }

  // In-place steps change one space only, and change it as the eager model says.
  lemma InPlaceRelated(v: Spaces, roots: seq<Option<nat>>, e: Eager, op: Op)
    requires Related(v, roots, e) && InPlace(op) && Alive(roots, op.i)
    ensures Related(SeenAfter(v, op, roots[op.i].value), roots, EagerStep(e, op))
  {
    var i, r := op.i, roots[op.i].value;
    var w := SeenAfter(v, op, r);
    var m := OwnOf(v, r);
    assert e[i] == Some(m);
    assert op.MapFresh? || op.MapZero? || op.Store? || op.Unmap? ==> Key(r, op.vaddr, 0).path == PathOf(op.vaddr) by {
      if op.MapFresh? || op.MapZero? || op.Store? || op.Unmap? {
        assert PathOf(op.vaddr)[..3] == PathOf(op.vaddr);
      }
    }
    forall root: nat ensures OwnOf(w, root) == if root == r then OwnAfter(m, op) else OwnOf(v, root) {
      OwnOfAfter(v, op, r, root);
    }
    RelatedUpdate(v, w, roots, e, i, OwnAfter(m, op));
    assert e[i := Some(m)] == e;
  }

  // One space after an in-place step.
  function OwnAfter(m: Own, op: Op): Own {
    match op
    case MapFresh(_, vaddr, bits, bytes) => m[PathOf(vaddr) := See(Entry(true, bits, 0), bytes)]
    case MapZero(_, vaddr, bits) => m[PathOf(vaddr) := See(Entry(true, bits, 0), Zeros())]
    case Store(_, vaddr, b) => StoreOwn(m, vaddr, b)
    case Unmap(_, vaddr) => m - {PathOf(vaddr)}
    case Free(_) => map[]
    case _ => m
  }

  lemma OwnOfAfter(v: Spaces, op: Op, r: nat, root: nat)
    requires InPlace(op)
    ensures OwnOf(SeenAfter(v, op, r), root) == if root == r then OwnAfter(OwnOf(v, root), op) else OwnOf(v, root)
  {
    match op
    case MapFresh(_, vaddr, bits, bytes) =>
      assert PathOf(vaddr)[..3] == PathOf(vaddr);
      OwnOfPut(v, Key(r, vaddr, 0), See(Entry(true, bits, 0), bytes), root);
    case MapZero(_, vaddr, bits) =>
      assert PathOf(vaddr)[..3] == PathOf(vaddr);
      OwnOfPut(v, Key(r, vaddr, 0), See(Entry(true, bits, 0), Zeros()), root);
    case Store(_, vaddr, b) =>
      var l := Key(r, vaddr, 0);
      assert l == Loc(r, PathOf(vaddr)) by {
        assert PathOf(vaddr)[..3] == PathOf(vaddr);
      }
      OwnOfAt(v, root);
      if l in v && v[l].writable {
        OwnOfPut(v, l, v[l].(bytes := v[l].bytes[vaddr % PAGE := b]), root);
      }
    case Unmap(_, vaddr) =>
      assert PathOf(vaddr)[..3] == PathOf(vaddr);
      OwnOfRemove(v, Key(r, vaddr, 0), root);
    case Free(_) =>
      OwnOfFree(v, r, root);
    case _ =>
  }

  lemma CloneRelated(v: Spaces, roots: seq<Option<nat>>, e: Eager, i: nat, dst: nat)
    requires Related(v, roots, e) && Alive(roots, i) && forall p: seq<nat> :: Loc(dst, p) !in v
    requires forall j :: 0 <= j < |roots| && roots[j].Some? ==> roots[j].value != dst
    ensures Related(EagerClone(v, roots[i].value, dst), roots + [Some(dst)], EagerStep(e, Clone(i)))
  {
    forall r: nat ensures OwnOf(EagerClone(v, roots[i].value, dst), r) == if r == dst then OwnOf(v, roots[i].value)
        else OwnOf(v, r) {
      OwnOfClone(v, roots[i].value, dst, r);
    }
  }

  lemma DeallocRelated(v: Spaces, roots: seq<Option<nat>>, e: Eager, i: nat)
    requires Related(v, roots, e) && Alive(roots, i)
    ensures Related(EagerFree(v, roots[i].value), roots[i := None], EagerStep(e, Dealloc(i)))
  {
    forall r: nat | r != roots[i].value ensures OwnOf(EagerFree(v, roots[i].value), r) == OwnOf(v, r) {
      OwnOfFree(v, roots[i].value, r);
    }
  }

  lemma CreateRelated(v: Spaces, roots: seq<Option<nat>>, e: Eager, dst: nat)
    requires Related(v, roots, e) && forall p: seq<nat> :: Loc(dst, p) !in v
    requires forall j :: 0 <= j < |roots| && roots[j].Some? ==> roots[j].value != dst
    ensures Related(v, roots + [Some(dst)], EagerStep(e, Create))
  {
    OwnOfAt(v, dst);
    assert OwnOf(v, dst) == map[];
  }

  ghost predicate AllRoots(at: map<Loc, nat>, roots: seq<Option<nat>>) {
    forall i :: 0 <= i < |roots| && roots[i].Some? ==> Loc(roots[i].value, []) in at
  }

  // A new root is not one of those that are known, and joins them.
  lemma NewRoot(at: map<Loc, nat>, at': map<Loc, nat>, roots: seq<Option<nat>>, r: nat)
    requires AllRoots(at, roots) && Loc(r, []) !in at && Loc(r, []) in at' && forall l :: l in at ==> l in at'
    ensures AllRoots(at', roots + [Some(r)])
    ensures forall j :: 0 <= j < |roots| && roots[j].Some? ==> roots[j].value != r
  {
  }

  lemma RootGone(at: map<Loc, nat>, at': map<Loc, nat>, v: Spaces, roots: seq<Option<nat>>, e: Eager, i: nat)
    requires AllRoots(at, roots) && Related(v, roots, e) && Alive(roots, i)
    requires forall l :: l in at && l.root != roots[i].value ==> l in at'
    ensures AllRoots(at', roots[i := None])
  {
  }

  method StepInPlace(ms: MemorySpaces, r: nat, op: Op)
    requires ms.Valid() && Proper(op) && InPlace(op) && ms.pt.IsRoot(r)
    modifies ms`pages, ms.pt, ms.refs
    ensures ms.Valid() && ms.Seen() == SeenAfter(old(ms.Seen()), op, r)
    ensures forall r: nat :: Loc(r, []) in old(ms.pt.forest.at) ==> Loc(r, []) in ms.pt.forest.at
  {
    match op
    case MapFresh(_, vaddr, bits, bytes) => ms.MapFreshPage(r, vaddr, bits, bytes);
    case MapZero(_, vaddr, bits) => ms.MapZeroPage(r, vaddr, bits);
    case PageFault(_, vaddr) => var _ := ms.HandlePageFault(r, vaddr);
    case Store(_, vaddr, b) => var _ := ms.Store(r, vaddr, b);
    case Unmap(_, vaddr) => ms.UnmapAndFreePage(r, vaddr);
    case Free(_) => ms.FreeMemorySpace(r);
  }

  method StepCreate(ms: MemorySpaces, roots: seq<Option<nat>>, ghost e: Eager) returns (roots': seq<Option<nat>>)
    requires ms.Valid() && AllRoots(ms.pt.forest.at, roots) && Related(ms.Seen(), roots, e)
    modifies ms`pages, ms.pt, ms.refs
    ensures ms.Valid() && AllRoots(ms.pt.forest.at, roots') && Related(ms.Seen(), roots', EagerStep(e, Create))
  {
    ghost var v := ms.Seen();
    ghost var at_ := ms.pt.forest.at;
    var r := ms.CreateMemorySpace();
    roots' := roots + [Some(r)];
    NewRoot(at_, ms.pt.forest.at, roots, r);
    CreateRelated(v, roots, e, r);
  }

  method StepClone(ms: MemorySpaces, roots: seq<Option<nat>>, i: nat, ghost e: Eager) returns (roots': seq<Option<nat>>)
    requires ms.Valid() && AllRoots(ms.pt.forest.at, roots) && Related(ms.Seen(), roots, e) && Alive(roots, i)
    modifies ms`pages, ms.pt, ms.refs
    ensures ms.Valid() && AllRoots(ms.pt.forest.at, roots') && Related(ms.Seen(), roots', EagerStep(e, Clone(i)))
  {
    ghost var v := ms.Seen();
    ghost var at_ := ms.pt.forest.at;
    var r := ms.CloneMemorySpace(roots[i].value);
    roots' := roots + [Some(r)];
    NewRoot(at_, ms.pt.forest.at, roots, r);
    CloneRelated(v, roots, e, i, r);
  }

  method StepDealloc(ms: MemorySpaces, roots: seq<Option<nat>>, i: nat, ghost e: Eager)
    returns (roots': seq<Option<nat>>)
    requires ms.Valid() && AllRoots(ms.pt.forest.at, roots) && Related(ms.Seen(), roots, e) && Alive(roots, i)
    modifies ms`pages, ms.pt, ms.refs
    ensures ms.Valid() && AllRoots(ms.pt.forest.at, roots') && Related(ms.Seen(), roots', EagerStep(e, Dealloc(i)))
  {
    ghost var v := ms.Seen();
    ghost var at_ := ms.pt.forest.at;
    ms.DeallocMemorySpace(roots[i].value);
    roots' := roots[i := None];
    RootGone(at_, ms.pt.forest.at, v, roots, e, i);
    DeallocRelated(v, roots, e, i);
  }

  method Step(ms: MemorySpaces, roots: seq<Option<nat>>, op: Op, ghost e: Eager) returns (roots': seq<Option<nat>>)
    requires ms.Valid() && Proper(op) && AllRoots(ms.pt.forest.at, roots) && Related(ms.Seen(), roots, e)
    modifies ms`pages, ms.pt, ms.refs
    ensures ms.Valid() && AllRoots(ms.pt.forest.at, roots') && Related(ms.Seen(), roots', EagerStep(e, op))
  {
    roots' := roots;
    if op.Create? {
      roots' := StepCreate(ms, roots, e);
    } else if Alive(roots, op.i) {
      if op.Clone? {
        roots' := StepClone(ms, roots, op.i, e);
      } else if op.Dealloc? {
        roots' := StepDealloc(ms, roots, op.i, e);
      } else {
        ghost var v := ms.Seen();
        StepInPlace(ms, roots[op.i].value, op);
        InPlaceRelated(v, roots, e, op);
      }
    }
  }

  // Copy-on-write refines eager copying, over every run from any state, and what has been lost stays lost.
  method Continue(ms: MemorySpaces, roots: seq<Option<nat>>, ops: seq<Op>, ghost e: Eager)
    returns (roots': seq<Option<nat>>)
    requires ms.Valid() && AllRoots(ms.pt.forest.at, roots) && Related(ms.Seen(), roots, e)
    requires forall op :: op in ops ==> Proper(op)
    modifies ms, ms.pt, ms.refs
    ensures ms.Valid() && AllRoots(ms.pt.forest.at, roots') && Related(ms.Seen(), roots', EagerRun(e, ops))
    ensures forall f :: Lost(old(ms.Abs()), f) ==> Lost(ms.Abs(), f)
  {
    ms.Observe();
    roots' := Steps(ms, roots, ops, e);
    forall f | Lost(old(ms.Abs()), f) ensures Lost(ms.Abs(), f) {
      assert f in ms.lost;
    }
  }

  method Steps(ms: MemorySpaces, roots: seq<Option<nat>>, ops: seq<Op>, ghost e: Eager)
    returns (roots': seq<Option<nat>>)
    requires ms.Valid() && AllRoots(ms.pt.forest.at, roots) && Related(ms.Seen(), roots, e)
    requires forall op :: op in ops ==> Proper(op)
    modifies ms`pages, ms.pt, ms.refs
    ensures ms.Valid() && AllRoots(ms.pt.forest.at, roots') && Related(ms.Seen(), roots', EagerRun(e, ops))
  {
    roots' := roots;
    for n := 0 to |ops|
      invariant ms.Valid() && AllRoots(ms.pt.forest.at, roots') && Related(ms.Seen(), roots', EagerRun(e, ops[..n]))
    {
      roots' := Step(ms, roots', ops[n], EagerRun(e, ops[..n]));
      assert ops[..n + 1][..n] == ops[..n];
    }
    assert ops[..|ops|] == ops;
  }

  // In particular from the empty system.
  method Run(hash: nat -> nat, ops: seq<Op>) returns (ms: MemorySpaces, roots: seq<Option<nat>>)
    requires forall op :: op in ops ==> Proper(op)
    ensures fresh(ms) && ms.Valid() && Related(ms.Seen(), roots, EagerRun([], ops))
  {
    ms := new MemorySpaces(hash);
    roots := Continue(ms, [], ops, []);
  }
}
