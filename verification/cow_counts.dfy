// How far the recorded counts of kernel/src/memory/memspace.c are from the numbers of mappings: which steps make them
// too high, and which frames are never given back because of it.
module CowCounts {
  import opened Basics
  import opened PageTableSpec
  import opened CowSpec

  // By how much the count of a frame is too high. (The invariant of CowSpec says that it is not too low.)
  ghost function Slack(s: Sys, f: nat): int {
    Count(s.refs, f) - |Holders(s, f)|
  }

  // Every count is the number of mappings.
  ghost predicate Exact(s: Sys) {
    forall f {:trigger Slack(s, f)} :: f in s.pages && f != s.zero ==> Slack(s, f) == 0
  }

  // ---- What every step does to every count

  // A fault that copies leaves the count of the old frame one too high; it is the fault of a shared frame.
  lemma FaultSlack(s: Sys, l: Loc, next: nat, f: nat)
    requires Inv(s) && l in s.leaves && s.leaves[l].flags.copy && next !in s.pages
    requires f in Fault(s, l, next).pages && f != s.zero
    ensures Slack(Fault(s, l, next), f)
         == if f == next then 0
            else if f == s.leaves[l].frame && Count(s.refs, f) > 1 then Slack(s, f) + 1
            else Slack(s, f)
  {
    FaultHolders(s, l, next);
    assert LeafOk(s, l) && FrameOk(s, f);
    assert l in Holders(s, s.leaves[l].frame);
    if f != s.leaves[l].frame {
      assert l !in Holders(s, f);
    } else if Count(s.refs, f) <= 1 {
      SoleHolder(s, f, l);
    }
  }

  lemma ShareSlack(s: Sys, l: Loc, d: Loc, f: nat)
    requires Inv(s) && l in s.leaves && d !in s.leaves && f in s.pages && f != s.zero
    ensures Slack(Share(s, l, d), f) == Slack(s, f)
  {
    ShareHolders(s, l, d);
    assert d !in Holders(s, f);
  }

  lemma FreeSlack(s: Sys, l: Loc, f: nat)
    requires Inv(s) && l in s.leaves && f in Free(s, l).pages && f != s.zero
    ensures Slack(Free(s, l), f) == Slack(s, f)
  {
    FreeCases(s, l);
    FreeHolders(s, l, f);
    assert FrameOk(s, f);
    if f != s.leaves[l].frame {
      assert l !in Holders(s, f);
    }
  }

  // Mapping a page over another one leaves the count of the other frame one too high.
  lemma MapSlack(s: Sys, l: Loc, e: Entry, t: Sys, f: nat)
    requires Inv(s) && t.leaves == s.leaves[l := e] && t.refs == s.refs && t.zero == s.zero
    requires e.frame !in s.pages || e.frame == s.zero
    requires (f in s.pages || f == e.frame) && f != s.zero
    ensures Slack(t, f)
         == if f == e.frame then 0
            else if l in s.leaves && f == s.leaves[l].frame then Slack(s, f) + 1
            else Slack(s, f)
  {
    MapHolders(s, l, e, t);
    assert FrameOk(s, f);
    if f == e.frame {
      NoHolders(s, f);
    } else {
      assert l in Holders(s, f) <==> l in s.leaves && f == s.leaves[l].frame;
    }
  }

  lemma StoreSlack(s: Sys, l: Loc, off: nat, b: byte, f: nat)
    requires l in s.leaves && s.leaves[l].frame in s.pages && off < PAGE
    ensures Slack(StoreByte(s, l, off, b), f) == Slack(s, f)
  {
    assert Holders(StoreByte(s, l, off, b), f) == Holders(s, f);
  }

  // ---- Exactly when the counts stay exact

  lemma FaultExactIff(s: Sys, l: Loc, next: nat)
    requires Inv(s) && Exact(s) && l in s.leaves && s.leaves[l].flags.copy && next !in s.pages
    ensures Exact(Fault(s, l, next)) <==> s.leaves[l].frame == s.zero || Count(s.refs, s.leaves[l].frame) <= 1
  {
    var t, f0 := Fault(s, l, next), s.leaves[l].frame;
    assert LeafOk(s, l);
    forall f | f in t.pages && f != t.zero
      ensures Slack(t, f) == if f != next && f == f0 && Count(s.refs, f) > 1 then 1 else 0
    {
      FaultSlack(s, l, next, f);
      assert f in s.pages ==> Slack(s, f) == 0;
    }
    assert f0 in t.pages && Slack(t, f0) == Slack(t, f0);
  }

  lemma ShareExact(s: Sys, l: Loc, d: Loc)
    requires Inv(s) && Exact(s) && l in s.leaves && d !in s.leaves
    ensures Exact(Share(s, l, d))
  {
    var t := Share(s, l, d);
    forall f | f in t.pages && f != t.zero ensures Slack(t, f) == 0 {
      ShareSlack(s, l, d, f);
      assert Slack(s, f) == 0;
    }
  }

  lemma FreeExact(s: Sys, l: Loc)
    requires Inv(s) && Exact(s) && l in s.leaves
    ensures Exact(Free(s, l))
  {
    var t := Free(s, l);
    FreeCases(s, l);
    forall f | f in t.pages && f != t.zero ensures Slack(t, f) == 0 {
      FreeSlack(s, l, f);
      assert Slack(s, f) == 0;
    }
  }

  lemma MapFreshExactIff(s: Sys, l: Loc, e: Entry, bytes: Page)
    requires Inv(s) && Exact(s) && e.frame !in s.pages
    ensures Exact(MapFresh(s, l, e, bytes)) <==> l !in s.leaves || s.leaves[l].frame == s.zero
  {
    MapExact(s, l, e, MapFresh(s, l, e, bytes));
  }

  lemma MapZeroExactIff(s: Sys, l: Loc, e: Entry)
    requires Inv(s) && Exact(s) && e.frame == s.zero
    ensures Exact(MapZero(s, l, e)) <==> l !in s.leaves || s.leaves[l].frame == s.zero
  {
    MapExact(s, l, e, MapZero(s, l, e));
  }

  lemma MapExact(s: Sys, l: Loc, e: Entry, t: Sys)
    requires Inv(s) && Exact(s) && t.leaves == s.leaves[l := e] && t.refs == s.refs && t.zero == s.zero
    requires e.frame !in s.pages || e.frame == s.zero
    requires t.pages.Keys == s.pages.Keys + {e.frame}
    ensures Exact(t) <==> l !in s.leaves || s.leaves[l].frame == s.zero
  {
    assert LeafOk(s, l);
    forall f | f in t.pages && f != t.zero
      ensures Slack(t, f) == if f != e.frame && l in s.leaves && f == s.leaves[l].frame then 1 else 0
    {
      MapSlack(s, l, e, t, f);
      assert f in s.pages ==> Slack(s, f) == 0;
    }
    if l in s.leaves {
      assert Slack(t, s.leaves[l].frame) == Slack(t, s.leaves[l].frame);
    }
  }

  // ---- Frames that are never given back

  // Allocated, and mapped nowhere.
  ghost predicate Lost(s: Sys, f: nat) {
    f in s.pages && f != s.zero && Holders(s, f) == {}
  }

  // Exactly which frames every step loses. A fault and the removal of an entry lose a frame that has no other mapping
  // but has a recorded count.
  lemma FaultLosesIff(s: Sys, l: Loc, next: nat, f: nat)
    requires Inv(s) && l in s.leaves && s.leaves[l].flags.copy && next !in s.pages
    ensures Lost(Fault(s, l, next), f) <==>
              Lost(s, f) || (f == s.leaves[l].frame && f != s.zero && Holders(s, f) == {l} && f in s.refs)
  {
    FaultHolders(s, l, next);
    var f0 := s.leaves[l].frame;
    assert LeafOk(s, l) && FrameOk(s, f0);
    assert l in Holders(s, f0);
    if f != f0 {
      assert l !in Holders(s, f);
    }
  }

  lemma FreeLosesIff(s: Sys, l: Loc, f: nat)
    requires Inv(s) && l in s.leaves
    ensures Lost(Free(s, l), f) <==>
              Lost(s, f) || (f == s.leaves[l].frame && f != s.zero && Holders(s, f) == {l} && f in s.refs)
  {
    var f0 := s.leaves[l].frame;
    assert LeafOk(s, l) && FrameOk(s, f0);
    FreeCases(s, l);
    FreeHolders(s, l, f);
    if f != f0 {
      assert l !in Holders(s, f);
    }
  }

  // Mapping a page over another one loses a frame that has no other mapping, whether it has a recorded count or not.
  lemma MapFreshLosesIff(s: Sys, l: Loc, e: Entry, bytes: Page, f: nat)
    requires Inv(s) && e.frame !in s.pages
    ensures Lost(MapFresh(s, l, e, bytes), f) <==> Lost(s, f) || (f != s.zero && Holders(s, f) == {l})
  {
    MapLosesIff(s, l, e, MapFresh(s, l, e, bytes), f);
  }

  lemma MapZeroLosesIff(s: Sys, l: Loc, e: Entry, f: nat)
    requires Inv(s) && e.frame == s.zero
    ensures Lost(MapZero(s, l, e), f) <==> Lost(s, f) || (f != s.zero && Holders(s, f) == {l})
  {
    MapLosesIff(s, l, e, MapZero(s, l, e), f);
  }

  lemma MapLosesIff(s: Sys, l: Loc, e: Entry, t: Sys, f: nat)
    requires Inv(s) && t.leaves == s.leaves[l := e] && t.zero == s.zero && (e.frame !in s.pages || e.frame == s.zero)
    requires t.pages.Keys == s.pages.Keys + {e.frame}
    ensures Lost(t, f) <==> Lost(s, f) || (f != s.zero && Holders(s, f) == {l})
  {
    MapHolders(s, l, e, t);
    if f !in s.pages {
      NoHolders(s, f);
    }
  }

  // The other steps lose nothing.
  lemma ShareLosesNone(s: Sys, l: Loc, d: Loc, f: nat)
    requires Inv(s) && l in s.leaves && d !in s.leaves
    ensures Lost(Share(s, l, d), f) <==> Lost(s, f)
  {
    ShareHolders(s, l, d);
    assert l in Holders(s, s.leaves[l].frame);
  }

  lemma StoreLosesNone(s: Sys, l: Loc, off: nat, b: byte, f: nat)
    requires l in s.leaves && s.leaves[l].frame in s.pages && off < PAGE
    ensures Lost(StoreByte(s, l, off, b), f) <==> Lost(s, f)
  {
    assert Holders(StoreByte(s, l, off, b), f) == Holders(s, f);
  }

  // No step gets a frame back that has been lost.
  ghost predicate AllLost(s: Sys, lost: set<nat>) {
    forall f {:trigger Lost(s, f)} :: f in lost ==> Lost(s, f)
  }

  // The invariant, and a set of frames that are lost.
  ghost predicate Kept(s: Sys, lost: set<nat>) {
    Inv(s) && AllLost(s, lost)
  }

  lemma FaultKept(s: Sys, l: Loc, next: nat, lost: set<nat>)
    requires Kept(s, lost) && l in s.leaves && s.leaves[l].flags.copy && next !in s.pages
    ensures Kept(Fault(s, l, next), lost)
  {
    FaultKeeps(s, l, next);
    forall f | f in lost ensures Lost(Fault(s, l, next), f) {
      assert Lost(s, f);
      FaultLosesIff(s, l, next, f);
    }
  }

  lemma FreeKept(s: Sys, l: Loc, lost: set<nat>)
    requires Kept(s, lost) && l in s.leaves
    ensures Kept(Free(s, l), lost)
  {
    FreeKeeps(s, l);
    forall f | f in lost ensures Lost(Free(s, l), f) {
      assert Lost(s, f);
      FreeLosesIff(s, l, f);
    }
  }

  lemma ShareKept(s: Sys, l: Loc, d: Loc, lost: set<nat>)
    requires Kept(s, lost) && l in s.leaves && d !in s.leaves
    ensures Kept(Share(s, l, d), lost)
  {
    ShareKeeps(s, l, d);
    forall f | f in lost ensures Lost(Share(s, l, d), f) {
      assert Lost(s, f);
      ShareLosesNone(s, l, d, f);
    }
  }

  lemma MapFreshKept(s: Sys, l: Loc, e: Entry, bytes: Page, lost: set<nat>)
    requires Kept(s, lost) && e.frame !in s.pages && e.v && Durable(e) && !e.flags.global
    ensures Kept(MapFresh(s, l, e, bytes), lost)
  {
    MapFreshKeeps(s, l, e, bytes);
    forall f | f in lost ensures Lost(MapFresh(s, l, e, bytes), f) {
      assert Lost(s, f);
      MapFreshLosesIff(s, l, e, bytes, f);
    }
  }

  lemma MapZeroKept(s: Sys, l: Loc, e: Entry, lost: set<nat>)
    requires Kept(s, lost) && e.frame == s.zero && e.v && Durable(e) && !e.flags.global && !e.flags.write
    ensures Kept(MapZero(s, l, e), lost)
  {
    MapZeroKeeps(s, l, e);
    forall f | f in lost ensures Lost(MapZero(s, l, e), f) {
      assert Lost(s, f);
      MapZeroLosesIff(s, l, e, f);
    }
  }

  lemma StoreKept(s: Sys, l: Loc, off: nat, b: byte, lost: set<nat>)
    requires Kept(s, lost) && l in s.leaves && s.leaves[l].flags.write && off < PAGE
    ensures s.leaves[l].frame in s.pages && Kept(StoreByte(s, l, off, b), lost)
  {
    StoreByteKeeps(s, l, off, b);
    forall f | f in lost ensures Lost(StoreByte(s, l, off, b), f) {
      assert Lost(s, f);
      StoreLosesNone(s, l, off, b, f);
    }
  }

  // It happens to every page that has been cloned and is written on both sides, which is the usual case after a fork.
  lemma CloneWriteBothLeaks(s: Sys, l: Loc, d: Loc, next: nat, next': nat)
    requires Inv(s) && l in s.leaves && d !in s.leaves && s.leaves[l].flags.write && s.leaves[l].frame !in s.refs
    requires next !in s.pages && next' !in s.pages && next != next'
    ensures Fault(Share(s, l, d), l, next).leaves.Keys == s.leaves.Keys + {d}
    ensures Lost(Fault(Fault(Share(s, l, d), l, next), d, next'), s.leaves[l].frame)
  {
    var f := s.leaves[l].frame;
    assert LeafOk(s, l);
    ShareKeeps(s, l, d);
    ShareHolders(s, l, d);
    var a := Share(s, l, d);
    FaultKeeps(a, l, next);
    FaultHolders(a, l, next);
    FaultLosesIff(Fault(a, l, next), d, next', f);
  }

  // And to every page that is written by its owner after it has been cloned, when the clone frees it.
  lemma CloneWriteFreeLeaks(s: Sys, l: Loc, d: Loc, next: nat)
    requires Inv(s) && l in s.leaves && d !in s.leaves && s.leaves[l].flags.write && s.leaves[l].frame !in s.refs
    requires next !in s.pages
    ensures Fault(Share(s, l, d), l, next).leaves.Keys == s.leaves.Keys + {d}
    ensures var f, t := s.leaves[l].frame, Free(Fault(Share(s, l, d), l, next), d);
      Lost(t, f) && f !in t.refs
  {
    var f := s.leaves[l].frame;
    assert LeafOk(s, l);
    ShareKeeps(s, l, d);
    ShareHolders(s, l, d);
    var a := Share(s, l, d);
    FaultKeeps(a, l, next);
    FaultHolders(a, l, next);
    FreeLosesIff(Fault(a, l, next), d, f);
  }

  // One space with one page that it may write.
  function OnePage(): Sys {
    Sys(1, map[Loc(7, [0, 0, 0]) := Entry(true, NO_FLAGS.(read := true, write := true), 2)],
        map[1 := Zeros(), 2 := Zeros()], map[])
  }

  lemma OnePageOk()
    ensures Inv(OnePage()) && Exact(OnePage()) && Holders(OnePage(), 2) == {Loc(7, [0, 0, 0])}
  {
    var s, l := OnePage(), Loc(7, [0, 0, 0]);
    assert Holders(s, 2) == {l};
    forall f | f != 2 ensures Holders(s, f) == {} {
    }
    forall x ensures LeafOk(s, x) {
    }
    forall f ensures FrameOk(s, f) {
    }
    assert Slack(s, 2) == 0;
  }

  // Its page is cloned and written, and then the clone frees it or writes it too.
  lemma LeakExample()
    ensures var s, l, d := OnePage(), Loc(7, [0, 0, 0]), Loc(8, [0, 0, 0]);
      var t := Fault(Share(s, l, d), l, 3);
      d in t.leaves && Lost(Free(t, d), 2) && 2 !in Free(t, d).refs && Lost(Fault(t, d, 4), 2)
  {
    OnePageOk();
    CloneWriteFreeLeaks(OnePage(), Loc(7, [0, 0, 0]), Loc(8, [0, 0, 0]), 3);
    CloneWriteBothLeaks(OnePage(), Loc(7, [0, 0, 0]), Loc(8, [0, 0, 0]), 3, 4);
  }

  // Another page is mapped over it. There is no recorded count, the count is too high, and the frame is lost.
  lemma MapOverExample()
    ensures var s, l := OnePage(), Loc(7, [0, 0, 0]);
      var t := MapFresh(s, l, s.leaves[l].(frame := 3), Zeros());
      Exact(s) && 2 !in t.refs && Slack(t, 2) == 1 && Lost(t, 2)
  {
    var s, l := OnePage(), Loc(7, [0, 0, 0]);
    OnePageOk();
    var e := s.leaves[l].(frame := 3);
    MapFreshLosesIff(s, l, e, Zeros(), 2);
    MapSlack(s, l, e, MapFresh(s, l, e, Zeros()), 2);
    assert Slack(s, 2) == 0;
  }
}
