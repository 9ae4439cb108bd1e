// kernel/src/memory/allocator.c, for the byte allocator (kalloc.c) on top of the page allocator (pagealloc.c).
module Allocators {
  import opened Basics
  import opened Multiples
  import opened FreeListSpec
  import opened AllocatorSpec

  // The first range that is large enough.
  ghost predicate FirstFit(l: seq<Range>, size: nat, k: nat) {
    k < |l| && l[k].size >= size && forall i :: 0 <= i < k ==> l[i].size < size
  }

  // findFreeMemoryThatFits
  method FindFit(l: seq<Range>, size: nat) returns (k: Option<nat>)
    ensures k == None <==> forall i :: 0 <= i < |l| ==> l[i].size < size
    ensures k.Some? ==> FirstFit(l, size, k.value)
  {
    for i := 0 to |l|
      invariant forall j :: 0 <= j < i ==> l[j].size < size
    {
      if l[i].size >= size {
        return Some(i);
      }
    }
    return None;
  }

  // The loop of insertFreeMemory: the ranges before the new one, which joins the last of them if it touches it.
  method FindPlace(l0: seq<Range>, mem0: Range) returns (l: seq<Range>, mem: Range, i: nat, ghost k: nat)
    requires Sorted(l0) && Clear(l0, mem0) && mem0.size > 0
    ensures Between(l0, mem0, k) && i == |Left(l0, mem0, k)| && l == Left(l0, mem0, k) + l0[k..]
    ensures mem == if TouchesLeft(l0, mem0, k) then Range(l0[k - 1].start, l0[k - 1].size + mem0.size) else mem0
  {
    mem, l, i := mem0, l0, 0;
    ghost var merged := false;
    while i < |l| && l[i].start < mem.start
      invariant i <= |l|
      invariant !merged ==> mem == mem0 && l == l0 && forall j :: 0 <= j < i ==> End(l0[j]) < mem0.start
      invariant merged ==>
                  && i < |l0| && l == l0[..i] + l0[i + 1..] && End(l0[i]) == mem0.start
                  && mem == Range(l0[i].start, l0[i].size + mem0.size)
      decreases |l| - i
    {
      if End(l[i]) == mem.start {
        mem, merged := Range(l[i].start, l[i].size + mem.size), true;
        l := l[..i] + l[i + 1..];
      } else {
        i := i + 1;
      }
    }
    if merged {
      k := i + 1;
      PlaceBehind(l0, mem0, i);
    } else {
      k := i;
      PlaceBetween(l0, mem0, i);
    }
  }

  lemma PlaceBetween(l: seq<Range>, mem: Range, i: nat)
    requires Sorted(l) && Clear(l, mem) && mem.size > 0 && i <= |l|
    requires (forall j :: 0 <= j < i ==> End(l[j]) < mem.start) && (i < |l| ==> l[i].start >= mem.start)
    ensures Between(l, mem, i) && !TouchesLeft(l, mem, i) && Left(l, mem, i) == l[..i] && l == l[..i] + l[i..]
  {
    forall j | i <= j < |l| ensures End(mem) <= l[j].start {
      assert i < j ==> End(l[i]) <= l[j].start;
    }
  }

  lemma PlaceBehind(l: seq<Range>, mem: Range, i: nat)
    requires Sorted(l) && Clear(l, mem) && mem.size > 0 && i < |l| && End(l[i]) == mem.start
    ensures Between(l, mem, i + 1) && TouchesLeft(l, mem, i + 1) && Left(l, mem, i + 1) == l[..i]
  {
    forall j | i < j < |l| ensures End(mem) <= l[j].start {
      assert End(l[i]) <= l[j].start;
    }
  }

  // insertFreeMemory. The range has been put behind the first `k` ranges, and is now part of the one at `i`.
  method InsertFree(l0: seq<Range>, mem0: Range) returns (l: seq<Range>, i: nat, ghost k: nat)
    requires Sorted(l0) && Clear(l0, mem0) && mem0.size > 0
    ensures Between(l0, mem0, k) && l == Insert(l0, mem0, k)
    ensures i < |l| && l[i] == Merged(l0, mem0, k)
  {
    var mem;
    l, mem, i, k := FindPlace(l0, mem0);
    ghost var f, g := Left(l0, mem0, k), l0[k..];
    assert l[..i] == f && l[i..] == g && End(mem) == End(mem0);
    if i < |l| && End(mem) == l[i].start {
      assert l[i] == g[0] == l0[k];
      assert l[i + 1..] == g[1..] == l0[k + 1..];
      var r := Range(mem.start, mem.size + l[i].size);
      assert r == Merged(l0, mem0, k);
      l := l[..i] + [r] + l[i + 1..];
    } else {
      assert !TouchesRight(l0, mem0, k);
      assert mem == Merged(l0, mem0, k);
      l := l[..i] + [mem] + l[i..];
    }
  }

  class Allocators {
    const c: Setup
    var top: seq<Range>
    var back: seq<Range>
    ghost var live: set<nat>
    ghost var lent: set<nat>
    ghost var pages: set<nat>

    ghost function State(): Memory
      reads this
    {
      Memory(top, back, live, lent, pages)
    }

    ghost predicate Valid()
      reads this
    {
      Ok(State(), c)
    }

    // The upper allocator begins with memory of its own (small_buffer of kalloc.c) or with none (blockcache.c), the
    // page allocator with the heap.
    constructor (setup: Setup, heap: Range)
      requires BlockSize(setup.block) && BlockSize(PAGE) && Block(heap, PAGE)
      requires setup.special.size == 0 || Block(setup.special, setup.block)
      requires End(setup.special) <= heap.start || End(heap) <= setup.special.start
      ensures Valid() && c == setup && top == (if setup.special.size == 0 then [] else [setup.special])
      ensures back == [heap] && live == {} && pages == {}
    {
      c, top, back := setup, if setup.special.size == 0 then [] else [setup.special], [heap];
      live, lent, pages := {}, {}, {};
      new;
      forall a: nat ensures AddrOk(State(), c, a) {
        HasIff(top, a);
        HasIff(back, a);
      }
    }

    // The page allocator, for its other callers: allocMemory
    method AllocPages(size: nat) returns (p: Option<nat>)
      requires Valid() && Whole(size, PAGE)
      modifies this`back, this`pages
      ensures Valid()
      ensures p == None <==> size == 0 || forall i :: 0 <= i < |old(back)| ==> old(back)[i].size < size
      ensures p == None ==> back == old(back) && pages == old(pages)
      ensures forall k: nat :: size > 0 && FirstFit(old(back), size, k) ==> p == Some(old(back)[k].start)
      ensures p.Some? ==> var r := Range(p.value, size);
        && pages == old(pages) + Addrs(r) && Addrs(r) !! old(pages) && Addrs(r) !! lent
        && Whole(p.value, PAGE) && p.value >= PAGE && (forall a: nat :: In(r, a) ==> Has(old(back), a))
        && forall a: nat :: Has(back, a) <==> Has(old(back), a) && !In(r, a)
    {
      if size == 0 {
        return None;
      }
      var k := FindFit(back, size);
      if k == None {
        return None;
      }
      p := Some(back[k.value].start);
      TakeBackOk(State(), c, k.value, size);
      assert Block(back[k.value], PAGE);
      forall a: nat ensures Has(Take(back, k.value, size, PAGE), a) <==> Has(back, a) && !In(Range(p.value, size), a) {
        NothingLost(back, k.value, size, PAGE, a);
      }
      forall a: nat | In(Range(p.value, size), a) ensures Has(back, a) {
        Elsewhere(back, k.value, a);
      }
      pages := pages + Addrs(Range(p.value, size));
      back := Take(back, k.value, size, PAGE);
    }

    // deallocMemory
    method DeallocPages(ptr: nat, size: nat)
      requires Valid() && Whole(size, PAGE) && Whole(ptr, PAGE) && ptr >= PAGE && Addrs(Range(ptr, size)) <= pages
      modifies this`back, this`pages
      ensures Valid() && pages == old(pages) - Addrs(Range(ptr, size))
      ensures forall a: nat :: Has(back, a) <==> Has(old(back), a) || In(Range(ptr, size), a)
    {
      if size != 0 {
        var r := Range(ptr, size);
        forall a: nat | In(r, a) ensures !Has(back, a) && a !in lent && !In(c.special, a) {
          assert a in Addrs(r) && AddrOk(State(), c, a);
        }
        GivePages(r);
      }
    }

    // Giving back at once what has been allocated restores the very same list.
    method AllocAndDealloc(size: nat) returns (p: Option<nat>)
      requires Valid() && Whole(size, PAGE)
      modifies this`back, this`pages
      ensures Valid() && back == old(back) && pages == old(pages)
    {
      p := AllocPages(size);
      if p.Some? {
        DeallocPages(p.value, size);
        CanonicalUnique(back, old(back));
      }
    }

    method GivePages(r: Range)
      requires Valid() && Whole(r.start, PAGE) && Whole(r.size, PAGE) && r.size > 0 && r.start >= PAGE
      requires forall a: nat :: In(r, a) ==> !Has(back, a) && a !in lent && !In(c.special, a)
      modifies this`back, this`pages
      ensures Valid() && pages == old(pages) - Addrs(r)
      ensures forall a: nat :: Has(back, a) <==> Has(old(back), a) || In(r, a)
    {
      ClearOf(back, r);
      var l, i;
      ghost var k;
      l, i, k := InsertFree(back, r);
      PageRange(r, c.block);
      GiveBackOk(State(), c, r, k);
      forall a: nat ensures Has(l, a) <==> Has(back, a) || In(r, a) {
        InsertHas(back, r, k, a);
      }
      pages := pages - Addrs(r);
      back := l;
    }

    // Whether some free address of either level is at `a`.
    ghost predicate Free(a: nat)
      reads this
    {
      Has(top, a) || Has(back, a)
    }

    // addNewMemory: whole pages from the page allocator join the list.
    method AddNewMemory(size: nat) returns (i: Option<nat>)
      requires Valid() && size > 0
      modifies this`top, this`back, this`lent
      ensures Valid() && (i.Some? ==> i.value < |top| && top[i.value].size >= size)
      ensures i == None <==> forall j :: 0 <= j < |old(back)| ==> old(back)[j].size < Down(size + PAGE - 1)
      ensures i == None ==> top == old(top) && back == old(back) && lent == old(lent)
      ensures forall a: nat :: Free(a) <==> old(Free(a))
    {
      var backingSize := Down(size + PAGE - 1);
      var k := FindFit(back, backingSize);
      if k == None {
        return None;
      }
      var r := Range(back[k.value].start, backingSize);
      LendClear(State(), c, k.value, backingSize);
      var l, at_;
      ghost var j;
      l, at_, j := InsertFree(top, r);
      LendOk(State(), c, k.value, backingSize, j);
      forall a: nat ensures Has(l, a) || Has(Take(back, k.value, backingSize, PAGE), a) <==> Free(a) {
        InsertHas(top, r, j, a);
        NothingLost(back, k.value, backingSize, PAGE, a);
        Elsewhere(back, k.value, a);
      }
      i := Some(at_);
      back := Take(back, k.value, backingSize, PAGE);
      lent := lent + Addrs(r);
      top := l;
    }

    // allocMemory and basicAllocMemory of the upper allocator. The block is taken from the free range `used`, whose
    // rest is lost if and only if it is smaller than a header.
    method Alloc(size: nat) returns (p: Option<nat>, ghost used: Range)
      requires Valid() && Whole(size, c.block)
      modifies this`top, this`back, this`lent, this`live
      ensures Valid()
      ensures p == None <==>
                || size == 0
                || (&& (forall i :: 0 <= i < |old(top)| ==> old(top)[i].size < size)
                    && (forall i :: 0 <= i < |old(back)| ==> old(back)[i].size < Down(size + PAGE - 1)))
      ensures p == None ==> live == old(live) && top == old(top) && back == old(back) && lent == old(lent)
      ensures p.Some? ==> var r := Range(p.value, size);
        && live == old(live) + Addrs(r) && Addrs(r) !! old(live) && Addrs(r) !! pages
        && used.start == p.value && size <= used.size && (forall a: nat :: In(used, a) ==> old(Free(a)))
        && (forall a: nat :: Free(a) <==> old(Free(a)) && !In(r, a) && !(In(used, a) && used.size - size < HEADER))
      ensures size > 0 && (exists i :: 0 <= i < |old(top)| && old(top)[i].size >= size) ==> back == old(back)
      ensures forall k: nat :: size > 0 && FirstFit(old(top), size, k) ==> p == Some(old(top)[k].start)
    {
      used := Range(0, 0);
      if size == 0 {
        return None, used;
      }
      var k := FindFit(top, size);
      if k == None {
        k := AddNewMemory(size);
      }
      if k == None {
        return None, used;
      }
      p, used := Some(top[k.value].start), top[k.value];
      TakeFrom(k.value, size);
    }

    method TakeFrom(k: nat, size: nat)
      requires Valid() && k < |top| && 0 < size <= top[k].size && Whole(size, c.block)
      modifies this`top, this`live
      ensures Valid()
      ensures var r, used := Range(old(top)[k].start, size), old(top)[k];
        && live == old(live) + Addrs(r) && Addrs(r) !! old(live) && Addrs(r) !! pages
        && (forall a: nat :: In(used, a) ==> old(Free(a)))
        && (forall a: nat :: Free(a) <==> old(Free(a)) && !In(r, a) && !(In(used, a) && used.size - size < HEADER))
    {
      ghost var r, used := Range(top[k].start, size), top[k];
      TakeTopOk(State(), c, k, size);
      forall a: nat
        ensures Has(Take(top, k, size, c.block), a) || Has(back, a)
           <==> Free(a) && !In(r, a) && !(In(used, a) && used.size - size < HEADER)
        ensures (In(r, a) ==> a !in pages) && (In(used, a) ==> Has(top, a))
      {
        TakeHas(top, k, size, c.block, a);
        Elsewhere(top, k, a);
        assert AddrOk(State(), c, a);
      }
      live := live + Addrs(r);
      top := Take(top, k, size, c.block);
    }

    // tryFreeingOldMemory: pages go back if they are whole and there are enough of them. What lies behind the last page
    // boundary is then lost, and nothing else.
    method TryFreeing(i: nat)
      requires Valid() && i < |top| && top[i].start >= PAGE
      modifies this`top, this`back, this`lent, this`pages
      ensures Valid() && pages == old(pages)
      ensures forall a: nat :: Has(top, a) ==> Has(old(top), a)
      ensures forall a: nat :: Has(back, a) ==> Has(old(back), a) || (Has(old(top), a) && a in old(lent))
      ensures var mem := old(top)[i];
        forall a: nat :: Free(a) <==>
          old(Free(a)) && !(Trimmed(mem, c.least, c.special) && MemEnd(mem) <= a < End(mem))
    {
      assert Block(top[i], c.block);
      if Trimmed(top[i], c.least, c.special) {
        var t := TrimRange(top[i], c.least, c.special);
        TrimTopOk(State(), c, i);
        ghost var mem, was := top[i], State();
        forall a: nat
          ensures Has(top[..i] + t.rest + top[i + 1..], a) <==>
                    Has(top, a) && !In(t.pages, a) && !(MemEnd(mem) <= a < End(mem))
          ensures In(t.pages, a) ==> Has(top, a) && a < MemEnd(mem)
          ensures Has(back, a) ==> !(MemEnd(mem) <= a < End(mem))
        {
          TrimTopHas(top, i, c.least, c.special, a);
          Elsewhere(top, i, a);
          assert AddrOk(was, c, a);
        }
        lent := lent - Addrs(t.pages);
        top := top[..i] + t.rest + top[i + 1..];
        if t.pages.size != 0 {
          ReturnPages(t.pages, was);
        }
      }
    }

    // The pages that had been lent are given back to the page allocator.
    method ReturnPages(r: Range, ghost was: Memory)
      requires Valid() && Ok(was, c) && Whole(r.start, PAGE) && Whole(r.size, PAGE) && r.size > 0 && r.start >= PAGE
      requires Addrs(r) <= was.lent && lent == was.lent - Addrs(r) && pages == was.pages
      requires forall a: nat :: In(r, a) ==> !Has(back, a)
      modifies this`back, this`pages
      ensures Valid() && pages == old(pages)
      ensures forall a: nat :: Has(back, a) <==> Has(old(back), a) || In(r, a)
    {
      forall a: nat | In(r, a) ensures a !in lent && !In(c.special, a) && a !in pages {
        assert a in Addrs(r) && AddrOk(was, c, a);
      }
      GivePages(r);
      assert pages == old(pages);
    }

    // deallocMemory of the upper allocator. The block becomes part of the free range `merged`, of which the end is
    // lost if pages of it go back and it does not end with a page.
    method Dealloc(ptr: nat, size: nat) returns (ghost merged: Range)
      requires Valid() && Whole(size, c.block) && (size == 0 || size >= HEADER) && Whole(ptr, c.block) && ptr >= PAGE
      requires Addrs(Range(ptr, size)) <= live
      modifies this`top, this`back, this`lent, this`live, this`pages
      ensures Valid() && live == old(live) - Addrs(Range(ptr, size)) && pages == old(pages)
      ensures merged.start >= PAGE && merged.start <= ptr && ptr + size <= End(merged)
      ensures forall a: nat :: In(merged, a) ==> Has(old(top), a) || In(Range(ptr, size), a)
      ensures forall a: nat :: Free(a) <==>
                && (old(Free(a)) || In(Range(ptr, size), a))
                && !(size > 0 && Trimmed(merged, c.least, c.special) && MemEnd(merged) <= a < End(merged))
    {
      merged := Range(ptr, size);
      if size != 0 {
        var i := GiveRange(Range(ptr, size));
        merged := top[i];
        TryFreeing(i);
      }
    }

    method GiveRange(r: Range) returns (i: nat)
      requires Valid() && Block(r, c.block) && Addrs(r) <= live
      modifies this`top, this`live
      ensures Valid() && i < |top| && live == old(live) - Addrs(r)
      ensures top[i].start >= PAGE && top[i].start <= r.start && End(r) <= End(top[i])
      ensures forall a: nat :: In(top[i], a) ==> Has(old(top), a) || In(r, a)
      ensures forall a: nat :: Has(top, a) <==> Has(old(top), a) || In(r, a)
    {
      forall a: nat | In(r, a) ensures !Has(top, a) {
        assert a in Addrs(r) && AddrOk(State(), c, a);
      }
      ClearOf(top, r);
      var l;
      ghost var j;
      l, i, j := InsertFree(top, r);
      GiveTopOk(State(), c, r, j);
      assert Block(l[i], c.block);
      forall a: nat ensures Has(l, a) <==> Has(top, a) || In(r, a) {
        InsertHas(top, r, j, a);
      }
      forall a: nat | In(l[i], a) ensures Has(l, a) {
        HasIff(l, a);
      }
      live := live - Addrs(r);
      top := l;
    }
  }
}
