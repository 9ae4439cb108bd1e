// Two allocators of kernel/src/memory/allocator.c, one on top of the other, as kernel/src/memory/kalloc.c and
// pagealloc.c set them up: who owns which address.
module AllocatorSpec {
  import opened Basics
  import opened Multiples
  import opened FreeListSpec

  // The free lists of the two levels; the addresses that callers of the upper level hold, those that the lower level
  // has lent to the upper one, and those that other callers of the lower level hold.
  datatype Memory = Memory(top: seq<Range>, back: seq<Range>, live: set<nat>, lent: set<nat>, pages: set<nat>)

  // What the upper allocator is set up with: its block size, memory of its own, and how much it gives back at least.
  datatype Setup = Setup(block: nat, special: Range, least: nat)

  function Addrs(r: Range): (s: set<nat>)
    ensures forall a: nat :: a in s <==> In(r, a)
  {
    set a: nat | a < End(r) && In(r, a)
  }

  // An address is free on one level, or held by one caller, or neither.
  ghost predicate AddrOk(m: Memory, c: Setup, a: nat) {
    && (Has(m.top, a) ==> a !in m.live && (a in m.lent || In(c.special, a)))
    && (a in m.live ==> a in m.lent || In(c.special, a))
    && (Has(m.back, a) ==> a !in m.lent && a !in m.pages && !In(c.special, a))
    && (a in m.lent ==> a !in m.pages && !In(c.special, a))
    && (a in m.pages ==> !In(c.special, a))
  }

  ghost predicate ListsOk(m: Memory, c: Setup) {
    && BlockSize(c.block) && BlockSize(PAGE)
    && Sorted(m.top) && Blocks(m.top, c.block) && (c.least > 0 ==> Coalesced(m.top))
    && Sorted(m.back) && Blocks(m.back, PAGE) && Coalesced(m.back)
  }

  ghost predicate Ok(m: Memory, c: Setup) {
    ListsOk(m, c) && forall a {:trigger AddrOk(m, c, a)} :: AddrOk(m, c, a)
  }

  // A range with no free address is clear of all ranges of the list.
  lemma ClearOf(l: seq<Range>, mem: Range)
    requires Sorted(l) && mem.size > 0 && forall a: nat :: In(mem, a) ==> !Has(l, a)
    ensures Clear(l, mem)
  {
    forall i | 0 <= i < |l| ensures End(l[i]) <= mem.start || End(mem) <= l[i].start {
      var a := if l[i].start < mem.start then mem.start else l[i].start;
      HasIff(l, a);
    }
  }

  // ---- The steps of the upper level

  function TakeTop(m: Memory, c: Setup, k: nat, size: nat): Memory
    requires k < |m.top| && c.block > 0
  {
    m.(top := Take(m.top, k, size, c.block), live := m.live + Addrs(Range(m.top[k].start, size)))
  }

  // Memory that is handed out was free, and was held by nobody.
  lemma TakeTopOk(m: Memory, c: Setup, k: nat, size: nat)
    requires Ok(m, c) && k < |m.top| && 0 < size <= m.top[k].size && Whole(size, c.block)
    ensures Ok(TakeTop(m, c, k, size), c) && Addrs(Range(m.top[k].start, size)) !! m.live
    ensures forall a: nat :: In(Range(m.top[k].start, size), a) ==> Has(m.top, a)
  {
    var r, n := Range(m.top[k].start, size), TakeTop(m, c, k, size);
    TakeSorted(m.top, k, size, c.block);
    TakeBlocks(m.top, k, size, c.block);
    forall a: nat ensures AddrOk(n, c, a) && (In(r, a) ==> Has(m.top, a) && a !in m.live) {
      assert AddrOk(m, c, a);
      TakeHas(m.top, k, size, c.block, a);
      Elsewhere(m.top, k, a);
    }
  }

  function GiveTop(m: Memory, r: Range, j: nat): Memory
    requires j <= |m.top|
  {
    m.(top := Insert(m.top, r, j), live := m.live - Addrs(r))
  }

  lemma GiveTopOk(m: Memory, c: Setup, r: Range, j: nat)
    requires Ok(m, c) && Block(r, c.block) && Addrs(r) <= m.live && Between(m.top, r, j)
    ensures Ok(GiveTop(m, r, j), c)
  {
    InsertSorted(m.top, r, j);
    InsertBlocks(m.top, r, j, c.block);
    forall a: nat ensures AddrOk(GiveTop(m, r, j), c, a) {
      assert AddrOk(m, c, a);
      assert In(r, a) ==> a in Addrs(r);
      InsertHas(m.top, r, j, a);
    }
  }

  // ---- Memory that changes levels

  function Lend(m: Memory, k: nat, size: nat, j: nat): Memory
    requires k < |m.back| && j <= |m.top|
  {
    var r := Range(m.back[k].start, size);
    m.(back := Take(m.back, k, size, PAGE), top := Insert(m.top, r, j), lent := m.lent + Addrs(r))
  }

  lemma LendOk(m: Memory, c: Setup, k: nat, size: nat, j: nat)
    requires Ok(m, c) && k < |m.back| && 0 < size <= m.back[k].size && Whole(size, PAGE)
    requires Between(m.top, Range(m.back[k].start, size), j)
    ensures Ok(Lend(m, k, size, j), c)
  {
    var r, n := Range(m.back[k].start, size), Lend(m, k, size, j);
    TakeSorted(m.back, k, size, PAGE);
    TakeBlocks(m.back, k, size, PAGE);
    PageRange(r, c.block);
    InsertSorted(m.top, r, j);
    InsertBlocks(m.top, r, j, c.block);
    forall a: nat ensures AddrOk(n, c, a) {
      LendAddr(m, c, k, size, j, a);
    }
  }

  lemma LendAddr(m: Memory, c: Setup, k: nat, size: nat, j: nat, a: nat)
    requires Ok(m, c) && k < |m.back| && 0 < size <= m.back[k].size && Whole(size, PAGE)
    requires Between(m.top, Range(m.back[k].start, size), j)
    ensures AddrOk(Lend(m, k, size, j), c, a)
  {
    assert AddrOk(m, c, a);
    TakeHas(m.back, k, size, PAGE, a);
    Elsewhere(m.back, k, a);
    InsertHas(m.top, Range(m.back[k].start, size), j, a);
  }

  lemma PageRange(r: Range, block: nat)
    requires BlockSize(block) && BlockSize(PAGE)
    requires Whole(r.start, PAGE) && Whole(r.size, PAGE) && r.size > 0 && r.start >= PAGE
    ensures Block(r, PAGE) && Block(r, block)
  {
    WholeOfWhole(r.start, PAGE, block);
    WholeOfWhole(r.size, PAGE, block);
    Apart(0, r.size, PAGE);
  }

  // What the page allocator would find is not in the upper list.
  lemma LendClear(m: Memory, c: Setup, k: nat, size: nat)
    requires Ok(m, c) && k < |m.back| && 0 < size <= m.back[k].size
    ensures Clear(m.top, Range(m.back[k].start, size))
  {
    var r := Range(m.back[k].start, size);
    forall a: nat | In(r, a) ensures !Has(m.top, a) {
      Elsewhere(m.back, k, a);
      assert AddrOk(m, c, a);
    }
    ClearOf(m.top, r);
  }

  // The list with the range at `i` trimmed, and without the pages.
  function TrimTop(m: Memory, c: Setup, i: nat): Memory
    requires i < |m.top| && m.top[i].start >= PAGE && Trimmed(m.top[i], c.least, c.special)
  {
    var t := TrimRange(m.top[i], c.least, c.special);
    m.(top := m.top[..i] + t.rest + m.top[i + 1..], lent := m.lent - Addrs(t.pages))
  }

  lemma TrimTopLists(l: seq<Range>, i: nat, c: Setup)
    requires BlockSize(c.block) && Sorted(l) && Blocks(l, c.block) && i < |l| && Trimmed(l[i], c.least, c.special)
    ensures var t := l[..i] + TrimRange(l[i], c.least, c.special).rest + l[i + 1..];
      Sorted(t) && Blocks(t, c.block) && (c.least > 0 && Coalesced(l) ==> Coalesced(t))
  {
    assert Block(l[i], c.block);
    var f, rest, g := l[0..i], TrimRange(l[i], c.least, c.special).rest, l[i + 1..|l|];
    TrimSafe(l[i], c.least, c.special);
    TrimBlocks(l[i], c.least, c.special, c.block);
    UncoalescedIff(l[i], c.least, c.special);
    Replaced(l, i, rest);
    SubBlocks(l, 0, i, c.block);
    SubBlocks(l, i + 1, |l|, c.block);
    assert l[..i] == f && l[i + 1..] == g;
    assert Blocks(f + rest, c.block);
    assert Blocks(f + rest + g, c.block);
  }

  // Putting smaller ranges in the place of one.
  lemma Replaced(l: seq<Range>, i: nat, rest: seq<Range>)
    requires Sorted(l) && i < |l| && Sorted(rest)
    requires forall j :: 0 <= j < |rest| ==> l[i].start <= rest[j].start && End(rest[j]) <= End(l[i])
    ensures var t := l[..i] + rest + l[i + 1..]; Sorted(t) && (Coalesced(l) && Coalesced(rest) ==> Coalesced(t))
  {
    var t := l[..i] + rest + l[i + 1..];
    var d := |rest| - 1;
    assert forall x :: 0 <= x < |t| ==>
           t[x] == if x < i then l[x] else if x < i + |rest| then rest[x - i] else l[x - d];
    forall x, y | 0 <= x < y < |t|
      ensures End(t[x]) <= t[y].start && (Coalesced(l) && Coalesced(rest) ==> End(t[x]) != t[y].start)
    {
      if x < i {
        assert End(l[x]) <= l[i].start;
        assert y >= i + |rest| ==> End(l[x]) <= l[y - d].start;
      } else if x < i + |rest| && y >= i + |rest| {
        assert End(l[i]) <= l[y - d].start;
      }
    }
  }

  // What stays, what goes, and that an address is lost if and only if it lies behind the last page boundary.
  lemma TrimTopHas(l: seq<Range>, i: nat, least: nat, special: Range, a: nat)
    requires Sorted(l) && i < |l| && l[i].start >= PAGE && Trimmed(l[i], least, special)
    ensures var t := TrimRange(l[i], least, special);
      && (Has(l[..i] + t.rest + l[i + 1..], a) <==>
            Has(l, a) && !In(t.pages, a) && !(MemEnd(l[i]) <= a < End(l[i])))
      && (In(t.pages, a) ==> Has(l, a) && !In(special, a) && a < MemEnd(l[i]))
  {
    var t := TrimRange(l[i], least, special);
    TrimSafe(l[i], least, special);
    TrimLost(l[i], least, special, a);
    Elsewhere(l, i, a);
    HasConcat(l[..i] + t.rest, l[i + 1..], a);
    HasConcat(l[..i], t.rest, a);
    HasIff(t.rest, a);
  }

  // What goes back had been lent, and is not free any more on the upper level.
  lemma TrimTopOk(m: Memory, c: Setup, i: nat)
    requires Ok(m, c) && i < |m.top| && m.top[i].start >= PAGE && Trimmed(m.top[i], c.least, c.special)
    ensures Ok(TrimTop(m, c, i), c)
    ensures var p := TrimRange(m.top[i], c.least, c.special).pages;
      && Addrs(p) <= m.lent && Whole(p.start, PAGE) && Whole(p.size, PAGE) && p.start >= PAGE
      && forall a: nat :: In(p, a) ==> !Has(m.back, a)
  {
    var n, p := TrimTop(m, c, i), TrimRange(m.top[i], c.least, c.special).pages;
    TrimTopLists(m.top, i, c);
    assert Block(m.top[i], c.block);
    TrimBlocks(m.top[i], c.least, c.special, c.block);
    TrimSafe(m.top[i], c.least, c.special);
    forall a: nat ensures AddrOk(n, c, a) && (In(p, a) ==> a in m.lent && !Has(m.back, a)) {
      assert AddrOk(m, c, a);
      TrimTopHas(m.top, i, c.least, c.special, a);
    }
  }

  // ---- The steps of the lower level

  function GiveBack(m: Memory, r: Range, j: nat): Memory
    requires j <= |m.back|
  {
    m.(back := Insert(m.back, r, j), pages := m.pages - Addrs(r))
  }

  lemma GiveBackOk(m: Memory, c: Setup, r: Range, j: nat)
    requires Ok(m, c) && Block(r, PAGE) && Between(m.back, r, j)
    requires forall a: nat :: In(r, a) ==> a !in m.lent && !In(c.special, a)
    ensures Ok(GiveBack(m, r, j), c)
  {
    InsertSorted(m.back, r, j);
    InsertBlocks(m.back, r, j, PAGE);
    forall a: nat ensures AddrOk(GiveBack(m, r, j), c, a) {
      assert AddrOk(m, c, a);
      InsertHas(m.back, r, j, a);
    }
  }

  function TakeBack(m: Memory, k: nat, size: nat): Memory
    requires k < |m.back|
  {
    m.(back := Take(m.back, k, size, PAGE), pages := m.pages + Addrs(Range(m.back[k].start, size)))
  }

  lemma TakeBackOk(m: Memory, c: Setup, k: nat, size: nat)
    requires Ok(m, c) && k < |m.back| && 0 < size <= m.back[k].size && Whole(size, PAGE)
    ensures Ok(TakeBack(m, k, size), c)
    ensures Addrs(Range(m.back[k].start, size)) !! m.pages && Addrs(Range(m.back[k].start, size)) !! m.lent
  {
    var r := Range(m.back[k].start, size);
    TakeSorted(m.back, k, size, PAGE);
    TakeBlocks(m.back, k, size, PAGE);
    forall a: nat ensures AddrOk(TakeBack(m, k, size), c, a) && (In(r, a) ==> a !in m.pages && a !in m.lent) {
      assert AddrOk(m, c, a);
      TakeHas(m.back, k, size, PAGE, a);
      Elsewhere(m.back, k, a);
    }
  }
}
