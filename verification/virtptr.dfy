// kernel/src/memory/virtptr.c: buffers of other address spaces as lists of physically contiguous parts.
module VirtPtrs {
  import opened Basics
  import Pages = PageTableSpec

  const PAGE: nat := Pages.PAGE

  // No page table at all, or the leaves of one, of any size.
  datatype Space = Direct | Mapped(leaves: map<Pages.Loc, Pages.Entry>, root: nat)

  datatype VirtPtr = VirtPtr(address: nat, space: Space, allowAll: bool)

  predicate Permitted(e: Pages.Entry, write: bool, allowAll: bool) {
    allowAll || if write then e.flags.write else e.flags.read
  }

  // virtToPhys (kernel/src/memory/memspace.c) once page faults have been resolved: the translation of the page table,
  // or 0 if there is none or it is not permitted.
  function Phys(p: VirtPtr, va: nat, write: bool): nat {
    match p.space
    case Direct => va
    case Mapped(leaves, root) =>
      match Pages.Hit(leaves, root, va)
      case None => 0
      case Some(level) =>
        if Permitted(leaves[Pages.Key(root, va, level)], write, p.allowAll) then Pages.Translate(leaves, root, va)
            else 0
  }

  // No page that is looked at waits for its copy.
  ghost predicate Resolved(p: VirtPtr, length: nat, write: bool) {
    write && p.space.Mapped? ==>
      forall va: nat :: p.address <= va <= p.address + length + PAGE ==>
        match Pages.Hit(p.space.leaves, p.space.root, va)
        case None => true
        case Some(level) =>
          var flags := p.space.leaves[Pages.Key(p.space.root, va, level)].flags;
          flags.copy ==> flags.write
  }

  // Addresses of one page lie in the same page of every size.
  lemma SameQuotients(va: nat, k: nat)
    requires va % PAGE + k < PAGE
    ensures (va + k) / 0x1000 == va / 0x1000
    ensures (va + k) / 0x20_0000 == va / 0x20_0000
    ensures (va + k) / 0x4000_0000 == va / 0x4000_0000
  {
    var q, r := va / 0x1000, va % 0x1000;
    var q1, r1 := q / 512, q % 512;
    var q2, r2 := q1 / 512, q1 % 512;
    Quotient1(va, k, q1, 0x1000 * r1 + r);
    Quotient2(va, k, q2, 0x20_0000 * r2 + 0x1000 * r1 + r);
  }

  lemma Quotient1(va: nat, k: nat, q: nat, r: nat)
    requires va == 0x20_0000 * q + r && r + k < 0x20_0000
    ensures (va + k) / 0x20_0000 == q == va / 0x20_0000
  {
  }

  lemma Quotient2(va: nat, k: nat, q: nat, r: nat)
    requires va == 0x4000_0000 * q + r && r + k < 0x4000_0000
    ensures (va + k) / 0x4000_0000 == q == va / 0x4000_0000
  {
  }

  lemma SamePage(p: VirtPtr, va: nat, k: nat, write: bool)
    requires Phys(p, va, write) != 0 && va % PAGE + k < PAGE
    ensures Phys(p, va + k, write) == Phys(p, va, write) + k
  {
    SameQuotients(va, k);
    if p.space.Mapped? {
      SamePlace(va, k, p.space.root);
    }
  }

  lemma SamePlace(va: nat, k: nat, root: nat)
    requires (va + k) / 0x1000 == va / 0x1000
    requires (va + k) / 0x20_0000 == va / 0x20_0000
    requires (va + k) / 0x4000_0000 == va / 0x4000_0000
    ensures forall l: nat :: l <= 2 ==> Pages.Key(root, va + k, l) == Pages.Key(root, va, l)
    ensures forall l: nat :: l <= 2 ==> Pages.AlignDown(va + k, l) == Pages.AlignDown(va, l)
  {
    assert Pages.PathOf(va + k) == Pages.PathOf(va);
  }

  // ---- Parts

  datatype Part = Part(address: nat, offset: nat, length: nat)

  // The bytes from `from` up to `to` lie next to each other in physical memory.
  ghost predicate Contiguous(p: VirtPtr, write: bool, from: nat, to: nat) {
    && Phys(p, from, write) != 0
    && forall va: nat {:trigger Phys(p, va, write)} :: from <= va < to ==>
        Phys(p, va, write) == Phys(p, from, write) + (va - from)
  }

  // A part is not empty, its bytes are where the translation says, and the next part begins where it ends but somewhere
  // else in physical memory.
  ghost predicate PartOk(p: VirtPtr, write: bool, parts: seq<Part>, i: nat)
    requires i < |parts|
  {
    var part := parts[i];
    && part.length > 0 && part.address == Phys(p, p.address + part.offset, write)
    && Contiguous(p, write, p.address + part.offset, p.address + part.offset + part.length)
    && (i == 0 ==> part.offset == 0)
    && (i + 1 < |parts| ==>
        parts[i + 1].offset == part.offset + part.length && parts[i + 1].address != part.address + part.length)
  }

  function PartsEnd(parts: seq<Part>): nat {
    if parts == [] then 0 else parts[|parts| - 1].offset + parts[|parts| - 1].length
  }

  // The parts divide the first `m` bytes of the buffer into maximal contiguous runs.
  ghost predicate Divides(p: VirtPtr, write: bool, parts: seq<Part>, m: nat) {
    PartsEnd(parts) == m && forall i: nat {:trigger PartOk(p, write, parts, i)} :: i < |parts| ==>
        PartOk(p, write, parts, i)
  }

  // `m` is how much of the buffer is there: all of it, or what comes before the first byte that is not mapped.
  ghost predicate Present(p: VirtPtr, write: bool, length: nat, m: nat) {
    && m <= length && (m < length ==> Phys(p, p.address + m, write) == 0)
    && forall va: nat {:trigger Phys(p, va, write)} :: p.address <= va < p.address + m ==> Phys(p, va, write) != 0
  }

  function NextPage(va: nat): (n: nat)
    ensures va < n <= va + PAGE && n % PAGE == 0
    ensures va % PAGE + (n - va) == PAGE
  {
    (va / PAGE + 1) * PAGE
  }

  // A run that reaches `at_` goes on up to the end of the page.
  lemma ExtendRun(p: VirtPtr, write: bool, from: nat, at_: nat)
    requires Contiguous(p, write, from, at_) && from <= at_
             && (from < at_ ==> Phys(p, at_, write) == Phys(p, from, write) + (at_ - from))
    ensures Contiguous(p, write, from, NextPage(at_))
  {
    forall va: nat | from <= va < NextPage(at_) ensures Phys(p, va, write) == Phys(p, from, write) + (va - from) {
      if va >= at_ {
        SamePage(p, at_, va - at_, write);
      }
    }
  }

  // One more part.
  lemma AppendPart(p: VirtPtr, write: bool, parts: seq<Part>, m: nat, part: Part)
    requires Divides(p, write, parts, m) && part.offset == m && part.length > 0
    requires part.address == Phys(p, p.address + m, write)
             && Contiguous(p, write, p.address + m, p.address + m + part.length)
    requires parts != [] ==> part.address != parts[|parts| - 1].address + parts[|parts| - 1].length
    ensures Divides(p, write, parts + [part], m + part.length)
  {
    var all := parts + [part];
    forall i: nat | i < |all| ensures PartOk(p, write, all, i) {
      assert i < |parts| ==> PartOk(p, write, parts, i);
    }
  }

  lemma {:induction false} PartOf(p: VirtPtr, write: bool, parts: seq<Part>, m: nat, i: nat)
    requires Divides(p, write, parts, m) && i < |parts|
    ensures PartOk(p, write, parts, i) && parts[i].offset + parts[i].length <= m
    decreases |parts| - i
  {
    assert PartOk(p, write, parts, i);
    if i + 1 < |parts| {
      PartOf(p, write, parts, m, i + 1);
    }
  }

  // The parts before `part` have been found, and the run that begins there goes on up to `next`.
  ghost predicate PartsUpTo(p: VirtPtr, write: bool, end: nat, part: nat, next: nat, all: seq<Part>) {
    && p.address <= end && p.address <= part <= next <= Max(end, part)
    && Divides(p, write, all, Min(part, end) - p.address)
    && (part < next ==>
        Contiguous(p, write, part, next) && Phys(p, next, write) == Phys(p, part, write) + (next - part))
    && (all != [] && part < end ==> Phys(p, part, write) != all[|all| - 1].address + all[|all| - 1].length)
  }

  function NewPart(p: VirtPtr, write: bool, end: nat, part: nat, next: nat): Part
    requires p.address <= part < next && part < end
  {
    Part(Phys(p, part, write), part - p.address, if next > end then end - part else next - part)
  }

  // The run stops at the end of a page: there is a new part.
  lemma RunStops(p: VirtPtr, write: bool, end: nat, part: nat, at_: nat, all: seq<Part>)
    requires PartsUpTo(p, write, end, part, at_, all) && part < end && Phys(p, part, write) != 0
    requires var next := NextPage(at_); next > end || Phys(p, next, write) != Phys(p, part, write) + (next - part)
    ensures var next := NextPage(at_); PartsUpTo(p, write, end, next, next, all + [NewPart(p, write, end, part, next)])
  {
    var next := NextPage(at_);
    ExtendRun(p, write, part, at_);
    AppendPart(p, write, all, part - p.address, NewPart(p, write, end, part, next));
  }

  // The run goes on behind the end of a page.
  lemma RunGoesOn(p: VirtPtr, write: bool, end: nat, part: nat, at_: nat, all: seq<Part>)
    requires PartsUpTo(p, write, end, part, at_, all) && part < end && Phys(p, part, write) != 0
    requires var next := NextPage(at_); next <= end && Phys(p, next, write) == Phys(p, part, write) + (next - part)
    ensures PartsUpTo(p, write, end, part, NextPage(at_), all)
  {
    ExtendRun(p, write, part, at_);
  }

  // What is there of a buffer in terms of the flags of its pages: all bytes before `m` are permitted, and the next
  // one is not, or its translation is 0.
  lemma PresentFlags(p: VirtPtr, write: bool, length: nat, m: nat)
    requires Present(p, write, length, m) && p.space.Mapped?
    ensures forall va: nat {:trigger Pages.FlagsAt(p.space.leaves, p.space.root, va)} ::
              p.address <= va < p.address + m ==>
                var flags := Pages.FlagsAt(p.space.leaves, p.space.root, va);
                flags.Some? && (p.allowAll || if write then flags.value.write else flags.value.read)
    ensures m < length ==>
              var flags := Pages.FlagsAt(p.space.leaves, p.space.root, p.address + m);
              && (flags.Some? && (p.allowAll || if write then flags.value.write else flags.value.read) ==>
                    Pages.Translate(p.space.leaves, p.space.root, p.address + m) == 0)
  {
    forall va: nat {:trigger Pages.FlagsAt(p.space.leaves, p.space.root, va)} | p.address <= va < p.address + m
      ensures var flags := Pages.FlagsAt(p.space.leaves, p.space.root, va);
        flags.Some? && (p.allowAll || if write then flags.value.write else flags.value.read)
    {
      var pa := Phys(p, va, write);
    }
  }

  // getVirtPtrParts, with the parts that fit into `maxParts` places.
  method GetParts(p: VirtPtr, length: nat, maxParts: nat, write: bool)
    returns (count: nat, parts: seq<Part>, ghost all: seq<Part>, ghost m: nat)
    requires Resolved(p, length, write)
    ensures count == |all| && parts == all[..Min(count, maxParts)]
    ensures Divides(p, write, all, m) && Present(p, write, length, m)
    ensures p.space.Mapped? ==>
              && (forall va: nat {:trigger Pages.FlagsAt(p.space.leaves, p.space.root, va)} ::
                    p.address <= va < p.address + m ==>
                      var flags := Pages.FlagsAt(p.space.leaves, p.space.root, va);
                      flags.Some? && (p.allowAll || if write then flags.value.write else flags.value.read))
              && (m < length ==>
                    var flags := Pages.FlagsAt(p.space.leaves, p.space.root, p.address + m);
                    (flags.Some? && (p.allowAll || if write then flags.value.write else flags.value.read) ==>
                       Pages.Translate(p.space.leaves, p.space.root, p.address + m) == 0))
  {
    count, parts, all, m := FindParts(p, length, maxParts, write);
    if p.space.Mapped? {
      PresentFlags(p, write, length, m);
    }
  }

  // Its loop.
  method FindParts(p: VirtPtr, length: nat, maxParts: nat, write: bool)
    returns (count: nat, parts: seq<Part>, ghost all: seq<Part>, ghost m: nat)
    ensures count == |all| && parts == all[..Min(count, maxParts)]
    ensures Divides(p, write, all, m) && Present(p, write, length, m)
  {
    count, parts, all := 0, [], [];
    var end := p.address + length;
    var part: nat, next: nat := p.address, p.address;
    while part < end
      invariant count == |all| && parts == all[..Min(count, maxParts)] && PartsUpTo(p, write, end, part, next, all)
      decreases end + PAGE - next
    {
      var at_ := next;
      next := NextPage(next);
      var physStart: int := Phys(p, part, write);
      if physStart == 0 {
        m := part - p.address;
        DividesPresent(p, write, all, m);
        return;
      }
      var physEnd := Phys(p, next, write);
      if physEnd - physStart != next - part || next > end {
        RunStops(p, write, end, part, at_, all);
        if count < maxParts {
          parts := parts + [NewPart(p, write, end, part, next)];
        }
        all := all + [NewPart(p, write, end, part, next)];
        part := next;
        count := count + 1;
      } else {
        RunGoesOn(p, write, end, part, at_, all);
      }
    }
    m := length;
    DividesPresent(p, write, all, m);
  }

  // ---- The first call for a buffer that is written

  // `short` is what the first translation falls short by: its offset in the page, if it has resolved a fault.
  ghost predicate Short(p: VirtPtr, write: bool, short: nat) {
    short == 0 || (short == p.address % PAGE && p.space.Mapped? && Phys(p, p.address, write) > short)
  }

  // The first page is taken for a part of its own although the run goes on.
  ghost predicate Extra(p: VirtPtr, length: nat, write: bool, short: nat) {
    var next := NextPage(p.address);
    short > 0 && next < p.address + length && Phys(p, next, write) == Phys(p, p.address, write) + (next - p.address)
  }

  // An address that falls short is never found to be next to the following page.
  lemma ShortApart(p: VirtPtr, write: bool, short: nat, start: nat, next: nat, end: nat)
    requires Short(p, write, short) && short > 0 && next == NextPage(p.address)
    requires start == Phys(p, p.address, write) && end == Phys(p, next, write)
    ensures end - (start - short) != next - p.address
  {
    PageOffset(p, p.address, write, start);
    PageOffset(p, next, write, end);
    NotAPage(end, start, short, next - p.address);
  }

  lemma NotAPage(end: nat, start: nat, short: nat, size: nat)
    requires end % 0x1000 == 0 && start % 0x1000 == short && short > 0 && size + short == 0x1000
    ensures end - (start - short) != size
  {
    var e, q := end / 0x1000, start / 0x1000;
    assert end - (start - short) == 0x1000 * (e - q);
  }

  // Translation keeps the offset in a page.
  lemma PageOffset(p: VirtPtr, va: nat, write: bool, pa: nat)
    requires pa == Phys(p, va, write) && (va % PAGE == 0 || (p.space.Mapped? && pa != 0))
    ensures pa % PAGE == va % PAGE
  {
    if p.space.Mapped? && pa != 0 {
      var level := Pages.Hit(p.space.leaves, p.space.root, va).value;
      var frame := p.space.leaves[Pages.Key(p.space.root, va, level)].frame * Pages.PAGE;
      var a := WholePages(frame, level);
      var b := WholePages(va, level);
      SameOffset(pa, a, va, b);
    }
  }

  lemma SameOffset(pa: nat, a: nat, va: nat, b: nat)
    requires pa == a * 0x1000 + (va - b * 0x1000)
    ensures pa % 0x1000 == va % 0x1000
  {
    var q, r := va / 0x1000, va % 0x1000;
    assert pa == 0x1000 * (a + q - b) + r;
  }

  lemma WholePages(x: nat, level: nat) returns (pages: nat)
    requires level <= 2
    ensures Pages.AlignDown(x, level) == pages * 0x1000
  {
    pages := if level == 0 then x / 0x1000
             else if level == 1 then x / 0x20_0000 * 512
             else x / 0x4000_0000 * 0x4_0000;
  }

  // The first page, up to `first`, is cut off, be it the last one or not.
  ghost predicate Cut(p: VirtPtr, end: nat, write: bool, short: nat, first: nat) {
    short > 0 && first <= end && Phys(p, first, write) == Phys(p, p.address, write) + (first - p.address)
  }

  // How far the counting has come: the run began at `run`, and the code takes it to begin at `part`.
  ghost predicate Counting(p: VirtPtr, write: bool, end: nat, first: nat, cut: bool, part: nat, run: nat, next: nat,
                           all: seq<Part>, count: nat)
  {
    && PartsUpTo(p, write, end, run, next, all)
    && (next == p.address ==> run == part && all == [] && count == 0)
    && (next > p.address ==> count == |all| + if cut then 1 else 0)
    && (next > p.address && cut ==> part > p.address && (first == end ==> run == p.address))
    && (run != part ==> next > p.address && cut && all == [] && run == p.address && part == first <= next)
  }

  // The first round.
  lemma FirstRound(p: VirtPtr, write: bool, end: nat, short: nat, first: nat, cut: bool, stops: bool)
    returns (run: nat, all: seq<Part>)
    requires Short(p, write, short) && p.address < end && Phys(p, p.address, write) != 0
    requires first == NextPage(p.address) && (cut <==> Cut(p, end, write, short, first))
    requires stops <==> Phys(p, first, write) - (Phys(p, p.address, write) - short) != first - p.address || first > end
    ensures Counting(p, write, end, first, cut, if stops then first else p.address, run, first, all,
                     if stops then 1 else 0)
  {
    var part := p.address;
    run, all := part, [];
    if short > 0 {
      ShortApart(p, write, short, Phys(p, part, write), first, Phys(p, first, write));
    }
    if Phys(p, first, write) != Phys(p, part, write) + (first - part) || first > end {
      RunStops(p, write, end, part, part, []);
      run, all := first, [] + [NewPart(p, write, end, part, first)];
    } else {
      RunGoesOn(p, write, end, part, part, []);
    }
  }

  // The other rounds. A run whose first page has been cut off is tested in the same way.
  lemma NextRound(p: VirtPtr, write: bool, end: nat, first: nat, cut: bool, part: nat, run0: nat, at_: nat,
                  all0: seq<Part>, count: nat, next: nat, stops: bool) returns (run: nat, all: seq<Part>)
    requires Counting(p, write, end, first, cut, part, run0, at_, all0, count) && at_ > p.address && part < end
    requires cut ==> Phys(p, first, write) == Phys(p, p.address, write) + (first - p.address)
    requires Phys(p, part, write) != 0 && (cut ==> Phys(p, p.address, write) != 0) && next == NextPage(at_)
    requires stops <==> Phys(p, next, write) - Phys(p, part, write) != next - part || next > end
    ensures Counting(p, write, end, first, cut, if stops then next else part, run, next, all,
                     if stops then count + 1 else count)
  {
    run, all := run0, all0;
    if stops {
      RunStops(p, write, end, run, at_, all);
      run, all := next, all0 + [NewPart(p, write, end, run0, next)];
    } else {
      RunGoesOn(p, write, end, run, at_, all);
    }
  }

  // The loop ends at a page that is not mapped.
  lemma CountUnmapped(p: VirtPtr, write: bool, length: nat, short: nat, first: nat, cut: bool, part: nat, run: nat,
                      at_: nat, all: seq<Part>, count: nat)
    requires Short(p, write, short) && Counting(p, write, p.address + length, first, cut, part, run, at_, all, count)
    requires first == NextPage(p.address) && (cut <==> Cut(p, p.address + length, write, short, first))
    requires part < p.address + length && Phys(p, part, write) == 0
    ensures count == |all| + if Extra(p, length, write, short) then 1 else 0
    ensures part >= p.address && Divides(p, write, all, part - p.address)
    ensures Present(p, write, length, part - p.address)
  {
    DividesPresent(p, write, all, part - p.address);
  }

  // The end of the loop.
  lemma CountDone(p: VirtPtr, write: bool, length: nat, short: nat, first: nat, cut: bool, part: nat, run: nat,
                  next: nat, all0: seq<Part>, count: nat) returns (all: seq<Part>)
    requires Counting(p, write, p.address + length, first, cut, part, run, next, all0, count)
    requires part >= p.address + length && Short(p, write, short)
    requires first == NextPage(p.address) && (cut <==> Cut(p, p.address + length, write, short, first))
    ensures count == |all| + if Extra(p, length, write, short) then 1 else 0
    ensures Divides(p, write, all, length) && Present(p, write, length, length)
  {
    var end := p.address + length;
    all := all0;
    if run != part {
      RunStops(p, write, end, run, next, all);
      all := all0 + [NewPart(p, write, end, run, NextPage(next))];
    }
    DividesPresent(p, write, all, length);
  }

  lemma CountEnds(p: VirtPtr, write: bool, length: nat, short: nat, first: nat, cut: bool, part: nat, run: nat,
                  next: nat, all0: seq<Part>, count: nat) returns (all: seq<Part>, m: nat)
    requires Counting(p, write, p.address + length, first, cut, part, run, next, all0, count) && Short(p, write, short)
    requires part < p.address + length ==> Phys(p, part, write) == 0
    requires first == NextPage(p.address) && (cut <==> Cut(p, p.address + length, write, short, first))
    ensures count == |all| + if Extra(p, length, write, short) then 1 else 0
    ensures Divides(p, write, all, m) && Present(p, write, length, m)
  {
    if part < p.address + length {
      CountUnmapped(p, write, length, short, first, cut, part, run, next, all0, count);
      all, m := all0, part - p.address;
    } else {
      all := CountDone(p, write, length, short, first, cut, part, run, next, all0, count);
      m := length;
    }
  }

  lemma CountBegins(p: VirtPtr, write: bool, end: nat, first: nat, cut: bool)
    requires p.address <= end
    ensures Counting(p, write, end, first, cut, p.address, p.address, p.address, [], 0)
  {
  }

  // One round of the loop for a page that is mapped.
  method CountPage(p: VirtPtr, write: bool, end: nat, ghost short: nat, physStart: int, part0: nat, next0: nat,
                   count0: nat, ghost first: nat, ghost cut: bool, ghost run0: nat, ghost all0: seq<Part>)
    returns (part: nat, next: nat, count: nat, ghost run: nat, ghost all: seq<Part>)
    requires Short(p, write, short) && first == NextPage(p.address) && (cut <==> Cut(p, end, write, short, first))
    requires Counting(p, write, end, first, cut, part0, run0, next0, all0, count0) && part0 < end
    requires Phys(p, part0, write) != 0 && physStart == Phys(p, part0, write) - if next0 == p.address then short else 0
    ensures next0 < next && Counting(p, write, end, first, cut, part, run, next, all, count)
  {
    part, next, count := part0, NextPage(next0), count0;
    var physEnd := Phys(p, next, write);
    var stops := physEnd - physStart != next - part || next > end;
    if next0 == p.address {
      run, all := FirstRound(p, write, end, short, first, cut, stops);
    } else {
      run, all := NextRound(p, write, end, first, cut, part, run0, next0, all0, count, next, stops);
    }
    if stops {
      part := next;
      count := count + 1;
    }
  }

  // Two pages next to each other, and none behind them.
  function TwoPages(): VirtPtr {
    var flags := Pages.NO_FLAGS.(read := true, write := true);
    var leaves := map[Pages.Key(7, 0x1000, 0) := Pages.Entry(true, flags, 5),
                      Pages.Key(7, 0x2000, 0) := Pages.Entry(true, flags, 6)];
    VirtPtr(0x1800, Mapped(leaves, 7), false)
  }

  lemma TwoPagesPhys(va: nat)
    requires 0x1800 <= va <= 0x4800
    ensures var p := TwoPages();
      && Phys(p, va, true) == (if va < 0x3000 then va + 0x4000 else 0)
      && match Pages.Hit(p.space.leaves, p.space.root, va)
         case None => true
         case Some(level) => !p.space.leaves[Pages.Key(p.space.root, va, level)].flags.copy
  {
    var n := va / 0x1000;
    var k, a, b := Pages.Key(7, va, 0), Pages.Key(7, 0x1000, 0), Pages.Key(7, 0x2000, 0);
    assert k.path[2] == n && a.path[2] == 1 && b.path[2] == 2;
    assert |Pages.Key(7, va, 1).path| == 2 && |Pages.Key(7, va, 2).path| == 1;
    assert k.path[0] == a.path[0] == b.path[0] && k.path[1] == a.path[1] == b.path[1];
    assert n == 1 ==> k == a;
    assert n == 2 ==> k == b;
  }

  // A buffer of two pages from the middle of its first page on, which has just been copied: a write behind its end goes
  // on with a part that has not been set.
  method CutOffExample(mem: array<byte>) returns (ok: bool)
    requires mem.Length == 0x1_0000
    modifies mem
    ensures !ok
  {
    var dest, src := TwoPages(), VirtPtr(0x9000, Direct, false);
    TwoPagesFacts(mem.Length);
    ghost var md, ms;
    ok, md, ms := MemcpyBetween(mem, dest, src, 0x2000, 0x800);
    PresentUnique(dest, true, 0x2000, md, 0x1800);
    PresentUnique(src, false, 0x2000, ms, 0x2000);
  }

  lemma TwoPagesFacts(size: nat)
    requires size == 0x1_0000
    ensures var p, src := TwoPages(), VirtPtr(0x9000, Direct, false);
      && Apart(p, src, 0x2000) && Inside(p, true, 0x2000, size) && Inside(src, false, 0x2000, size)
      && Resolved(p, 0x2000, true) && Short(p, true, 0x800) && Extra(p, 0x2000, true, 0x800)
      && Present(p, true, 0x2000, 0x1800) && Present(src, false, 0x2000, 0x2000)
  {
    forall va: nat | 0x1800 <= va <= 0x4800
      ensures Phys(TwoPages(), va, true) == if va < 0x3000 then va + 0x4000 else 0
    {
      TwoPagesPhys(va);
    }
    TwoPagesResolved();
  }

  lemma TwoPagesResolved()
    ensures Resolved(TwoPages(), 0x2000, true)
  {
    var p := TwoPages();
    forall va: nat | p.address <= va <= p.address + 0x2000 + PAGE
      ensures match Pages.Hit(p.space.leaves, p.space.root, va)
              case None => true
              case Some(level) =>
                var flags := p.space.leaves[Pages.Key(p.space.root, va, level)].flags;
                flags.copy ==> flags.write
    {
      TwoPagesPhys(va);
    }
  }

  lemma PresentUnique(p: VirtPtr, write: bool, length: nat, m: nat, m': nat)
    requires Present(p, write, length, m) && Present(p, write, length, m')
    ensures m == m'
  {
    var x, y := Phys(p, p.address + m, write), Phys(p, p.address + m', write);
  }

  // getVirtPtrParts without places for parts: how many there are, and one more if the first page has been cut off.
  method CountParts(p: VirtPtr, length: nat, write: bool, short: nat)
    returns (count: nat, ghost all: seq<Part>, ghost m: nat)
    requires Resolved(p, length, write) && Short(p, write, short)
    ensures count == |all| + if Extra(p, length, write, short) then 1 else 0
    ensures Divides(p, write, all, m) && Present(p, write, length, m)
  {
    ghost var part, run, next, first := 0, 0, 0, NextPage(p.address);
    ghost var cut := Cut(p, p.address + length, write, short, first);
    count, part, run, next, all := CountLoop(p, p.address + length, write, short, first, cut);
    all, m := CountEnds(p, write, length, short, first, cut, part, run, next, all, count);
  }

  // Its loop.
  method CountLoop(p: VirtPtr, end: nat, write: bool, short: nat, ghost first: nat, ghost cut: bool)
    returns (count: nat, ghost part: nat, ghost run: nat, ghost next: nat, ghost all: seq<Part>)
    requires Short(p, write, short) && p.address <= end
    requires first == NextPage(p.address) && (cut <==> Cut(p, end, write, short, first))
    ensures Counting(p, write, end, first, cut, part, run, next, all, count)
    ensures part < end ==> Phys(p, part, write) == 0
  {
    count, all := 0, [];
    var start: nat, at_: nat := p.address, p.address;
    run := start;
    CountBegins(p, write, end, first, cut);
    while start < end
      invariant Counting(p, write, end, first, cut, start, run, at_, all, count)
      decreases end + PAGE - at_
    {
      var physStart: int := Phys(p, start, write) - if at_ == p.address then short else 0;
      if physStart == 0 {
        break;
      }
      start, at_, count, run, all :=
          CountPage(p, write, end, short, physStart, start, at_, count, first, cut, run, all);
    }
    part, next := start, at_;
  }

  function Max(a: nat, b: nat): nat {
    if a < b then b else a
  }

  lemma {:induction false} DividesPresent(p: VirtPtr, write: bool, parts: seq<Part>, m: nat)
    requires Divides(p, write, parts, m)
    ensures forall va: nat {:trigger Phys(p, va, write)} :: p.address <= va < p.address + m ==> Phys(p, va, write) != 0
    decreases |parts|
  {
    if parts != [] {
      var n := |parts| - 1;
      var part := parts[n];
      assert PartOk(p, write, parts, n);
      var front := parts[..n];
      forall i: nat | i < n ensures PartOk(p, write, front, i) {
        assert PartOk(p, write, parts, i);
      }
      if n > 0 {
        assert PartOk(p, write, parts, n - 1);
      }
      DividesPresent(p, write, front, part.offset);
    }
  }

  // ---- Copying

  // The bytes of a buffer that are mapped lie in memory.
  ghost predicate Inside(p: VirtPtr, write: bool, n: nat, size: nat) {
    forall va: nat {:trigger Phys(p, va, write)} :: p.address <= va < p.address + n ==> Phys(p, va, write) < size
  }

  // No byte is written twice, or read and written.
  ghost predicate Apart(dest: VirtPtr, src: VirtPtr, n: nat) {
    && (forall va: nat, vb: nat {:trigger Elsewhere(dest, va, dest, vb, true)} ::
          dest.address <= va < vb < dest.address + n ==> Elsewhere(dest, va, dest, vb, true))
    && (forall va: nat, vb: nat {:trigger Elsewhere(dest, va, src, vb, false)} ::
          dest.address <= va < dest.address + n && src.address <= vb < src.address + n ==>
            Elsewhere(dest, va, src, vb, false))
  }

  // If there is a byte to be written at `va`, it is not the one at `vb`.
  ghost predicate Elsewhere(dest: VirtPtr, va: nat, p: VirtPtr, vb: nat, write: bool) {
    Phys(dest, va, true) != 0 ==> Phys(dest, va, true) != Phys(p, vb, write)
  }

  // Some byte of the first `m` bytes of the buffer is at the physical address `a`.
  ghost predicate Target(dest: VirtPtr, m: nat, a: nat) {
    exists va: nat :: dest.address <= va < dest.address + m && Phys(dest, va, true) == a
  }

  ghost predicate ByteCopied(dest: VirtPtr, src: VirtPtr, b: seq<byte>, c: seq<byte>, k: nat) {
    var to, from := Phys(dest, dest.address + k, true), Phys(src, src.address + k, false);
    to < |c| && from < |b| && c[to] == b[from]
  }

  ghost predicate Kept(dest: VirtPtr, m: nat, b: seq<byte>, c: seq<byte>, a: nat) {
    a < |b| && a < |c| && !Target(dest, m, a) ==> c[a] == b[a]
  }

  // From `b` to `c` the first `m` bytes have been copied, and nothing else has changed.
  ghost predicate Copied(dest: VirtPtr, src: VirtPtr, m: nat, b: seq<byte>, c: seq<byte>) {
    && |c| == |b|
    && (forall k: nat {:trigger ByteCopied(dest, src, b, c, k)} :: k < m ==> ByteCopied(dest, src, b, c, k))
    && (forall a: nat {:trigger Kept(dest, m, b, c, a)} :: Kept(dest, m, b, c, a))
  }

  // The next piece of the two buffers: bytes `m` up to `m + len`.
  ghost predicate Piece(dest: VirtPtr, src: VirtPtr, n: nat, m: nat, len: nat, size: nat) {
    && Apart(dest, src, n) && m + len <= n && 0 < len
    && Inside(dest, true, n, size) && Inside(src, false, n, size)
    && Contiguous(dest, true, dest.address + m, dest.address + m + len)
    && Contiguous(src, false, src.address + m, src.address + m + len)
  }

  lemma PieceInside(dest: VirtPtr, src: VirtPtr, n: nat, m: nat, len: nat, size: nat)
    requires Piece(dest, src, n, m, len, size)
    ensures Phys(dest, dest.address + m, true) + len <= size && Phys(src, src.address + m, false) + len <= size
  {
    assert Phys(dest, dest.address + m + len - 1, true) == Phys(dest, dest.address + m, true) + len - 1;
    assert Phys(src, src.address + m + len - 1, false) == Phys(src, src.address + m, false) + len - 1;
  }

  lemma CopyStep(dest: VirtPtr, src: VirtPtr, n: nat, m: nat, next: nat, to: nat, from: nat, b: seq<byte>,
                 c: seq<byte>, d: seq<byte>)
    requires m < next && Copied(dest, src, m, b, c) && Piece(dest, src, n, m, next - m, |b|)
    requires to == Phys(dest, dest.address + m, true) && from == Phys(src, src.address + m, false)
    requires to + (next - m) <= |c| && from + (next - m) <= |c| && d == Splice(c, to, c[from..from + (next - m)])
    ensures Copied(dest, src, next, b, d)
  {
    var len := next - m;
    assert m + len == next;
    forall a: nat ensures Kept(dest, next, b, d, a) {
      KeptStep(dest, src, n, m, len, b, c, a);
    }
    forall k: nat | k < next ensures ByteCopied(dest, src, b, d, k) {
      ByteStep(dest, src, n, m, len, to, from, b, c, k);
    }
  }

  lemma ByteStep(dest: VirtPtr, src: VirtPtr, n: nat, m: nat, len: nat, to: nat, from: nat, b: seq<byte>,
                 c: seq<byte>, k: nat)
    requires Copied(dest, src, m, b, c) && Piece(dest, src, n, m, len, |b|) && k < m + len
    requires to == Phys(dest, dest.address + m, true) && from == Phys(src, src.address + m, false)
    requires to + len <= |c| && from + len <= |c|
    ensures ByteCopied(dest, src, b, Splice(c, to, c[from..from + len]), k)
  {
    if k < m {
      assert ByteCopied(dest, src, b, c, k);
      OutsidePiece(dest, src, n, m, len, |b|, k);
      EarlierByte(dest, src, b, c, to, c[from..from + len], k);
    } else {
      PieceBytes(dest, src, n, m, len, |b|, k);
      assert Kept(dest, m, b, c, Phys(src, src.address + k, false));
      NewByte(dest, src, b, c, to, from, len, m, k);
    }
  }

  lemma KeptStep(dest: VirtPtr, src: VirtPtr, n: nat, m: nat, len: nat, b: seq<byte>, c: seq<byte>, a: nat)
    requires Copied(dest, src, m, b, c) && Piece(dest, src, n, m, len, |b|)
    requires Phys(dest, dest.address + m, true) + len <= |c| && Phys(src, src.address + m, false) + len <= |c|
    ensures var to, from := Phys(dest, dest.address + m, true), Phys(src, src.address + m, false);
      Kept(dest, m + len, b, Splice(c, to, c[from..from + len]), a)
  {
    var to := Phys(dest, dest.address + m, true);
    assert Kept(dest, m, b, c, a);
    if to <= a < to + len {
      assert Phys(dest, dest.address + m + (a - to), true) == a;
      assert Target(dest, m + len, a);
    } else if Target(dest, m, a) {
      assert Target(dest, m + len, a);
    }
  }

  lemma EarlierByte(dest: VirtPtr, src: VirtPtr, b: seq<byte>, c: seq<byte>, to: nat, piece: seq<byte>, k: nat)
    requires ByteCopied(dest, src, b, c, k) && to + |piece| <= |c|
    requires !(to <= Phys(dest, dest.address + k, true) < to + |piece|)
    ensures ByteCopied(dest, src, b, Splice(c, to, piece), k)
  {
  }

  // An earlier byte of the destination is not written again.
  lemma OutsidePiece(dest: VirtPtr, src: VirtPtr, n: nat, m: nat, len: nat, size: nat, k: nat)
    requires Piece(dest, src, n, m, len, size) && k < m
    ensures var to, x := Phys(dest, dest.address + m, true), Phys(dest, dest.address + k, true); !(to <= x < to + len)
  {
    var to, x := Phys(dest, dest.address + m, true), Phys(dest, dest.address + k, true);
    var j: nat := if to <= x < to + len then x - to else 0;
    assert Phys(dest, dest.address + m + j, true) == to + j;
    assert Elsewhere(dest, dest.address + k, dest, dest.address + m + j, true);
    assert Elsewhere(dest, dest.address + m + j, dest, dest.address + k, true);
  }

  lemma NewByte(dest: VirtPtr, src: VirtPtr, b: seq<byte>, c: seq<byte>, to: nat, from: nat, len: nat, m: nat, k: nat)
    requires |c| == |b| && to + len <= |c| && from + len <= |c| && m <= k < m + len
    requires Phys(src, src.address + k, false) == from + (k - m) && Phys(dest, dest.address + k, true) == to + (k - m)
    requires c[from + (k - m)] == b[from + (k - m)]
    ensures ByteCopied(dest, src, b, Splice(c, to, c[from..from + len]), k)
  {
    SpliceAt(c, to, c[from..from + len], k - m);
  }

  lemma SpliceAt(c: seq<byte>, to: nat, piece: seq<byte>, i: nat)
    requires to + |piece| <= |c| && i < |piece|
    ensures Splice(c, to, piece)[to + i] == piece[i]
  {
  }

  // A byte of the piece: where it goes, and that its source has not been written.
  lemma PieceBytes(dest: VirtPtr, src: VirtPtr, n: nat, m: nat, len: nat, size: nat, k: nat)
    requires Piece(dest, src, n, m, len, size) && m <= k < m + len
    ensures Phys(src, src.address + k, false) == Phys(src, src.address + m, false) + (k - m)
    ensures Phys(dest, dest.address + k, true) == Phys(dest, dest.address + m, true) + (k - m)
    ensures !Target(dest, m, Phys(src, src.address + k, false))
  {
    var x := Phys(src, src.address + k, false);
    assert x == Phys(src, src.address + m, false) + (k - m);
    forall va: nat | dest.address <= va < dest.address + m ensures Phys(dest, va, true) != x {
      assert Elsewhere(dest, va, src, src.address + k, false);
    }
  }

  // memmove
  method Memmove(mem: array<byte>, to: nat, from: nat, n: nat)
    requires to + n <= mem.Length && from + n <= mem.Length
    modifies mem
    ensures mem[..] == Splice(old(mem[..]), to, old(mem[..])[from..from + n])
  {
    var data := mem[from..from + n];
    for k := 0 to n
      invariant forall i :: 0 <= i < mem.Length ==> mem[i] == if to <= i < to + k then data[i - to] else old(mem[i])
    {
      mem[to + k] := data[k];
    }
  }

  // How far the copy has come: byte `index` is in the current part of each buffer, or just behind it.
  ghost predicate InPart(p: VirtPtr, write: bool, parts: seq<Part>, m: nat, i: nat, index: nat) {
    && Divides(p, write, parts, m) && i <= |parts| && index <= m
    && (i == |parts| ==> index == m)
    && (i < |parts| ==>
        PartOk(p, write, parts, i) && parts[i].offset <= index <= parts[i].offset + parts[i].length <= m)
  }

  lemma GoOn(p: VirtPtr, write: bool, parts: seq<Part>, m: nat, i: nat, index: nat, next: nat)
    requires InPart(p, write, parts, m, i, index) && i < |parts| && index <= next <= parts[i].offset + parts[i].length
    ensures InsidePart(p, write, parts[i], index, next) && next <= m && InPart(p, write, parts, m, i, next)
    ensures next == parts[i].offset + parts[i].length ==>
              InPart(p, write, parts, m, i + 1, next) && Before(parts, i + 1, next)
  {
    if i + 1 < |parts| {
      PartOf(p, write, parts, m, i + 1);
    }
  }

  lemma FirstPart(p: VirtPtr, write: bool, parts: seq<Part>, m: nat)
    requires Divides(p, write, parts, m)
    ensures InPart(p, write, parts, m, 0, 0) && Before(parts, 0, 0)
  {
    if parts != [] {
      PartOf(p, write, parts, m, 0);
    }
  }

  // One round of the copy: the rest of the shorter one of the two current parts.
  method CopyPiece(mem: array<byte>, dest: VirtPtr, src: VirtPtr, to: Part, from: Part, ghost n: nat, index: nat,
                   next: nat, ghost b: seq<byte>)
    requires Copied(dest, src, index, b, mem[..]) && Apart(dest, src, n)
    requires Inside(dest, true, n, |b|) && Inside(src, false, n, |b|) && index <= next <= n
    requires InsidePart(dest, true, to, index, next) && InsidePart(src, false, from, index, next)
    modifies mem
    ensures Copied(dest, src, next, b, mem[..])
  {
    var x, y, len := to.address + (index - to.offset), from.address + (index - from.offset), next - index;
    ghost var c := mem[..];
    if len > 0 {
      PieceBounds(dest, src, to, from, n, index, next, |b|);
      Memmove(mem, x, y, len);
    }
    PieceCopied(dest, src, to, from, n, index, next, x, y, b, c, mem[..]);
  }

  lemma PieceCopied(dest: VirtPtr, src: VirtPtr, to: Part, from: Part, n: nat, index: nat, next: nat, x: nat, y: nat,
                    b: seq<byte>, c: seq<byte>, d: seq<byte>)
    requires Copied(dest, src, index, b, c) && Apart(dest, src, n)
    requires Inside(dest, true, n, |b|) && Inside(src, false, n, |b|) && index <= next <= n
    requires InsidePart(dest, true, to, index, next) && InsidePart(src, false, from, index, next)
    requires x == to.address + (index - to.offset) && y == from.address + (index - from.offset)
    requires index < next ==> x + (next - index) <= |c| && y + (next - index) <= |c|
    requires d == if index < next then Splice(c, x, c[y..y + (next - index)]) else c
    ensures Copied(dest, src, next, b, d)
  {
    if index < next {
      PieceOf(dest, src, to, from, n, index, next, |b|);
      CopyStep(dest, src, n, index, next, x, y, b, c, d);
    }
  }

  lemma PieceBounds(dest: VirtPtr, src: VirtPtr, to: Part, from: Part, n: nat, index: nat, next: nat, size: nat)
    requires Apart(dest, src, n) && Inside(dest, true, n, size) && Inside(src, false, n, size) && index < next <= n
    requires InsidePart(dest, true, to, index, next) && InsidePart(src, false, from, index, next)
    ensures to.address + (index - to.offset) + (next - index) <= size
    ensures from.address + (index - from.offset) + (next - index) <= size
  {
    PieceOf(dest, src, to, from, n, index, next, size);
  }

  // The bytes from `index` up to `next` are in the part.
  ghost predicate InsidePart(p: VirtPtr, write: bool, part: Part, index: nat, next: nat) {
    && part.offset <= index <= next <= part.offset + part.length
        && part.address == Phys(p, p.address + part.offset, write)
    && Contiguous(p, write, p.address + part.offset, p.address + part.offset + part.length)
  }

  lemma PieceOf(dest: VirtPtr, src: VirtPtr, to: Part, from: Part, n: nat, index: nat, next: nat, size: nat)
    requires Apart(dest, src, n) && Inside(dest, true, n, size) && Inside(src, false, n, size) && index < next <= n
    requires InsidePart(dest, true, to, index, next) && InsidePart(src, false, from, index, next)
    ensures Piece(dest, src, n, index, next - index, size)
    ensures Phys(dest, dest.address + index, true) == to.address + (index - to.offset)
    ensures Phys(src, src.address + index, false) == from.address + (index - from.offset)
    ensures to.address + (index - to.offset) + (next - index) <= size
    ensures from.address + (index - from.offset) + (next - index) <= size
  {
    PartPiece(dest, true, to, index, next);
    PartPiece(src, false, from, index, next);
    PieceInside(dest, src, n, index, next - index, size);
  }

  lemma PartPiece(p: VirtPtr, write: bool, part: Part, index: nat, next: nat)
    requires InsidePart(p, write, part, index, next) && index < next
    ensures Contiguous(p, write, p.address + index, p.address + next)
    ensures Phys(p, p.address + index, write) == part.address + (index - part.offset)
  {
    SubRun(p, write, p.address + part.offset, p.address + part.offset + part.length, p.address + index,
        p.address + next);
  }

  lemma SubRun(p: VirtPtr, write: bool, from: nat, to: nat, a: nat, b: nat)
    requires Contiguous(p, write, from, to) && from <= a < b <= to
    ensures Contiguous(p, write, a, b) && Phys(p, a, write) == Phys(p, from, write) + (a - from)
  {
  }

  // There is only one way to divide a buffer into maximal runs, so the second call of getVirtPtrParts finds as many
  // parts as the first one has counted.
  lemma PartsUnique(p: VirtPtr, write: bool, length: nat, a: seq<Part>, m: nat, b: seq<Part>, m': nat)
    requires Divides(p, write, a, m) && Present(p, write, length, m) && Divides(p, write, b, m')
             && Present(p, write, length, m')
    ensures m == m' && a == b
  {
    var x, y := Phys(p, p.address + m, write), Phys(p, p.address + m', write);
    SameParts(p, write, a, b, m, 0);
  }

  lemma {:induction false} SameParts(p: VirtPtr, write: bool, a: seq<Part>, b: seq<Part>, m: nat, i: nat)
    requires Divides(p, write, a, m) && Divides(p, write, b, m) && i <= |a| && i <= |b|
    requires a[..i] == b[..i]
    ensures a == b
    decreases |a| - i
  {
    if i > 0 {
      assert a[i - 1] == a[..i][i - 1] == b[..i][i - 1] == b[i - 1];
    }
    SameEnd(p, write, a, b, m, i);
    if i < |a| {
      NotLonger(p, write, a, b, m, i);
      NotLonger(p, write, b, a, m, i);
      assert a[..i + 1] == a[..i] + [a[i]] && b[..i + 1] == b[..i] + [b[i]];
      SameParts(p, write, a, b, m, i + 1);
    } else {
      assert a == a[..i] && b == b[..i];
    }
  }

  // Both lists go on at the same place, or both are at their end.
  lemma SameEnd(p: VirtPtr, write: bool, a: seq<Part>, b: seq<Part>, m: nat, i: nat)
    requires Divides(p, write, a, m) && Divides(p, write, b, m) && i <= |a| && i <= |b|
             && (i > 0 ==> a[i - 1] == b[i - 1])
    ensures i < |a| <==> i < |b|
    ensures i < |a| ==> a[i].offset == b[i].offset
  {
    if i > 0 {
      assert PartOk(p, write, a, i - 1) && PartOk(p, write, b, i - 1);
    }
    if i < |a| {
      PartOf(p, write, a, m, i);
    }
    if i < |b| {
      PartOf(p, write, b, m, i);
    }
  }

  lemma NotLonger(p: VirtPtr, write: bool, a: seq<Part>, b: seq<Part>, m: nat, i: nat)
    requires Divides(p, write, a, m) && Divides(p, write, b, m) && i < |a| && i < |b| && a[i].offset == b[i].offset
    ensures a[i].length >= b[i].length && a[i].address == b[i].address
  {
    PartOf(p, write, a, m, i);
    PartOf(p, write, b, m, i);
    if i + 1 < |a| {
      PartOf(p, write, a, m, i + 1);
    }
  }

  // memcpyBetweenVirtPtr, with the page tables as they are when the first call has resolved all faults. It goes on
  // with a part that it has never set exactly if the first page of the destination has been cut off and the
  // destination is mapped less far than the source.
  method MemcpyBetween(mem: array<byte>, dest: VirtPtr, src: VirtPtr, n: nat, short: nat)
    returns (ok: bool, ghost md: nat, ghost ms: nat)
    requires Apart(dest, src, n) && Inside(dest, true, n, mem.Length) && Inside(src, false, n, mem.Length)
    requires Resolved(dest, n, true) && Short(dest, true, short)
    modifies mem
    ensures Present(dest, true, n, md) && Present(src, false, n, ms)
    ensures ok <==> !(Extra(dest, n, true, short) && md < ms)
    ensures Copied(dest, src, Min(md, ms), old(mem[..]), mem[..])
    ensures dest.space.Mapped? ==>
              forall va: nat {:trigger Pages.FlagsAt(dest.space.leaves, dest.space.root, va)} ::
                dest.address <= va < dest.address + md ==>
                  var flags := Pages.FlagsAt(dest.space.leaves, dest.space.root, va);
                  flags.Some? && (dest.allowAll || flags.value.write)
    ensures src.space.Mapped? ==>
              forall va: nat {:trigger Pages.FlagsAt(src.space.leaves, src.space.root, va)} ::
                src.address <= va < src.address + ms ==>
                  var flags := Pages.FlagsAt(src.space.leaves, src.space.root, va);
                  flags.Some? && (src.allowAll || flags.value.read)
    ensures dest.space.Mapped? && md < n ==>
              var flags := Pages.FlagsAt(dest.space.leaves, dest.space.root, dest.address + md);
              (flags.Some? && (dest.allowAll || flags.value.write) ==>
                 Pages.Translate(dest.space.leaves, dest.space.root, dest.address + md) == 0)
    ensures src.space.Mapped? && ms < n ==>
              var flags := Pages.FlagsAt(src.space.leaves, src.space.root, src.address + ms);
              (flags.Some? && (src.allowAll || flags.value.read) ==>
                 Pages.Translate(src.space.leaves, src.space.root, src.address + ms) == 0)
  {
    var destCount, destParts, srcCount, srcParts;
    destCount, destParts, md := BothCalls(dest, n, true, short);
    srcCount, srcParts, ms := BothCalls(src, n, false, 0);
    if dest.space.Mapped? {
      PresentFlags(dest, true, n, md);
    }
    if src.space.Mapped? {
      PresentFlags(src, false, n, ms);
    }
    ok := CopyParts(mem, dest, src, n, destCount, destParts, srcParts, md, ms);
  }

  // The two calls for one of the buffers: the first one counts.
  method BothCalls(p: VirtPtr, n: nat, write: bool, short: nat) returns (count: nat, parts: seq<Part>, ghost m: nat)
    requires Resolved(p, n, write) && Short(p, write, short)
    ensures Divides(p, write, parts, m) && Present(p, write, n, m)
    ensures count == |parts| + if Extra(p, n, write, short) then 1 else 0
  {
    ghost var all, again, m';
    count, all, m := CountParts(p, n, write, short);
    var found;
    found, parts, again, m' := GetParts(p, n, count, write);
    PartsUnique(p, write, n, all, m, again, m');
    assert again[..found] == again;
  }

  // Byte `index` comes before the end of the part.
  ghost predicate Before(parts: seq<Part>, i: nat, index: nat) {
    i < |parts| ==> index < parts[i].offset + parts[i].length
  }

  // The loop over the two lists of parts.
  method CopyParts(mem: array<byte>, dest: VirtPtr, src: VirtPtr, n: nat, destCount: nat, destParts: seq<Part>,
                   srcParts: seq<Part>, ghost md: nat, ghost ms: nat) returns (ok: bool)
    requires Apart(dest, src, n) && Inside(dest, true, n, mem.Length) && Inside(src, false, n, mem.Length)
    requires Divides(dest, true, destParts, md) && Divides(src, false, srcParts, ms) && md <= n && ms <= n
    requires destCount >= |destParts|
    modifies mem
    ensures ok <==> !(destCount > |destParts| && md < ms)
    ensures Copied(dest, src, Min(md, ms), old(mem[..]), mem[..])
  {
    var index: nat, i: nat, j: nat := 0, 0, 0;
    FirstPart(dest, true, destParts, md);
    FirstPart(src, false, srcParts, ms);
    while index < n && i < destCount && j < |srcParts|
      invariant InParts(dest, src, destParts, srcParts, md, ms, i, j, index)
      invariant Copied(dest, src, index, old(mem[..]), mem[..])
      decreases |destParts| - i + |srcParts| - j
    {
      if i == |destParts| {
        return false;
      }
      index, i, j := CopyRound(mem, dest, src, n, destParts, srcParts, md, ms, index, i, j, old(mem[..]));
    }
    ok := true;
  }

  // Where the copy is in both lists.
  ghost predicate InParts(dest: VirtPtr, src: VirtPtr, destParts: seq<Part>, srcParts: seq<Part>, md: nat, ms: nat,
                          i: nat, j: nat, index: nat)
  {
    && InPart(dest, true, destParts, md, i, index) && InPart(src, false, srcParts, ms, j, index)
    && Before(srcParts, j, index)
  }

  // Up to the end of the shorter one of the two current parts.
  lemma PartsGoOn(dest: VirtPtr, src: VirtPtr, destParts: seq<Part>, srcParts: seq<Part>, md: nat, ms: nat,
                  i: nat, j: nat, index: nat, next: nat)
    requires InParts(dest, src, destParts, srcParts, md, ms, i, j, index) && i < |destParts| && j < |srcParts|
    requires next == Min(destParts[i].offset + destParts[i].length, srcParts[j].offset + srcParts[j].length)
    ensures InsidePart(dest, true, destParts[i], index, next) && InsidePart(src, false, srcParts[j], index, next)
    ensures next <= md && next <= ms
    ensures if destParts[i].offset + destParts[i].length < srcParts[j].offset + srcParts[j].length
            then InParts(dest, src, destParts, srcParts, md, ms, i + 1, j, next)
            else InParts(dest, src, destParts, srcParts, md, ms, i, j + 1, next)
  {
    GoOn(dest, true, destParts, md, i, index, next);
    GoOn(src, false, srcParts, ms, j, index, next);
  }

  method CopyRound(mem: array<byte>, dest: VirtPtr, src: VirtPtr, n: nat, destParts: seq<Part>, srcParts: seq<Part>,
                   ghost md: nat, ghost ms: nat, index0: nat, i0: nat, j0: nat, ghost b: seq<byte>)
    returns (index: nat, i: nat, j: nat)
    requires Apart(dest, src, n) && Inside(dest, true, n, |b|) && Inside(src, false, n, |b|) && md <= n && ms <= n
    requires InParts(dest, src, destParts, srcParts, md, ms, i0, j0, index0)
    requires i0 < |destParts| && j0 < |srcParts| && Copied(dest, src, index0, b, mem[..])
    modifies mem
    ensures InParts(dest, src, destParts, srcParts, md, ms, i, j, index)
    ensures Copied(dest, src, index, b, mem[..]) && i0 <= i && j0 <= j && i + j == i0 + j0 + 1
  {
    var to, from := destParts[i0], srcParts[j0];
    var destNext, srcNext := to.offset + to.length, from.offset + from.length;
    index := if destNext < srcNext then destNext else srcNext;
    PartsGoOn(dest, src, destParts, srcParts, md, ms, i0, j0, index0, index);
    CopyPiece(mem, dest, src, to, from, n, index0, index, b);
    if destNext < srcNext {
      i, j := i0 + 1, j0;
    } else {
      i, j := i0, j0 + 1;
    }
  }
}
