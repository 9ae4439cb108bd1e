// What a copy between two virtual pointers (kernel/src/memory/virtptr.c) means for the spaces of
// kernel/src/memory/memspace.c: the bytes are stored one after the other into the space of the destination, and no
// other space sees a difference.
module CopySpaces {
  import opened Basics
  import opened PageTableSpec
  import opened CowSpec
  import V = VirtPtrs

  // The buffer at `address` of the space with root `root`.
  function Ptr(s: Sys, root: nat, address: nat): V.VirtPtr {
    V.VirtPtr(address, V.Mapped(s.leaves, root), false)
  }

  // All pages are small, and none lies at address 0.
  ghost predicate SmallPages(s: Sys) {
    0 !in s.pages && forall l {:trigger l in s.leaves} :: l in s.leaves ==> |l.path| == 3
  }

  predicate Permitted(s: Sys, l: Loc, write: bool) {
    l in s.leaves && if write then s.leaves[l].flags.write else s.leaves[l].flags.read
  }

  // In terms of the flags of the leaf.
  lemma PtrFlags(s: Sys, root: nat, address: nat, va: nat, write: bool)
    requires Inv(s) && SmallPages(s)
    ensures var l, pa := Key(root, va, 0), V.Phys(Ptr(s, root, address), va, write);
      && (pa != 0 <==> l in s.leaves && if write then s.leaves[l].flags.write else s.leaves[l].flags.read)
      && (pa != 0 ==> pa == s.leaves[l].frame * PAGE + va % PAGE)
  {
    PtrPhys(s, root, address, va, write);
  }

  lemma PtrPhys(s: Sys, root: nat, address: nat, va: nat, write: bool)
    requires Inv(s) && SmallPages(s)
    ensures var l, pa := Key(root, va, 0), V.Phys(Ptr(s, root, address), va, write);
      && (pa != 0 <==> Permitted(s, l, write))
      && (Permitted(s, l, write) ==> pa == s.leaves[l].frame * PAGE + va % PAGE && s.leaves[l].frame in s.pages)
  {
    var l := Key(root, va, 0);
    assert |Key(root, va, 2).path| == 1 && |Key(root, va, 1).path| == 2;
    assert LeafOk(s, l);
    if l in s.leaves {
      SmallPhys(s.leaves[l].frame, va);
    }
  }

  lemma SmallPhys(frame: nat, va: nat)
    ensures AlignDown(frame * PAGE, 0) + (va - AlignDown(va, 0)) == frame * PAGE + va % PAGE
  {
  }

  // A first translation that gives the start of the page falls short by the offset in it.
  lemma ShortOf(s: Sys, root: nat, address: nat, paddr: nat, short: nat)
    requires Inv(s) && SmallPages(s) && paddr + short == V.Phys(Ptr(s, root, address), address, true)
    requires short == 0 || short == address % PAGE
    ensures V.Short(Ptr(s, root, address), true, short)
  {
    PtrPhys(s, root, address, address, true);
  }

  // ---- Physical memory

  ghost predicate PageIn(mem: seq<byte>, pages: map<nat, Page>, f: nat) {
    f in pages ==>
      f * PAGE + PAGE <= |mem| && forall o: nat {:trigger pages[f][o]} :: o < PAGE ==> mem[f * PAGE + o] == pages[f][o]
  }

  ghost predicate Holds(mem: seq<byte>, pages: map<nat, Page>) {
    forall f {:trigger PageIn(mem, pages, f)} :: PageIn(mem, pages, f)
  }

  lemma SameAddress(f: nat, o: nat, g: nat, q: nat)
    requires o < PAGE && q < PAGE && f * PAGE + o == g * PAGE + q
    ensures f == g && o == q
  {
  }

  // ---- The same copy on spaces that share nothing

  // From the buffer at `src` of one space to the buffer at `dest` of another one, given by their roots.
  datatype Copy = Copy(to: nat, dest: nat, from: nat, src: nat)

  // Where byte `k` goes to and comes from.
  function ToPage(c: Copy, k: nat): Loc {
    Key(c.to, c.dest + k, 0)
  }

  function FromPage(c: Copy, k: nat): Loc {
    Key(c.from, c.src + k, 0)
  }

  function ToOffset(c: Copy, k: nat): (o: nat)
    ensures o < PAGE
  {
    (c.dest + k) % PAGE
  }

  function ByteIn(v: Spaces, c: Copy, k: nat): byte {
    if FromPage(c, k) in v then v[FromPage(c, k)].bytes[(c.src + k) % PAGE] else 0
  }

  function EagerCopy(v: Spaces, c: Copy, n: nat): Spaces {
    if n == 0 then v
    else EagerStore(EagerCopy(v, c, n - 1), ToPage(c, n - 1), ToOffset(c, n - 1), ByteIn(v, c, n - 1))
  }

  // Byte `k` of the copy goes to offset `o` of the page at `l`.
  predicate Goes(c: Copy, k: nat, l: Loc, o: nat) {
    ToPage(c, k) == l && ToOffset(c, k) == o
  }

  lemma {:induction false} CopyKeepsCell(v: Spaces, c: Copy, n: nat, l: Loc)
    requires l in v
    ensures var w := EagerCopy(v, c, n); l in w && w[l].writable == v[l].writable && w[l].rest == v[l].rest
    decreases n
  {
    if n > 0 {
      CopyKeepsCell(v, c, n - 1, l);
    }
  }

  lemma {:induction false} CopyKeys(v: Spaces, c: Copy, n: nat)
    ensures EagerCopy(v, c, n).Keys == v.Keys
    decreases n
  {
    if n > 0 {
      CopyKeys(v, c, n - 1);
    }
  }

  lemma {:induction false} CopyElsewhere(v: Spaces, c: Copy, n: nat, l: Loc, o: nat)
    requires l in v && o < PAGE && forall k: nat :: k < n ==> !Goes(c, k, l, o)
    ensures var w := EagerCopy(v, c, n); l in w && w[l].bytes[o] == v[l].bytes[o]
    decreases n
  {
    if n > 0 {
      CopyElsewhere(v, c, n - 1, l, o);
      assert !Goes(c, n - 1, l, o);
    }
  }

  lemma {:induction false} CopyThere(v: Spaces, c: Copy, n: nat, k: nat, l: Loc, o: nat)
    requires l in v && v[l].writable && o < PAGE && k < n && Goes(c, k, l, o)
    requires forall j: nat :: k < j < n ==> !Goes(c, j, l, o)
    ensures var w := EagerCopy(v, c, n); l in w && w[l].bytes[o] == ByteIn(v, c, k)
    decreases n
  {
    CopyKeepsCell(v, c, n - 1, l);
    if k < n - 1 {
      CopyThere(v, c, n - 1, k, l, o);
      assert !Goes(c, n - 1, l, o);
    }
  }

  // A space other than that of the destination sees no difference.
  lemma {:induction false} OtherSpaces(v: Spaces, c: Copy, n: nat, l: Loc)
    requires l in v && l.root != c.to
    ensures l in EagerCopy(v, c, n) && EagerCopy(v, c, n)[l] == v[l]
    decreases n
  {
    if n > 0 {
      OtherSpaces(v, c, n - 1, l);
    }
  }

  // An address is determined by its place and its offset.
  lemma SamePlace(root: nat, a: nat, b: nat)
    requires a < LIMIT && b < LIMIT && Key(root, a, 0) == Key(root, b, 0) && a % PAGE == b % PAGE
    ensures a == b
  {
    SameKey(root, a, b, 0);
  }

  // ---- The buffers

  function Dest(s: Sys, c: Copy): V.VirtPtr {
    Ptr(s, c.to, c.dest)
  }

  function Src(s: Sys, c: Copy): V.VirtPtr {
    Ptr(s, c.from, c.src)
  }

  // The buffers do not overlap, and end with the 39-bit addresses.
  predicate NoOverlap(c: Copy, n: nat) {
    c.dest + n <= LIMIT && c.src + n <= LIMIT && (c.to == c.from ==> c.dest + n <= c.src || c.src + n <= c.dest)
  }

  // Buffers that do not overlap have no byte in common in memory either: a page that can be written is mapped nowhere
  // else.
  lemma BuffersApart(s: Sys, c: Copy, n: nat)
    requires Inv(s) && SmallPages(s) && NoOverlap(c, n)
    ensures V.Apart(Dest(s, c), Src(s, c), n)
  {
    var d, e := Dest(s, c), Src(s, c);
    forall va: nat, vb: nat | c.dest <= va < vb < c.dest + n ensures V.Elsewhere(d, va, d, vb, true) {
      if V.Phys(d, va, true) != 0 {
        BytesApart(s, c.to, c.dest, va, c.to, c.dest, vb, true);
      }
    }
    forall va: nat, vb: nat | c.dest <= va < c.dest + n && c.src <= vb < c.src + n
      ensures V.Elsewhere(d, va, e, vb, false)
    {
      if V.Phys(d, va, true) != 0 {
        BytesApart(s, c.to, c.dest, va, c.from, c.src, vb, false);
      }
    }
  }

  lemma BytesApart(s: Sys, to: nat, dest: nat, va: nat, from: nat, src: nat, vb: nat, write: bool)
    requires Inv(s) && SmallPages(s) && va < LIMIT && vb < LIMIT && (to != from || va != vb)
    requires V.Phys(Ptr(s, to, dest), va, true) != 0
    ensures V.Phys(Ptr(s, to, dest), va, true) != V.Phys(Ptr(s, from, src), vb, write)
  {
    var l, q := Key(to, va, 0), Key(from, vb, 0);
    PtrPhys(s, to, dest, va, true);
    PtrPhys(s, from, src, vb, write);
    assert LeafOk(s, l);
    if Permitted(s, q, write) && V.Phys(Ptr(s, to, dest), va, true) == V.Phys(Ptr(s, from, src), vb, write) {
      SameAddress(s.leaves[l].frame, va % PAGE, s.leaves[q].frame, vb % PAGE);
      assert q in Holders(s, s.leaves[l].frame);
      assert q == l;
      SamePlace(to, va, vb);
    }
  }

  // ---- The copy

  // Byte `k` is mapped in both buffers.
  ghost predicate Mapped(s: Sys, c: Copy, k: nat) {
    Permitted(s, ToPage(c, k), true) && Permitted(s, FromPage(c, k), false)
  }

  // From `s` to `t` the bytes in memory, and nothing else, have gone from `b` to `d`, in which the first `m` bytes have
  // been copied.
  ghost predicate MemoryCopied(s: Sys, t: Sys, b: seq<byte>, d: seq<byte>, c: Copy, m: nat) {
    && t == s.(pages := t.pages) && t.pages.Keys == s.pages.Keys && Holds(b, s.pages) && Holds(d, t.pages)
    && V.Copied(Dest(s, c), Src(s, c), m, b, d) && c.dest + m <= LIMIT
    && (forall k: nat {:trigger Mapped(s, c, k)} :: k < m ==> Mapped(s, c, k))
  }

  lemma CopiedByte(s: Sys, pages: map<nat, Page>, b: seq<byte>, d: seq<byte>, c: Copy, k: nat)
    requires Inv(s) && SmallPages(s) && Mapped(s, c, k) && V.ByteCopied(Dest(s, c), Src(s, c), b, d, k)
    requires pages.Keys == s.pages.Keys && Holds(b, s.pages) && Holds(d, pages)
    ensures var l := ToPage(c, k);
      && Permitted(s, l, true) && s.leaves[l].frame in pages
      && pages[s.leaves[l].frame][ToOffset(c, k)] == ByteIn(View(s), c, k)
  {
    ByteWritten(s, pages, d, c, k);
    ByteRead(s, b, c, k);
  }

  // Where byte `k` is in memory, on both sides.
  lemma ByteWritten(s: Sys, pages: map<nat, Page>, mem: seq<byte>, c: Copy, k: nat)
    requires Inv(s) && SmallPages(s) && Permitted(s, ToPage(c, k), true) && pages.Keys == s.pages.Keys
             && Holds(mem, pages)
    ensures var f, pa := s.leaves[ToPage(c, k)].frame, V.Phys(Dest(s, c), c.dest + k, true);
      f in pages && pa < |mem| && mem[pa] == pages[f][ToOffset(c, k)]
  {
    PtrPhys(s, c.to, c.dest, c.dest + k, true);
    ByteOfPage(mem, pages, s.leaves[ToPage(c, k)].frame, ToOffset(c, k));
  }

  lemma ByteRead(s: Sys, mem: seq<byte>, c: Copy, k: nat)
    requires Inv(s) && SmallPages(s) && Permitted(s, FromPage(c, k), false) && Holds(mem, s.pages)
    ensures var pa := V.Phys(Src(s, c), c.src + k, false); pa < |mem| && mem[pa] == ByteIn(View(s), c, k)
  {
    PtrPhys(s, c.from, c.src, c.src + k, false);
    ByteOfPage(mem, s.pages, s.leaves[FromPage(c, k)].frame, (c.src + k) % PAGE);
  }

  lemma ByteOfPage(mem: seq<byte>, pages: map<nat, Page>, f: nat, o: nat)
    requires Holds(mem, pages) && f in pages && o < PAGE
    ensures f * PAGE + o < |mem| && mem[f * PAGE + o] == pages[f][o]
  {
    assert PageIn(mem, pages, f);
    var x := pages[f][o];
  }

  // Byte `k` does not go to offset `o` of frame `f`.
  ghost predicate Misses(s: Sys, c: Copy, k: nat, f: nat, o: nat) {
    ToPage(c, k) in s.leaves && (s.leaves[ToPage(c, k)].frame != f || ToOffset(c, k) != o)
  }

  // A byte of a page that no byte of the buffer goes to is as before.
  lemma KeptByte(s: Sys, t: Sys, b: seq<byte>, d: seq<byte>, c: Copy, m: nat, f: nat, o: nat)
    requires Inv(s) && SmallPages(s) && MemoryCopied(s, t, b, d, c, m) && f in s.pages && o < PAGE
    requires forall k: nat {:trigger Misses(s, c, k, f, o)} :: k < m ==> Misses(s, c, k, f, o)
    ensures t.pages[f][o] == s.pages[f][o]
  {
    var p, x := Dest(s, c), f * PAGE + o;
    forall va: nat | c.dest <= va < c.dest + m ensures V.Phys(p, va, true) != x {
      var k: nat := va - c.dest;
      assert Mapped(s, c, k) && Misses(s, c, k, f, o) && c.dest + k == va;
      PtrPhys(s, c.to, c.dest, va, true);
      if V.Phys(p, va, true) == x {
        SameAddress(f, o, s.leaves[ToPage(c, k)].frame, ToOffset(c, k));
      }
    }
    assert V.Kept(p, m, b, d, x) && !V.Target(p, m, x);
    ByteOfPage(b, s.pages, f, o);
    ByteOfPage(d, t.pages, f, o);
  }

  // What is seen at offset `o` of the page at `l`.
  lemma SeenByte(s: Sys, t: Sys, b: seq<byte>, d: seq<byte>, c: Copy, m: nat, l: Loc, o: nat)
    requires Inv(s) && SmallPages(s) && MemoryCopied(s, t, b, d, c, m) && l in s.leaves && o < PAGE
    ensures var w := EagerCopy(View(s), c, m); l in w && View(t)[l].bytes[o] == w[l].bytes[o]
  {
    assert LeafOk(s, l);
    if k: nat :| k < m && Goes(c, k, l, o) {
      assert Mapped(s, c, k) && V.ByteCopied(Dest(s, c), Src(s, c), b, d, k);
      CopiedByte(s, t.pages, b, d, c, k);
      OnlyOnce(c, m, k, l, o);
      CopyThere(View(s), c, m, k, l, o);
    } else {
      SeenElsewhere(s, t, b, d, c, m, l, o);
    }
  }

  // No two bytes go to the same place.
  lemma OnlyOnce(c: Copy, m: nat, k: nat, l: Loc, o: nat)
    requires c.dest + m <= LIMIT && k < m && Goes(c, k, l, o)
    ensures forall j: nat :: k < j < m ==> !Goes(c, j, l, o)
  {
    forall j: nat | k < j < m ensures !Goes(c, j, l, o) {
      if Goes(c, j, l, o) {
        SamePlace(c.to, c.dest + k, c.dest + j);
      }
    }
  }

  lemma SeenElsewhere(s: Sys, t: Sys, b: seq<byte>, d: seq<byte>, c: Copy, m: nat, l: Loc, o: nat)
    requires Inv(s) && SmallPages(s) && MemoryCopied(s, t, b, d, c, m) && l in s.leaves && o < PAGE
    requires forall k: nat :: k < m ==> !Goes(c, k, l, o)
    ensures var w := EagerCopy(View(s), c, m); l in w && View(t)[l].bytes[o] == w[l].bytes[o]
  {
    assert LeafOk(s, l);
    NotReached(s, c, m, l, o);
    KeptByte(s, t, b, d, c, m, s.leaves[l].frame, o);
    CopyElsewhere(View(s), c, m, l, o);
  }

  // The frames of the destination are mapped nowhere else.
  lemma NotReached(s: Sys, c: Copy, m: nat, l: Loc, o: nat)
    requires Inv(s) && l in s.leaves && forall k: nat {:trigger Mapped(s, c, k)} :: k < m ==> Mapped(s, c, k)
    requires forall k: nat :: k < m ==> !Goes(c, k, l, o)
    ensures forall k: nat {:trigger Misses(s, c, k, s.leaves[l].frame, o)} :: k < m ==>
              Misses(s, c, k, s.leaves[l].frame, o)
  {
    var f := s.leaves[l].frame;
    assert l in Holders(s, f);
    forall k: nat {:trigger Misses(s, c, k, f, o)} | k < m ensures Misses(s, c, k, f, o) {
      assert Mapped(s, c, k) && LeafOk(s, ToPage(c, k)) && !Goes(c, k, l, o);
    }
  }

  // The spaces see the bytes stored one after the other, and nothing else.
  lemma CopySeen(s: Sys, t: Sys, b: seq<byte>, d: seq<byte>, c: Copy, m: nat)
    requires Inv(s) && SmallPages(s) && MemoryCopied(s, t, b, d, c, m)
    ensures View(t) == EagerCopy(View(s), c, m)
  {
    var u, w := View(t), EagerCopy(View(s), c, m);
    forall l | l in s.leaves ensures l in w && u[l] == w[l] {
      CopyKeepsCell(View(s), c, m, l);
      forall o: nat | o < PAGE ensures u[l].bytes[o] == w[l].bytes[o] {
        SeenByte(s, t, b, d, c, m, l, o);
      }
      assert u[l].bytes == w[l].bytes;
    }
    CopyKeys(View(s), c, m);
  }

  // The invariant is kept: in particular the zero page is not written.
  lemma CopyInv(s: Sys, t: Sys, b: seq<byte>, d: seq<byte>, c: Copy, m: nat)
    requires Inv(s) && SmallPages(s) && MemoryCopied(s, t, b, d, c, m)
    ensures Inv(t)
  {
    forall o: nat | o < PAGE ensures t.pages[s.zero][o] == 0 {
      forall k: nat {:trigger Misses(s, c, k, s.zero, o)} | k < m ensures Misses(s, c, k, s.zero, o) {
        assert Mapped(s, c, k) && LeafOk(s, ToPage(c, k));
      }
      KeptByte(s, t, b, d, c, m, s.zero, o);
    }
    assert t.pages[s.zero] == Zeros();
    forall f ensures Holders(t, f) == Holders(s, f) && FrameOk(t, f) {
      assert FrameOk(s, f);
    }
    forall l ensures LeafOk(t, l) {
      assert LeafOk(s, l);
    }
  }

  // ---- memcpyBetweenVirtPtr on spaces

  // The pages as they lie in memory.
  ghost function PagesIn(mem: seq<byte>, frames: set<nat>): map<nat, Page>
    requires forall f :: f in frames ==> f * PAGE + PAGE <= |mem|
  {
    map f | f in frames :: mem[f * PAGE..f * PAGE + PAGE]
  }

  lemma PagesHold(mem: seq<byte>, frames: set<nat>)
    requires forall f :: f in frames ==> f * PAGE + PAGE <= |mem|
    ensures Holds(mem, PagesIn(mem, frames))
  {
    forall f ensures PageIn(mem, PagesIn(mem, frames), f) {
    }
  }

  lemma BufferInside(s: Sys, root: nat, address: nat, write: bool, n: nat, mem: seq<byte>)
    requires Inv(s) && SmallPages(s) && Holds(mem, s.pages)
    ensures V.Inside(Ptr(s, root, address), write, n, |mem|)
  {
    assert PageIn(mem, s.pages, s.zero);
    forall va: nat ensures V.Phys(Ptr(s, root, address), va, write) < |mem| {
      PtrPhys(s, root, address, va, write);
      var l := Key(root, va, 0);
      if Permitted(s, l, write) {
        assert PageIn(mem, s.pages, s.leaves[l].frame);
      }
    }
  }

  // What is there of a buffer can be read or written, and what comes behind cannot.
  lemma BufferPermitted(s: Sys, root: nat, address: nat, write: bool, n: nat, m: nat, k: nat)
    requires Inv(s) && SmallPages(s) && V.Present(Ptr(s, root, address), write, n, m) && k <= m
    ensures k < m ==> Permitted(s, Key(root, address + k, 0), write)
    ensures k == m < n ==> !Permitted(s, Key(root, address + k, 0), write)
  {
    PtrPhys(s, root, address, address + k, write);
    assert k < m ==> V.Phys(Ptr(s, root, address), address + k, write) != 0;
  }

  // A copy between two spaces whose pages lie in `mem`, when the faults of the destination have been resolved: the
  // spaces see the bytes that are mapped in both buffers stored one after the other, and nothing else.
  method CopyBetween(mem: array<byte>, dest: V.VirtPtr, src: V.VirtPtr, n: nat, short: nat, ghost s: Sys, ghost c: Copy)
    returns (ok: bool, ghost t: Sys, ghost m: nat)
    requires Inv(s) && SmallPages(s) && Holds(mem[..], s.pages) && NoOverlap(c, n)
    requires dest == Dest(s, c) && src == Src(s, c) && V.Resolved(dest, n, true) && V.Short(dest, true, short)
    modifies mem
    ensures Inv(t) && t == s.(pages := t.pages) && Holds(mem[..], t.pages)
    ensures View(t) == EagerCopy(View(s), c, m)
    ensures m <= n
    ensures forall k: nat {:trigger ToPage(c, k)} {:trigger FromPage(c, k)} :: k < m ==>
              && ToPage(c, k) in s.leaves && s.leaves[ToPage(c, k)].flags.write
              && FromPage(c, k) in s.leaves && s.leaves[FromPage(c, k)].flags.read
    ensures m < n ==>
              || ToPage(c, m) !in s.leaves || !s.leaves[ToPage(c, m)].flags.write
              || FromPage(c, m) !in s.leaves || !s.leaves[FromPage(c, m)].flags.read
  {
    ghost var b := mem[..];
    BuffersApart(s, c, n);
    BufferInside(s, c.to, c.dest, true, n, b);
    BufferInside(s, c.from, c.src, false, n, b);
    ghost var md, ms;
    ok, md, ms := V.MemcpyBetween(mem, dest, src, n, short);
    m := Min(md, ms);
    MappedBytes(s, c, n, md, ms);
    t := Landed(s, b, mem[..], c, m);
    MappedFlags(s, c, n, m);
  }

  // Which bytes are copied, in terms of the flags of the two pages.
  lemma MappedFlags(s: Sys, c: Copy, n: nat, m: nat)
    requires (forall k: nat {:trigger Mapped(s, c, k)} :: k < m ==> Mapped(s, c, k)) && (m < n ==> !Mapped(s, c, m))
    ensures forall k: nat {:trigger ToPage(c, k)} {:trigger FromPage(c, k)} :: k < m ==>
              && ToPage(c, k) in s.leaves && s.leaves[ToPage(c, k)].flags.write
              && FromPage(c, k) in s.leaves && s.leaves[FromPage(c, k)].flags.read
    ensures m < n ==>
              || ToPage(c, m) !in s.leaves || !s.leaves[ToPage(c, m)].flags.write
              || FromPage(c, m) !in s.leaves || !s.leaves[FromPage(c, m)].flags.read
  {
    forall k: nat {:trigger ToPage(c, k)} {:trigger FromPage(c, k)} | k < m
      ensures ToPage(c, k) in s.leaves && s.leaves[ToPage(c, k)].flags.write
      ensures FromPage(c, k) in s.leaves && s.leaves[FromPage(c, k)].flags.read
    {
      assert Mapped(s, c, k);
    }
  }

  lemma MappedBytes(s: Sys, c: Copy, n: nat, md: nat, ms: nat)
    requires Inv(s) && SmallPages(s) && V.Present(Dest(s, c), true, n, md) && V.Present(Src(s, c), false, n, ms)
    ensures var m := Min(md, ms);
      && m <= n && (m < n ==> !Mapped(s, c, m))
      && forall k: nat {:trigger Mapped(s, c, k)} :: k < m ==> Mapped(s, c, k)
  {
    MappedByte(s, c, n, md, ms, Min(md, ms));
    forall k: nat {:trigger Mapped(s, c, k)} | k < Min(md, ms) ensures Mapped(s, c, k) {
      MappedByte(s, c, n, md, ms, k);
    }
  }

  lemma MappedByte(s: Sys, c: Copy, n: nat, md: nat, ms: nat, k: nat)
    requires Inv(s) && SmallPages(s) && V.Present(Dest(s, c), true, n, md) && V.Present(Src(s, c), false, n, ms)
    requires k <= md && k <= ms
    ensures k < md && k < ms ==> Mapped(s, c, k)
    ensures k < n && (k == md || k == ms) ==> !Mapped(s, c, k)
  {
    BufferPermitted(s, c.to, c.dest, true, n, md, k);
    BufferPermitted(s, c.from, c.src, false, n, ms, k);
  }

  // What the copied memory means.
  lemma Landed(s: Sys, b: seq<byte>, d: seq<byte>, c: Copy, m: nat) returns (t: Sys)
    requires Inv(s) && SmallPages(s) && Holds(b, s.pages) && c.dest + m <= LIMIT
    requires V.Copied(Dest(s, c), Src(s, c), m, b, d)
    requires forall k: nat {:trigger Mapped(s, c, k)} :: k < m ==> Mapped(s, c, k)
    ensures Inv(t) && t == s.(pages := t.pages) && Holds(d, t.pages)
    ensures View(t) == EagerCopy(View(s), c, m)
  {
    forall f | f in s.pages ensures f * PAGE + PAGE <= |d| {
      assert PageIn(b, s.pages, f);
    }
    t := s.(pages := PagesIn(d, s.pages.Keys));
    PagesHold(d, s.pages.Keys);
    CopySeen(s, t, b, d, c, m);
    CopyInv(s, t, b, d, c, m);
  }
}
