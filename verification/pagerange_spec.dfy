// What mapping a range of addresses means: the superpage that each address gets, and what else may change.
module PageRangeSpec {
  import opened Basics
  import opened PageTableSpec

  // The physical address that the range starting at `from` gives to `w`, if a leaf of `level` covers `w`.
  function RangePhys(w: nat, from: nat, paddr: nat, level: nat): nat
    requires level <= 2 && from <= AlignDown(w, level)
  {
    AlignDown(paddr + (AlignDown(w, level) - from), level) + (w - AlignDown(w, level))
  }

  // The level of the leaf that covers `w` when [from, to) is mapped with leaves of at most `level`.
  function LevelAt(from: nat, to: nat, w: nat, level: nat): nat
    requires level <= 2 && from <= to
    decreases level
  {
    if level == 0 then 0
    else
      var size := LevelSize(level);
      var start := AlignDown(from + size - 1, level);
      var end := AlignDown(to, level);
      if start < end && end - start > size then
        if w < start then LevelAt(from, start, w, level - 1)
        else if w < end then level
        else LevelAt(end, to, w, level - 1)
      else LevelAt(from, to, w, level - 1)
  }

  // A leaf of level `l` can be written for `w`, as the assertions of mapPage demand: no larger leaf is in the way,
  // and no table is in its place. (Another leaf may be.)
  ghost predicate RoomAt(f: Forest, root: nat, w: nat, l: nat) {
    && l <= 2 && Key(root, w, l) !in f.at
    && (forall m: nat {:trigger Key(root, w, m)} :: l < m <= 2 ==> Key(root, w, m) !in f.leaves)
  }

  // For leaves of one level, and for those that the source chooses.
  ghost predicate RoomLevel(f: Forest, root: nat, from: nat, to: nat, level: nat) {
    forall w: nat {:trigger RoomAt(f, root, w, level)} :: from <= w < to ==> RoomAt(f, root, w, level)
  }

  ghost predicate Room(f: Forest, root: nat, from: nat, to: nat, top: nat)
    requires top <= 2 && from <= to
  {
    forall w: nat {:trigger LevelAt(from, to, w, top)} :: from <= w < to ==>
        RoomAt(f, root, w, LevelAt(from, to, w, top))
  }

  // Leaves are written only within [from, to) of `root`, and tables are added only where they touch it.
  ghost predicate Extends(f: Forest, g: Forest, root: nat, from: nat, to: nat) {
    && (forall k :: k in f.leaves ==> k in g.leaves && (k.root != root ==> g.leaves[k] == f.leaves[k]))
    && (forall k :: k in g.leaves && k !in f.leaves ==> k.root == root)
    && (forall k :: k in f.at ==> k in g.at && g.at[k] == f.at[k])
    && (forall k :: k in g.at && k !in f.at ==> k.root == root)
    && (forall w: nat, l: nat {:trigger Key(root, w, l)} :: l <= 2 && w < LIMIT && Written(f, g, Key(root, w, l)) ==>
          from <= AlignDown(w, l) && AlignDown(w, l) + LevelSize(l) <= to)
    && (forall w: nat, l: nat {:trigger Key(root, w, l)} ::
          1 <= l <= 2 && w < LIMIT && Key(root, w, l) in g.at && Key(root, w, l) !in f.at ==>
            AlignDown(w, l) < to && from < AlignDown(w, l) + LevelSize(l))
  }

  // The leaf is new, or not what it was.
  ghost predicate Written(f: Forest, g: Forest, k: Loc) {
    k in g.leaves && (k in f.leaves ==> g.leaves[k] != f.leaves[k])
  }

  lemma ExtendsTrans(f: Forest, g: Forest, h: Forest, root: nat, a: nat, b: nat, c: nat)
    requires Extends(f, g, root, a, b) && Extends(g, h, root, b, c) && a <= b <= c
    ensures Extends(f, h, root, a, c)
  {
    forall w: nat, l: nat | l <= 2 && w < LIMIT && Written(f, h, Key(root, w, l))
      ensures a <= AlignDown(w, l) && AlignDown(w, l) + LevelSize(l) <= c
    {
      assert Written(f, g, Key(root, w, l)) || Written(g, h, Key(root, w, l));
    }
  }

  // There still is room for a leaf while a range beside it is mapped.
  lemma RoomAtStays(f: Forest, g: Forest, root: nat, from: nat, to: nat, w: nat, l: nat)
    requires Extends(f, g, root, from, to) && WF(g) && w < LIMIT && RoomAt(f, root, w, l)
    requires AlignDown(w, l) + LevelSize(l) <= from || to <= AlignDown(w, l)
    ensures RoomAt(g, root, w, l)
  {
    assert HomeOk(g, Key(root, w, l)) && |Key(root, w, l).path| == 3 - l;
    forall m: nat | l < m <= 2 ensures Key(root, w, m) !in g.leaves {
      assert Key(root, w, m) !in f.leaves;
      var written := Written(f, g, Key(root, w, m));
    }
  }

  lemma RoomLevelStays(f: Forest, g: Forest, root: nat, from: nat, to: nat, a: nat, b: nat, level: nat)
    requires Extends(f, g, root, from, to) && WF(g) && level <= 2 && RoomLevel(f, root, a, b, level) && b <= LIMIT
    requires Aligned(a, level) && Aligned(b, level) && (b <= from || to <= a)
    ensures RoomLevel(g, root, a, b, level)
  {
    forall w: nat | a <= w < b ensures RoomAt(g, root, w, level) {
      assert RoomAt(f, root, w, level);
      InsideAligned(a, w, level);
      BelowAligned(b, w, level);
      RoomAtStays(f, g, root, from, to, w, level);
    }
  }

  lemma RoomStays(f: Forest, g: Forest, root: nat, from: nat, to: nat, a: nat, b: nat, top: nat)
    requires Extends(f, g, root, from, to) && WF(g) && top <= 2 && a <= b <= LIMIT && Room(f, root, a, b, top)
    requires Aligned(a, 0) && Aligned(b, 0) && (b <= from || to <= a)
    ensures Room(g, root, a, b, top)
  {
    forall w: nat | a <= w < b ensures RoomAt(g, root, w, LevelAt(a, b, w, top)) {
      var l := LevelAt(a, b, w, top);
      assert RoomAt(f, root, w, l);
      LevelAtInside(a, b, w, top);
      LevelAtBelowEnd(a, b, w, top);
      RoomAtStays(f, g, root, from, to, w, l);
    }
  }

  lemma BelowAligned(end: nat, w: nat, level: nat)
    requires level <= 2 && Aligned(end, level) && w < end
    ensures AlignDown(w, level) + LevelSize(level) <= end
  {
    AlignedDown(w, level);
    NextAligned(AlignDown(w, level), end, level);
  }

  lemma NextAligned(v: nat, to: nat, level: nat)
    requires level <= 2 && v < to && Aligned(v, level) && Aligned(to, level)
    ensures v + LevelSize(level) <= to && Aligned(v + LevelSize(level), level)
  {
    var size := LevelSize(level);
    var a, b := v / size, to / size;
    if level == 0 {
      assert v == a * 0x1000 && to == b * 0x1000 && a < b;
    } else if level == 1 {
      assert v == a * 0x20_0000 && to == b * 0x20_0000 && a < b;
    } else {
      assert v == a * 0x4000_0000 && to == b * 0x4000_0000 && a < b;
    }
    Exact(a + 1, level);
  }

  // The leaf that covers an address ends inside the range.
  lemma {:induction false} LevelAtBelowEnd(from: nat, to: nat, w: nat, top: nat)
    requires top <= 2 && from <= w < to && Aligned(to, 0)
    ensures LevelAt(from, to, w, top) <= 2
    ensures AlignDown(w, LevelAt(from, to, w, top)) + LevelSize(LevelAt(from, to, w, top)) <= to
    decreases top
  {
    if top == 0 {
      BelowAligned(to, w, 0);
    } else {
      var start, end := AlignDown(from + LevelSize(top) - 1, top), AlignDown(to, top);
      AlignedDown(from + LevelSize(top) - 1, top);
      AlignedDown(to, top);
      if Splits(from, to, top) {
        if w < start {
          AlignedBelow(start, top, 0);
          LevelAtBelowEnd(from, start, w, top - 1);
        } else if w < end {
          BelowAligned(end, w, top);
        } else {
          LevelAtBelowEnd(end, to, w, top - 1);
        }
      } else {
        LevelAtBelowEnd(from, to, w, top - 1);
      }
    }
  }

  // The three parts of a range that is split: there is room in the whole exactly if there is in all of them.
  lemma RoomSplit(f: Forest, root: nat, from: nat, to: nat, level: nat, start: nat, end: nat)
    requires 1 <= level <= 2 && from <= start < end <= to && Splits(from, to, level)
    requires start == AlignDown(from + LevelSize(level) - 1, level) && end == AlignDown(to, level)
    ensures Room(f, root, from, to, level) <==>
              && Room(f, root, from, start, level - 1) && RoomLevel(f, root, start, end, level)
              && Room(f, root, end, to, level - 1)
  {
    var below := level - 1;
    forall w: nat | from <= w < to
      ensures LevelAt(from, to, w, level)
           == if w < start then LevelAt(from, start, w, level - 1)
              else if w < end then level else LevelAt(end, to, w, level - 1)
    {
    }
    if Room(f, root, from, to, level) {
      forall w: nat | from <= w < start ensures RoomAt(f, root, w, LevelAt(from, start, w, below)) {
        assert RoomAt(f, root, w, LevelAt(from, to, w, level));
      }
      forall w: nat | start <= w < end ensures RoomAt(f, root, w, level) {
        assert RoomAt(f, root, w, LevelAt(from, to, w, level));
      }
      forall w: nat | end <= w < to ensures RoomAt(f, root, w, LevelAt(end, to, w, below)) {
        assert RoomAt(f, root, w, LevelAt(from, to, w, level));
      }
    }
    if Room(f, root, from, start, level - 1) && RoomLevel(f, root, start, end, level)
        && Room(f, root, end, to, level - 1) {
      forall w: nat | from <= w < to ensures RoomAt(f, root, w, LevelAt(from, to, w, level)) {
        if w < start {
          assert RoomAt(f, root, w, LevelAt(from, start, w, below));
        } else if w >= end {
          assert RoomAt(f, root, w, LevelAt(end, to, w, below));
        } else {
          assert RoomAt(f, root, w, level);
        }
      }
    }
  }

  lemma RoomSame(f: Forest, root: nat, from: nat, to: nat, level: nat)
    requires 0 < level <= 2 && from <= to && !Splits(from, to, level)
    ensures Room(f, root, from, to, level) <==> Room(f, root, from, to, level - 1)
  {
    var below := level - 1;
    forall w: nat | from <= w < to ensures LevelAt(from, to, w, level) == LevelAt(from, to, w, level - 1) {
    }
    if Room(f, root, from, to, level) {
      forall w: nat | from <= w < to ensures RoomAt(f, root, w, LevelAt(from, to, w, below)) {
        assert RoomAt(f, root, w, LevelAt(from, to, w, level));
      }
    }
    if Room(f, root, from, to, level - 1) {
      forall w: nat | from <= w < to ensures RoomAt(f, root, w, LevelAt(from, to, w, level)) {
        assert RoomAt(f, root, w, LevelAt(from, to, w, below));
      }
    }
  }

  lemma RoomSmall(f: Forest, root: nat, from: nat, to: nat)
    requires from <= to
    ensures Room(f, root, from, to, 0) <==> RoomLevel(f, root, from, to, 0)
  {
    forall w: nat | from <= w < to ensures LevelAt(from, to, w, 0) == 0 {
    }
    if RoomLevel(f, root, from, to, 0) {
      forall w: nat | from <= w < to ensures RoomAt(f, root, w, LevelAt(from, to, w, 0)) {
        assert RoomAt(f, root, w, 0);
      }
    }
    if Room(f, root, from, to, 0) {
      forall w: nat | from <= w < to ensures RoomAt(f, root, w, 0) {
        assert RoomAt(f, root, w, LevelAt(from, to, w, 0));
      }
    }
  }

  // [from, to) translates as the part of a range that starts at `org`; no other address changes its translation.
  ghost predicate Translated(f: Forest, g: Forest, root: nat, from: nat, to: nat) {
    forall r: nat, w: nat {:trigger Translate(g.leaves, r, w)} :: w < LIMIT && (r != root || !(from <= w < to)) ==>
      Translate(g.leaves, r, w) == Translate(f.leaves, r, w)
  }

  ghost predicate Uniform(g: Forest, root: nat, from: nat, to: nat, org: nat, paddr: nat, level: nat)
    requires level <= 2
  {
    forall w: nat {:trigger Translate(g.leaves, root, w)} :: from <= w < to ==>
      org <= AlignDown(w, level) && Translate(g.leaves, root, w) == RangePhys(w, org, paddr, level)
  }

  // Every address of [from, to) has got these flags, and every other address has kept its own.
  ghost predicate Flagged(f: Forest, g: Forest, root: nat, from: nat, to: nat, bits: Flags) {
    forall r: nat, w: nat {:trigger FlagsAt(g.leaves, r, w)} :: w < LIMIT ==>
      FlagsAt(g.leaves, r, w) == if r == root && from <= w < to then Some(bits) else FlagsAt(f.leaves, r, w)
  }

  lemma FlaggedGrows(f: Forest, g: Forest, h: Forest, root: nat, a: nat, b: nat, c: nat, bits: Flags)
    requires a <= b <= c && Flagged(f, g, root, a, b, bits) && Flagged(g, h, root, b, c, bits)
    ensures Flagged(f, h, root, a, c, bits)
  {
    forall r: nat, w: nat | w < LIMIT
      ensures FlagsAt(h.leaves, r, w) == if r == root && a <= w < c then Some(bits) else FlagsAt(f.leaves, r, w)
    {
      var x, y := FlagsAt(h.leaves, r, w), FlagsAt(g.leaves, r, w);
    }
  }

  // Mapping [b, c) after [a, b).
  lemma UniformGrows(f: Forest, g: Forest, h: Forest, root: nat, a: nat, b: nat, c: nat, org: nat, paddr: nat,
                     level: nat)
    requires level <= 2 && a <= b <= c <= LIMIT && org <= b
    requires Translated(f, g, root, a, b) && Uniform(g, root, a, b, org, paddr, level)
    requires Translated(g, h, root, b, c) && Uniform(h, root, b, c, b, paddr + (b - org), level)
    ensures Translated(f, h, root, a, c) && Uniform(h, root, a, c, org, paddr, level)
  {
    forall w: nat | a <= w < c
      ensures org <= AlignDown(w, level) && Translate(h.leaves, root, w) == RangePhys(w, org, paddr, level)
    {
      var t := Translate(h.leaves, root, w);
      if w < b {
        assert Translate(g.leaves, root, w) == t;
      } else {
        assert b <= AlignDown(w, level) && t == RangePhys(w, b, paddr + (b - org), level);
      }
    }
    forall r: nat, w: nat | w < LIMIT && (r != root || !(a <= w < c))
      ensures Translate(h.leaves, r, w) == Translate(f.leaves, r, w)
    {
      assert Translate(g.leaves, r, w) == Translate(h.leaves, r, w);
    }
  }

  // The frame number keeps enough of the address for every level.
  lemma AlignPage(pa: nat, level: nat)
    requires level <= 2
    ensures AlignDown(pa / PAGE * PAGE, level) == AlignDown(pa, level)
  {
    var x := AlignDown(pa, level);
    AlignedDown(pa, level);
    AlignedBelow(x, level, 0);
    assert x / PAGE <= pa / PAGE;
    AlignUnique(pa / PAGE * PAGE, x, level);
  }

  predicate Aligned(x: nat, level: nat)
    requires level <= 2
  {
    AlignDown(x, level) == x
  }

  lemma AlignUnique(x: nat, r: nat, level: nat)
    requires level <= 2 && Aligned(r, level) && r <= x < r + LevelSize(level)
    ensures AlignDown(x, level) == r
  {
    if level == 0 {
      assert x / 0x1000 == r / 0x1000;
    } else if level == 1 {
      assert x / 0x20_0000 == r / 0x20_0000;
    } else {
      assert x / 0x4000_0000 == r / 0x4000_0000;
    }
  }

  // From `f` to `g` the range has been mapped up to `mid`, and there still is room for all of it.
  ghost predicate MappedUpTo(f: Forest, g: Forest, root: nat, from: nat, mid: nat, to: nat, paddr: nat, bits: Flags,
                             level: nat)
    requires level <= 2
  {
    && Extends(f, g, root, from, mid) && RoomLevel(g, root, from, to, level)
    && Uniform(g, root, from, mid, from, paddr, level) && Translated(f, g, root, from, mid)
    && Flagged(f, g, root, from, mid, bits)
  }

  // One more leaf.
  lemma MappedNext(f: Forest, g: Forest, h: Forest, root: nat, from: nat, mid: nat, next: nat, to: nat, paddr: nat,
                   bits: Flags, level: nat)
    requires level <= 2 && from <= mid <= next <= LIMIT && MappedUpTo(f, g, root, from, mid, to, paddr, bits, level)
    requires Extends(g, h, root, mid, next) && RoomLevel(h, root, from, to, level)
    requires Uniform(h, root, mid, next, mid, paddr + (mid - from), level) && Translated(g, h, root, mid, next)
    requires Flagged(g, h, root, mid, next, bits)
    ensures MappedUpTo(f, h, root, from, next, to, paddr, bits, level)
  {
    FlaggedGrows(f, g, h, root, from, mid, next, bits);
    ExtendsTrans(f, g, h, root, from, mid, next);
    UniformGrows(f, g, h, root, from, mid, next, from, paddr, level);
  }

  // There still is room on both sides when the middle has been mapped.
  lemma RoomBeside(f: Forest, g: Forest, root: nat, from: nat, start: nat, end: nat, to: nat, level: nat)
    requires 1 <= level <= 2 && from <= start <= end <= to <= LIMIT && Extends(f, g, root, start, end) && WF(g)
    requires Aligned(from, 0) && Aligned(start, 0) && Aligned(end, 0) && Aligned(to, 0)
    requires Room(f, root, from, start, level - 1) && Room(f, root, end, to, level - 1)
    ensures Room(g, root, from, start, level - 1) && Room(g, root, end, to, level - 1)
  {
    RoomStays(f, g, root, start, end, from, start, level - 1);
    RoomStays(f, g, root, start, end, end, to, level - 1);
  }

  // ---- mapPageRange as a whole

  // Each address of [from, to) has the translation that its level gives it.
  ghost predicate Ranged(g: Forest, root: nat, from: nat, to: nat, paddr: nat, top: nat)
    requires top <= 2 && from <= to
  {
    forall w: nat {:trigger Translate(g.leaves, root, w)} :: from <= w < to ==>
      var l := LevelAt(from, to, w, top);
      l <= 2 && from <= AlignDown(w, l) && Translate(g.leaves, root, w) == RangePhys(w, from, paddr, l)
  }

  // Does the source use leaves of this level for [from, to)?
  predicate Splits(from: nat, to: nat, level: nat)
    requires level <= 2
  {
    var start := AlignDown(from + LevelSize(level) - 1, level);
    var end := AlignDown(to, level);
    start < end && end - start > LevelSize(level)
  }

  // Otherwise the next level is used for all of it.
  lemma RangedSame(g: Forest, root: nat, from: nat, to: nat, paddr: nat, level: nat)
    requires 0 < level <= 2 && from <= to && !Splits(from, to, level) && Ranged(g, root, from, to, paddr, level - 1)
    ensures Ranged(g, root, from, to, paddr, level)
  {
    forall w: nat | from <= w < to ensures LevelAt(from, to, w, level) == LevelAt(from, to, w, level - 1) {
    }
  }

  // The largest level of the leaves that cover [from, to).
  function BestLevel(from: nat, to: nat): (l: nat)
    ensures l <= 2
  {
    if Splits(from, to, 2) then 2 else if Splits(from, to, 1) then 1 else 0
  }

  // The three parts together.
  lemma ThreeParts(f: Forest, a: Forest, b: Forest, g: Forest, root: nat, from: nat, to: nat, paddr: nat, level: nat,
                   start: nat, end: nat)
    requires 1 <= level <= 2 && from <= start < end <= to <= LIMIT && Splits(from, to, level)
    requires start == AlignDown(from + LevelSize(level) - 1, level) && end == AlignDown(to, level)
    requires Translated(f, a, root, from, start) && Ranged(a, root, from, start, paddr, level - 1)
    requires Translated(a, b, root, start, end) && Uniform(b, root, start, end, start, paddr + (start - from), level)
    requires Translated(b, g, root, end, to) && Ranged(g, root, end, to, paddr + (end - from), level - 1)
    requires Extends(f, a, root, from, start) && Extends(a, b, root, start, end) && Extends(b, g, root, end, to)
    ensures Translated(f, g, root, from, to) && Ranged(g, root, from, to, paddr, level) && Extends(f, g, root, from, to)
  {
    ExtendsTrans(f, a, b, root, from, start, end);
    ExtendsTrans(f, b, g, root, from, end, to);
    RangedSplit(f, a, b, g, root, from, to, paddr, level, start, end);
  }

  lemma RangedSplit(f: Forest, a: Forest, b: Forest, g: Forest, root: nat, from: nat, to: nat, paddr: nat, level: nat,
                    start: nat, end: nat)
    requires 1 <= level <= 2 && from <= start < end <= to <= LIMIT && Splits(from, to, level)
    requires start == AlignDown(from + LevelSize(level) - 1, level) && end == AlignDown(to, level)
    requires Translated(f, a, root, from, start) && Ranged(a, root, from, start, paddr, level - 1)
    requires Translated(a, b, root, start, end) && Uniform(b, root, start, end, start, paddr + (start - from), level)
    requires Translated(b, g, root, end, to) && Ranged(g, root, end, to, paddr + (end - from), level - 1)
    ensures Translated(f, g, root, from, to) && Ranged(g, root, from, to, paddr, level)
  {
    forall w: nat | from <= w < to
      ensures var l := LevelAt(from, to, w, level);
        l <= 2 && from <= AlignDown(w, l) && Translate(g.leaves, root, w) == RangePhys(w, from, paddr, l)
    {
      if w < start {
        assert Translate(a.leaves, root, w) == Translate(b.leaves, root, w) == Translate(g.leaves, root, w);
      } else if w < end {
        assert Translate(b.leaves, root, w) == Translate(g.leaves, root, w);
        RangePhysShift(w, start, from, paddr, level);
      } else {
        RangedTail(g, root, from, end, to, paddr, level, w);
      }
    }
    forall r: nat, w: nat | w < LIMIT && (r != root || !(from <= w < to))
      ensures Translate(g.leaves, r, w) == Translate(f.leaves, r, w)
    {
      assert Translate(a.leaves, r, w) == Translate(b.leaves, r, w) == Translate(g.leaves, r, w);
    }
  }

  lemma RangedTail(g: Forest, root: nat, from: nat, end: nat, to: nat, paddr: nat, level: nat, w: nat)
    requires 1 <= level <= 2 && from <= end <= w < to
    requires Ranged(g, root, end, to, paddr + (end - from), level - 1)
    ensures var l := LevelAt(end, to, w, level - 1);
      l <= 2 && from <= AlignDown(w, l) && Translate(g.leaves, root, w) == RangePhys(w, from, paddr, l)
  {
    var l := LevelAt(end, to, w, level - 1);
    var t := Translate(g.leaves, root, w);
    assert l <= 2 && end <= AlignDown(w, l);
    assert t == RangePhys(w, end, paddr + (end - from), l);
    RangePhysShift(w, end, from, paddr, l);
  }

  lemma RangePhysShift(w: nat, b: nat, org: nat, paddr: nat, level: nat)
    requires level <= 2 && org <= b <= AlignDown(w, level)
    ensures RangePhys(w, b, paddr + (b - org), level) == RangePhys(w, org, paddr, level)
  {
    assert paddr + (b - org) + (AlignDown(w, level) - b) == paddr + (AlignDown(w, level) - org);
  }

  // ---- When is the range mapped contiguously, as the header of the original promises?

  // Both addresses are equally far into a region of the given level.
  predicate Congruent(x: nat, y: nat, level: nat)
    requires level <= 2
  {
    x - AlignDown(x, level) == y - AlignDown(y, level)
  }

  lemma LevelAtMost(from: nat, to: nat, w: nat)
    requires from <= to
    ensures LevelAt(from, to, w, 2) <= BestLevel(from, to)
  {
    LevelAtBelow(from, to, w, 1);
  }

  lemma LevelAtBelow(from: nat, to: nat, w: nat, top: nat)
    requires from <= to && top <= 2
    ensures LevelAt(from, to, w, top) <= top
  {
  }

  // Regions of a lower level start at the same multiples.
  lemma AlignShift(base: nat, r: nat, level: nat, l: nat)
    requires l <= level <= 2 && Aligned(base, level)
    ensures AlignDown(base + r, l) == base + AlignDown(r, l)
  {
    AlignedBelow(base, level, l);
    AlignedDown(r, l);
    AlignedSum(base, AlignDown(r, l), l);
    AlignUnique(base + r, base + AlignDown(r, l), l);
  }

  lemma AlignedBelow(base: nat, level: nat, l: nat)
    requires l <= level <= 2 && Aligned(base, level)
    ensures Aligned(base, l)
  {
    if level == 2 && l == 1 {
      Exact(512 * (base / 0x4000_0000), 1);
    } else if level == 2 && l == 0 {
      Exact(0x4_0000 * (base / 0x4000_0000), 0);
    } else if level == 1 && l == 0 {
      Exact(512 * (base / 0x20_0000), 0);
    }
  }

  lemma Exact(q: nat, level: nat)
    requires level <= 2
    ensures level == 0 ==> q * 0x1000 / 0x1000 == q
    ensures level == 1 ==> q * 0x20_0000 / 0x20_0000 == q
    ensures level == 2 ==> q * 0x4000_0000 / 0x4000_0000 == q
  {
  }

  lemma AlignedSum(x: nat, y: nat, l: nat)
    requires l <= 2 && Aligned(x, l)
    ensures Aligned(x + y, l) <==> Aligned(y, l)
  {
    if l == 0 {
      assert (x + y) / 0x1000 == x / 0x1000 + y / 0x1000;
    } else if l == 1 {
      assert (x + y) / 0x20_0000 == x / 0x20_0000 + y / 0x20_0000;
    } else {
      assert (x + y) / 0x4000_0000 == x / 0x4000_0000 + y / 0x4000_0000;
    }
  }

  lemma CongruentBelow(x: nat, y: nat, level: nat, l: nat)
    requires l <= level <= 2 && Congruent(x, y, level)
    ensures Congruent(x, y, l)
  {
    RestBelow(x, level, l);
    RestBelow(y, level, l);
  }

  // How far an address is into a small region follows from how far it is into a large one.
  lemma RestBelow(x: nat, level: nat, l: nat)
    requires l <= level <= 2
    ensures var r := x - AlignDown(x, level);
      x - AlignDown(x, l) == r - AlignDown(r, l)
  {
    var d := AlignDown(x, level);
    var r := x - d;
    AlignedDown(x, level);
    AlignShift(d, r, level, l);
    assert d + r == x;
  }

  // One address: its translation is the contiguous one if range and memory are congruent ...
  lemma ContiguousIf(w: nat, from: nat, paddr: nat, level: nat)
    requires level <= 2 && AlignDown(from, 0) <= AlignDown(w, level) && Congruent(paddr, from, level)
    ensures RangePhys(w, AlignDown(from, 0), paddr, level) + from == paddr + w
  {
    var base := AlignDown(w, level);
    SameRest(paddr, from, base, level);
    AlignUnique(paddr + (base - AlignDown(from, 0)), paddr + base - from, level);
  }

  // ... and at the start of a leaf only then.
  lemma ContiguousOnlyIf(w: nat, from: nat, paddr: nat, level: nat)
    requires level <= 2 && AlignDown(from, 0) <= w && Aligned(w, level)
    requires RangePhys(w, AlignDown(from, 0), paddr, level) + from == paddr + w
    ensures Congruent(paddr, from, level)
  {
    AlignedDown(paddr + (w - AlignDown(from, 0)), level);
    CongruentSum(AlignDown(paddr + (w - AlignDown(from, 0)), level), from, paddr, w, level);
  }

  lemma AlignedDown(x: nat, level: nat)
    requires level <= 2
    ensures Aligned(AlignDown(x, level), level)
  {
  }

  lemma CongruentSum(x: nat, from: nat, paddr: nat, w: nat, level: nat)
    requires level <= 2 && Aligned(x, level) && Aligned(w, level) && x + from == w + paddr
    ensures Congruent(paddr, from, level)
  {
    AlignShift(x, from, level, level);
    AlignShift(w, paddr, level, level);
  }

  lemma SameRest(paddr: nat, from: nat, base: nat, level: nat)
    requires level <= 2 && Congruent(paddr, from, level) && Aligned(base, level) && AlignDown(from, 0) <= base
    ensures from <= paddr + base && Aligned(paddr + base - from, level)
  {
    var x, y := AlignDown(paddr, level), AlignDown(from, level);
    AlignedDown(paddr, level);
    AlignedDown(from, level);
    AlignedSum(x, base, level);
    AlignShift(y, from - y, level, 0);
    AlignedSum(y, x + base - y, level);
  }

  // It need not be: three large pages from address 0 to physical address 0x1000 go to physical address 0.
  lemma MisalignedExample()
    ensures LevelAt(0, 0x60_0000, 0, 2) == 1 && RangePhys(0, 0, 0x1000, 1) == 0
  {
    assert LevelAt(0, 0x60_0000, 0, 1) == 1;
  }

  // mapPageRange is contiguous, every address of the rounded range being mapped as far from `paddr` as it is
  // from `from`, exactly when `paddr` and `from` agree modulo the largest leaf that the range uses.
  lemma ContiguousIff(from: nat, to: nat, paddr: nat)
    requires from < to
    ensures var start, end := AlignDown(from, 0), AlignDown(to + PAGE - 1, 0);
      (forall w: nat :: start <= w < end ==>
         var l := LevelAt(start, end, w, 2);
         l <= 2 && start <= AlignDown(w, l) && RangePhys(w, start, paddr, l) + from == paddr + w)
      <==> Congruent(paddr, from, BestLevel(start, end))
  {
    if Congruent(paddr, from, BestLevel(AlignDown(from, 0), AlignDown(to + PAGE - 1, 0))) {
      CongruentIsContiguous(from, to, paddr);
    } else {
      NotCongruent(from, to, paddr);
    }
  }

  lemma CongruentIsContiguous(from: nat, to: nat, paddr: nat)
    requires from < to && Congruent(paddr, from, BestLevel(AlignDown(from, 0), AlignDown(to + PAGE - 1, 0)))
    ensures var start, end := AlignDown(from, 0), AlignDown(to + PAGE - 1, 0);
      forall w: nat :: start <= w < end ==>
        var l := LevelAt(start, end, w, 2);
        l <= 2 && start <= AlignDown(w, l) && RangePhys(w, start, paddr, l) + from == paddr + w
  {
    var start, end := AlignDown(from, 0), AlignDown(to + PAGE - 1, 0);
    AlignedDown(from, 0);
    forall w: nat | start <= w < end
      ensures var l := LevelAt(start, end, w, 2);
        l <= 2 && start <= AlignDown(w, l) && RangePhys(w, start, paddr, l) + from == paddr + w
    {
      var l := LevelAt(start, end, w, 2);
      LevelAtMost(start, end, w);
      CongruentBelow(paddr, from, BestLevel(start, end), l);
      LevelAtInside(start, end, w, 2);
      ContiguousIf(w, from, paddr, l);
    }
  }

  lemma NotCongruent(from: nat, to: nat, paddr: nat)
    requires from < to && !Congruent(paddr, from, BestLevel(AlignDown(from, 0), AlignDown(to + PAGE - 1, 0)))
    ensures var start, end := AlignDown(from, 0), AlignDown(to + PAGE - 1, 0);
      exists w: nat :: start <= w < end &&
        var l := LevelAt(start, end, w, 2);
        l <= 2 && start <= AlignDown(w, l) && RangePhys(w, start, paddr, l) + from != paddr + w
  {
    var start, end := AlignDown(from, 0), AlignDown(to + PAGE - 1, 0);
    AlignedDown(from, 0);
    var best := BestLevel(start, end);
    var w := BestStart(start, end);
    if RangePhys(w, start, paddr, best) + from == paddr + w {
      ContiguousOnlyIf(w, from, paddr, best);
    }
  }

  // The leaf that covers an address starts inside the range.
  lemma LevelAtInside(from: nat, to: nat, w: nat, top: nat)
    requires top <= 2 && from <= w < to && Aligned(from, 0)
    ensures LevelAt(from, to, w, top) <= 2 && from <= AlignDown(w, LevelAt(from, to, w, top))
    decreases top
  {
    if top == 0 {
      InsideAligned(from, w, 0);
    } else {
      var start, end := AlignDown(from + LevelSize(top) - 1, top), AlignDown(to, top);
      AlignedDown(from + LevelSize(top) - 1, top);
      AlignedDown(to, top);
      if Splits(from, to, top) {
        if w < start {
          LevelAtInside(from, start, w, top - 1);
        } else if w < end {
          InsideAligned(start, w, top);
        } else {
          AlignedBelow(end, top, 0);
          LevelAtInside(end, to, w, top - 1);
        }
      } else {
        LevelAtInside(from, to, w, top - 1);
      }
    }
  }

  lemma InsideAligned(start: nat, w: nat, level: nat)
    requires level <= 2 && Aligned(start, level) && start <= w
    ensures start <= AlignDown(w, level)
  {
    AlignShift(start, w - start, level, level);
  }

  // An address where a leaf of the largest level starts.
  lemma BestStart(from: nat, to: nat) returns (w: nat)
    requires from < to && Aligned(from, 0)
    ensures from <= w < to && Aligned(w, BestLevel(from, to)) && LevelAt(from, to, w, 2) == BestLevel(from, to)
  {
    var best := BestLevel(from, to);
    if best == 0 {
      w := from;
      assert LevelAt(from, to, w, 2) == LevelAt(from, to, w, 1) == LevelAt(from, to, w, 0);
    } else {
      w := AlignDown(from + LevelSize(best) - 1, best);
      AlignedDown(from + LevelSize(best) - 1, best);
      assert LevelAt(from, to, w, best) == best;
      assert best == 1 ==> LevelAt(from, to, w, 2) == LevelAt(from, to, w, 1);
    }
  }
}
