// What kernel/src/files/path.c reduces a path to: the normal form of its list of segments.
module PathSpec {

  // ---- Splitting a path

  function SegmentLength(s: string): (k: nat)
    ensures k <= |s| && (forall i :: 0 <= i < k ==> s[i] != '/') && (k < |s| ==> s[k] == '/')
  {
    if s == "" || s[0] == '/' then 0 else 1 + SegmentLength(s[1..])
  }

  // The segments between the slashes; several slashes count as one.
  function Segments(s: string): seq<string>
    decreases |s|
  {
    if s == "" then []
    else if s[0] == '/' then Segments(s[1..])
    else
      var k := SegmentLength(s);
      [s[..k]] + Segments(s[k..])
  }

  predicate Absolute(s: string) {
    s != "" && s[0] == '/'
  }

  // ---- Normalising

  // '.' is dropped; '..' cancels the segment before it, and at the root of an absolute path it is dropped too.
  function Push(abs: bool, stack: seq<string>, seg: string): seq<string> {
    if seg == "." then stack
    else if seg == ".." then
      if stack != [] && stack[|stack| - 1] != ".." then stack[..|stack| - 1]
      else if abs then stack
      else stack + [".."]
    else stack + [seg]
  }

  function Normalise(abs: bool, stack: seq<string>, segs: seq<string>): seq<string>
    decreases |segs|
  {
    if segs == [] then stack else Normalise(abs, Push(abs, stack, segs[0]), segs[1..])
  }

  predicate Segment(s: string) {
    s != "" && s != "." && forall i :: 0 <= i < |s| ==> s[i] != '/'
  }

  // The first `k` segments are '..', the others are not; and there is no '..' in an absolute path.
  predicate Normal(abs: bool, stack: seq<string>, k: nat) {
    && k <= |stack| && (abs ==> k == 0)
    && (forall i :: 0 <= i < |stack| ==> Segment(stack[i]))
    && (forall i :: 0 <= i < |stack| ==> (stack[i] == ".." <==> i < k))
  }

  // ---- Writing a path

  function Slashed(stack: seq<string>): string {
    if stack == [] then "" else Slashed(stack[..|stack| - 1]) + stack[|stack| - 1] + "/"
  }

  // With a slash behind every segment.
  function Open(abs: bool, stack: seq<string>): string {
    (if abs then "/" else "") + Slashed(stack)
  }

  // Without the last slash, but never without the first.
  function Render(abs: bool, stack: seq<string>): string {
    var s := Open(abs, stack);
    if stack == [] then s else s[..|s| - 1]
  }

  // The specification of inlineReducePath.
  function Reduced(s: string): string {
    Render(Absolute(s), Normalise(Absolute(s), [], Segments(s)))
  }

  // ---- Normal forms

  lemma {:induction false} SegmentsClean(s: string, i: nat)
    requires i < |Segments(s)|
    ensures Segments(s)[i] != "" && forall j :: 0 <= j < |Segments(s)[i]| ==> Segments(s)[i][j] != '/'
    decreases |s|
  {
    if s[0] == '/' {
      SegmentsClean(s[1..], i);
    } else if i > 0 {
      SegmentsClean(s[SegmentLength(s)..], i - 1);
    }
  }

  lemma PushNormal(abs: bool, stack: seq<string>, seg: string, k: nat) returns (k': nat)
    requires Normal(abs, stack, k) && seg != "" && forall j :: 0 <= j < |seg| ==> seg[j] != '/'
    ensures Normal(abs, Push(abs, stack, seg), k')
    ensures k' == if seg == ".." && !abs && k == |stack| then k + 1 else k
  {
    k' := if seg == ".." && !abs && k == |stack| then k + 1 else k;
  }

  lemma {:induction false} NormaliseNormal(abs: bool, stack: seq<string>, segs: seq<string>, k: nat) returns (k': nat)
    requires Normal(abs, stack, k)
    requires forall i :: 0 <= i < |segs| ==> segs[i] != "" && forall j :: 0 <= j < |segs[i]| ==> segs[i][j] != '/'
    ensures Normal(abs, Normalise(abs, stack, segs), k')
    decreases |segs|
  {
    k' := k;
    if segs != [] {
      var m := PushNormal(abs, stack, segs[0], k);
      k' := NormaliseNormal(abs, Push(abs, stack, segs[0]), segs[1..], m);
    }
  }

  // A normal form stays as it is.
  lemma {:induction false} NormaliseAgain(abs: bool, stack: seq<string>, k: nat, i: nat)
    requires Normal(abs, stack, k) && i <= |stack|
    ensures Normalise(abs, stack[..i], stack[i..]) == stack
    decreases |stack| - i
  {
    if i == |stack| {
      assert stack[..i] == stack;
    } else {
      assert stack[i..][1..] == stack[i + 1..];
      assert stack[..i + 1] == stack[..i] + [stack[i]];
      if stack[i] == ".." && i > 0 {
        assert stack[..i][i - 1] == stack[i - 1];
      }
      NormaliseAgain(abs, stack, k, i + 1);
    }
  }

  // ---- Splitting what has been written

  lemma {:induction false} SegmentsOfSlashes(seg: string, s: string)
    requires Segment(seg)
    ensures Segments(seg + "/" + s) == [seg] + Segments(s)
    ensures Segments(seg) == [seg]
  {
    var t := seg + "/" + s;
    LengthOf(seg, "/" + s);
    assert t == seg + ("/" + s);
    assert t[|seg|..] == "/" + s && ("/" + s)[1..] == s;
    LengthOf(seg, "");
    assert seg + "" == seg;
  }

  lemma {:induction false} LengthOf(seg: string, s: string)
    requires (forall i :: 0 <= i < |seg| ==> seg[i] != '/') && (s != "" ==> s[0] == '/')
    ensures SegmentLength(seg + s) == |seg| && (seg + s)[..|seg|] == seg
  {
    if seg != "" {
      assert (seg + s)[1..] == seg[1..] + s;
      LengthOf(seg[1..], s);
    }
  }

  // With the first segment in front.
  lemma {:induction false} SlashedFront(stack: seq<string>)
    requires stack != []
    ensures Slashed(stack) == stack[0] + "/" + Slashed(stack[1..])
  {
    var f := stack[..|stack| - 1];
    if |stack| == 1 {
      assert f == [] && stack[1..] == [];
    } else {
      SlashedFront(f);
      assert f[1..] == stack[1..][..|stack| - 2];
    }
  }

  lemma {:induction false} SegmentsSlashed(stack: seq<string>)
    requires forall i :: 0 <= i < |stack| ==> Segment(stack[i])
    ensures Segments(Slashed(stack)) == stack
  {
    if stack != [] {
      var rest := stack[1..];
      SegmentsSlashed(rest);
      SlashedFront(stack);
      SegmentsOfSlashes(stack[0], Slashed(rest));
      assert [stack[0]] + rest == stack;
    }
  }

  lemma {:induction false} SegmentsWithoutSlash(stack: seq<string>)
    requires stack != [] && forall i :: 0 <= i < |stack| ==> Segment(stack[i])
    ensures |Slashed(stack)| > 0 && Segments(Slashed(stack)[..|Slashed(stack)| - 1]) == stack
  {
    SlashedFront(stack);
    var rest, s := Slashed(stack[1..]), Slashed(stack);
    if |stack| == 1 {
      assert s[..|s| - 1] == stack[0];
      SegmentsOfSlashes(stack[0], "");
    } else {
      SegmentsWithoutSlash(stack[1..]);
      SegmentsOfSlashes(stack[0], rest[..|rest| - 1]);
      assert s[..|s| - 1] == stack[0] + "/" + rest[..|rest| - 1];
    }
  }

  // Splitting a rendered path gives its segments back.
  lemma RenderSplits(abs: bool, stack: seq<string>)
    requires forall i :: 0 <= i < |stack| ==> Segment(stack[i])
    ensures Segments(Render(abs, stack)) == stack && Absolute(Render(abs, stack)) == abs
  {
    SegmentsSlashed(stack);
    var s := Slashed(stack);
    if stack != [] {
      SegmentsWithoutSlash(stack);
      SlashedFront(stack);
      assert s[0] == stack[0][0];
    }
    if abs {
      assert Open(abs, stack)[1..] == s;
      if stack != [] {
        assert Render(abs, stack)[1..] == s[..|s| - 1];
      }
    } else {
      assert Open(abs, stack) == s;
    }
  }

  lemma ReducedNormal(s: string) returns (k: nat)
    ensures Normal(Absolute(s), Normalise(Absolute(s), [], Segments(s)), k)
  {
    forall i | 0 <= i < |Segments(s)|
      ensures Segments(s)[i] != "" && forall j :: 0 <= j < |Segments(s)[i]| ==> Segments(s)[i][j] != '/' {
      SegmentsClean(s, i);
    }
    k := NormaliseNormal(Absolute(s), [], Segments(s), 0);
  }

  // Reducing keeps absolute paths absolute and relative paths relative, and reducing again changes nothing.
  lemma ReducedIdempotent(s: string)
    ensures Absolute(Reduced(s)) == Absolute(s)
    ensures Segments(Reduced(s)) == Normalise(Absolute(s), [], Segments(s))
    ensures Reduced(Reduced(s)) == Reduced(s)
  {
    var stack := Normalise(Absolute(s), [], Segments(s));
    var k := ReducedNormal(s);
    RenderSplits(Absolute(s), stack);
    NormaliseAgain(Absolute(s), stack, k, 0);
    assert stack[0..] == stack && stack[..0] == [];
  }

  // ---- What a path means

  // A directory is the list of the names on the way to it from the root.
  predicate Directory(dir: seq<string>) {
    forall i :: 0 <= i < |dir| ==> Segment(dir[i]) && dir[i] != ".."
  }

  // '..' leads to the parent, and from the root to the root.
  function Enter(dir: seq<string>, seg: string): seq<string> {
    if seg == "." then dir
    else if seg == ".." then if dir == [] then [] else dir[..|dir| - 1]
    else dir + [seg]
  }

  function Reach(dir: seq<string>, segs: seq<string>): seq<string>
    decreases |segs|
  {
    if segs == [] then dir else Reach(Enter(dir, segs[0]), segs[1..])
  }

  // Where the path leads from the directory `dir`.
  function Resolve(dir: seq<string>, s: string): seq<string> {
    Reach(if Absolute(s) then [] else dir, Segments(s))
  }

  lemma {:induction false} ReachSplit(dir: seq<string>, a: seq<string>, b: seq<string>)
    ensures Reach(dir, a + b) == Reach(Reach(dir, a), b)
    decreases |a|
  {
    if a == [] {
      assert a + b == b;
    } else {
      assert (a + b)[0] == a[0] && (a + b)[1..] == a[1..] + b;
      ReachSplit(Enter(dir, a[0]), a[1..], b);
    }
  }

  lemma ReachNext(dir: seq<string>, stack: seq<string>, seg: string)
    ensures Reach(dir, stack + [seg]) == Enter(Reach(dir, stack), seg)
  {
    ReachSplit(dir, stack, [seg]);
    var there := Reach(dir, stack);
    assert Reach(there, [seg]) == Reach(Enter(there, seg), []);
  }

  lemma PushReaches(abs: bool, stack: seq<string>, seg: string, k: nat, dir: seq<string>)
    requires Normal(abs, stack, k) && (abs ==> dir == [])
    ensures Reach(dir, Push(abs, stack, seg)) == Enter(Reach(dir, stack), seg)
  {
    ReachNext(dir, stack, seg);
    if stack != [] {
      var front, last := stack[..|stack| - 1], stack[|stack| - 1];
      assert front + [last] == stack;
      ReachNext(dir, front, last);
    }
  }

  lemma {:induction false} NormaliseReaches(abs: bool, stack: seq<string>, segs: seq<string>, k: nat, dir: seq<string>)
    requires Normal(abs, stack, k) && (abs ==> dir == [])
    requires forall i :: 0 <= i < |segs| ==> segs[i] != "" && forall j :: 0 <= j < |segs[i]| ==> segs[i][j] != '/'
    ensures Reach(dir, Normalise(abs, stack, segs)) == Reach(Reach(dir, stack), segs)
    decreases |segs|
  {
    if segs != [] {
      PushReaches(abs, stack, segs[0], k, dir);
      var m := PushNormal(abs, stack, segs[0], k);
      NormaliseReaches(abs, Push(abs, stack, segs[0]), segs[1..], m, dir);
    }
  }

  // The reduced path leads from every directory to where the path leads.
  lemma ReducedMeans(s: string, dir: seq<string>)
    ensures Resolve(dir, Reduced(s)) == Resolve(dir, s)
  {
    var abs := Absolute(s);
    forall i | 0 <= i < |Segments(s)|
      ensures Segments(s)[i] != "" && forall j :: 0 <= j < |Segments(s)[i]| ==> Segments(s)[i][j] != '/'
    {
      SegmentsClean(s, i);
    }
    NormaliseReaches(abs, [], Segments(s), 0, if abs then [] else dir);
    ReducedIdempotent(s);
  }

  // The segments '..' of a normal form go up, and the others down again.
  lemma {:induction false} NormalReach(abs: bool, stack: seq<string>, k: nat, dir: seq<string>)
    requires Normal(abs, stack, k) && |dir| >= k
    ensures Reach(dir, stack) == dir[..|dir| - k] + stack[k..]
    decreases |stack|
  {
    if stack != [] {
      var n := |stack| - 1;
      var front := stack[..n];
      assert front + [stack[n]] == stack;
      NormalReach(abs, front, if k > n then n else k, dir);
      ReachNext(dir, front, stack[n]);
      assert k <= n ==> stack[k..] == front[k..] + [stack[n]];
    }
  }

  // Two normal forms that lead to the same directory from everywhere are the same.
  lemma NormalUnique(abs: bool, x: seq<string>, kx: nat, y: seq<string>, ky: nat)
    requires Normal(abs, x, kx) && Normal(abs, y, ky) && kx <= ky
    requires forall dir {:trigger Reach(dir, x)} ::
               Directory(dir) && |dir| == ky ==> Reach(dir, x) == Reach(dir, y)
    ensures x == y
  {
    var dir := seq(ky, _ => NameOtherThan(if ky < |y| then y[ky] else ""));
    NormalReach(abs, x, kx, dir);
    NormalReach(abs, y, ky, dir);
    assert Reach(dir, x) == Reach(dir, y);
    AsManyUps(dir, x[kx..], kx, y[ky..], ky);
    SameParts(abs, x, y, kx);
  }

  function NameOtherThan(s: string): (name: string)
    ensures Segment(name) && name != ".." && name != s
  {
    if s == "a" then "b" else "a"
  }

  lemma AsManyUps(dir: seq<string>, x: seq<string>, kx: nat, y: seq<string>, ky: nat)
    requires kx <= ky == |dir| && dir[..ky - kx] + x == dir[..0] + y
    requires ky > 0 && y != [] ==> dir[0] != y[0]
    ensures kx == ky && x == y
  {
    var both := dir[..ky - kx] + x;
    assert both == y;
    assert kx == ky ==> dir[..ky - kx] == [];
  }

  lemma SameParts(abs: bool, x: seq<string>, y: seq<string>, k: nat)
    requires Normal(abs, x, k) && Normal(abs, y, k) && x[k..] == y[k..]
    ensures x == y
  {
    forall i | k <= i < |x| ensures x[i] == y[i] {
      assert x[i] == x[k..][i - k] && y[i] == y[k..][i - k];
    }
  }

  // Two paths are reduced to the same one exactly if they lead to the same directory from everywhere.
  lemma ReducedSameIff(a: string, b: string)
    ensures Reduced(a) == Reduced(b) <==>
              Absolute(a) == Absolute(b) && forall dir :: Directory(dir) ==> Resolve(dir, a) == Resolve(dir, b)
  {
    ReducedIdempotent(a);
    ReducedIdempotent(b);
    if Reduced(a) == Reduced(b) {
      forall dir | Directory(dir) ensures Resolve(dir, a) == Resolve(dir, b) {
        ReducedMeans(a, dir);
        ReducedMeans(b, dir);
      }
    }
    if Absolute(a) == Absolute(b) && forall dir :: Directory(dir) ==> Resolve(dir, a) == Resolve(dir, b) {
      SameMeaning(a, b);
    }
  }

  lemma SameMeaning(a: string, b: string)
    requires Absolute(a) == Absolute(b) && forall dir :: Directory(dir) ==> Resolve(dir, a) == Resolve(dir, b)
    ensures Reduced(a) == Reduced(b)
  {
    var abs := Absolute(a);
    var x, y := Normalise(abs, [], Segments(a)), Normalise(abs, [], Segments(b));
    var kx := ReducedNormal(a);
    var ky := ReducedNormal(b);
    ReducedIdempotent(a);
    ReducedIdempotent(b);
    forall dir | Directory(dir) && (abs ==> dir == []) ensures Reach(dir, x) == Reach(dir, y) {
      ReducedMeans(a, dir);
      ReducedMeans(b, dir);
      assert Resolve(dir, a) == Resolve(dir, b);
    }
    if kx <= ky {
      NormalUnique(abs, x, kx, y, ky);
    } else {
      NormalUnique(abs, y, ky, x, kx);
    }
  }
}
