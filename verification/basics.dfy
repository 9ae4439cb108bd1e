// What the other modules share.
module Basics {

  datatype Option<+T> = None | Some(value: T)

  newtype byte = x: int | 0 <= x < 256

  // `s` with the bytes from `pos` on replaced by `b`.
  function Splice<T>(s: seq<T>, pos: nat, b: seq<T>): (r: seq<T>)
    requires pos + |b| <= |s|
    ensures |r| == |s|
    ensures forall i :: 0 <= i < |s| ==> r[i] == if pos <= i < pos + |b| then b[i - pos] else s[i]
  {
    s[..pos] + b + s[pos + |b|..]
  }

  function Min(a: nat, b: nat): nat {
    if a < b then a else b
  }

  // Two replacements side by side are one.
  lemma SpliceTwice<T>(s: seq<T>, pos: nat, b: seq<T>, c: seq<T>)
    requires pos + |b| + |c| <= |s|
    ensures Splice(Splice(s, pos, b), pos + |b|, c) == Splice(s, pos, b + c)
  {
  }

  lemma Subset<T>(a: set<T>, b: set<T>)
    requires a <= b
    ensures |a| <= |b|
  {
    if a != {} {
      var x :| x in a;
      Subset(a - {x}, b - {x});
    }
  }

  lemma Associative<T>(x: seq<T>, y: seq<T>, z: seq<T>)
    ensures x + (y + z) == x + y + z
  {
  }
}
