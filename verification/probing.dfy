// Walking round a table of `n` slots, as all the open-addressing tables of the kernel do.
module Probing {
  import opened Basics

  // (i + 1) % n
  function Next(i: nat, n: nat): (r: nat)
    requires i < n
    ensures r < n
  {
    if i + 1 == n then 0 else i + 1
  }

  // (s + d) % n
  function At(s: nat, d: nat, n: nat): (r: nat)
    requires s < n && d <= n
    ensures r < n
  {
    if s + d < n then s + d else s + d - n
  }

  // The number of steps from `s` to `t`: (n + t - s) % n
  function Dist(s: nat, t: nat, n: nat): (d: nat)
    requires s < n && t < n
    ensures d < n && At(s, d, n) == t
  {
    if s <= t then t - s else t + n - s
  }

  lemma NextAt(s: nat, d: nat, n: nat)
    requires s < n && d < n
    ensures Next(At(s, d, n), n) == At(s, d + 1, n)
    ensures Dist(s, At(s, d, n), n) == d
    ensures At(s, d + 1, n) == s <==> d + 1 == n
  {
  }

  // Where the C code writes the remainder.
  lemma AsRemainder(i: nat, s: nat, n: nat)
    requires i < n && s < n
    ensures Next(i, n) == (i + 1) % n
    ensures Dist(s, i, n) == (n + i - s) % n
  {
    Remainder(i + 1, n);
    Remainder(n + i - s, n);
  }

  lemma Remainder(x: nat, n: nat)
    requires 0 < n && x < 2 * n
    ensures x % n == if x < n then x else x - n
  {
    var q := x / n;
    assert x == q * n + x % n;
    assert q < 2 || q * n >= 2 * n;
  }

  // Distinct keys in all of the slots need as many keys.
  lemma {:induction false} DistinctCount<K>(s: seq<K>, keys: set<K>)
    requires forall i :: 0 <= i < |s| ==> s[i] in keys
    requires forall i, j :: 0 <= i < j < |s| ==> s[i] != s[j]
    ensures |s| <= |keys|
  {
    if s != [] {
      var last := s[|s| - 1];
      DistinctCount(s[..|s| - 1], keys - {last});
    }
  }

  lemma SmallerMap<K>(a: map<K, nat>, b: map<K, nat>, k: K)
    requires forall x :: x in a ==> x in b
    requires k in b && k !in a
    ensures |a| < |b|
  {
    assert a.Keys <= b.Keys - {k};
    Subset(a.Keys, b.Keys - {k});
  }
}
