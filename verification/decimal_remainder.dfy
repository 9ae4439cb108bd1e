// When long division as userspace/src/expr/expr.c does it leaves a remainder with a redundant zero in front.
module DecimalRemainder {
  import opened DecimalDigits
  import opened Multiples

  // Long division by `b` has come to the quotient `q` and the remainder `r`.
  ghost predicate Divided(n: nat, b: nat, q: nat, r: nat) {
    n == q * b + r && r < b
  }

  lemma DivideStep(n: nat, b: nat, q: nat, r: nat, x: nat, digit: nat, n': nat, q': nat, r': nat)
    requires Divided(n, b, q, r) && 10 * r + x == digit * b + r' && r' < b && n' == 10 * n + x && q' == 10 * q + digit
    ensures Divided(n', b, q', r')
  {
    TimesDigit(q, digit, b);
  }

  lemma DividedRest(n: nat, b: nat, q: nat, r: nat)
    requires Divided(n, b, q, r)
    ensures Rest(n, b) == r
  {
    QuotientRest(q, r, b);
  }

  // The remainder, one digit after the other.
  function RemainderOf(s: string, b: nat): (r: nat)
    requires Digits(s) && b > 0
    ensures r < b
  {
    if s == "" then 0 else Rest(10 * RemainderOf(s[..|s| - 1], b) + Digit(s[|s| - 1]), b)
  }

  // How often `b` is in a number.
  lemma {:induction false} Quotient(v: nat, b: nat) returns (q: nat)
    requires b > 0
    ensures v == q * b + Rest(v, b)
  {
    q := 0;
    if v >= b {
      var q0 := Quotient(v - b, b);
      OneMore(q0, b);
      q := q0 + 1;
    }
  }

  lemma {:induction false} RemainderDivides(s: string, b: nat) returns (q: nat)
    requires Digits(s) && b > 0
    ensures Divided(DVal(s), b, q, RemainderOf(s, b))
  {
    q := 0;
    if s != "" {
      var p, x := s[..|s| - 1], Digit(s[|s| - 1]);
      var q0 := RemainderDivides(p, b);
      var v := 10 * RemainderOf(p, b) + x;
      var d := Quotient(v, b);
      q := 10 * q0 + d;
      DivideStep(DVal(p), b, q0, RemainderOf(p, b), x, d, DVal(s), q, RemainderOf(s, b));
    }
  }

  lemma RemainderIs(s: string, b: nat)
    requires Digits(s) && b > 0
    ensures RemainderOf(s, b) == Rest(DVal(s), b)
  {
    var q := RemainderDivides(s, b);
    DividedRest(DVal(s), b, q, RemainderOf(s, b));
  }

  lemma RemainderSnoc(s: string, c: char, b: nat)
    requires Digits(s) && '0' <= c <= '9' && b > 0
    ensures Digits(s + [c]) && RemainderOf(s + [c], b) == Rest(10 * RemainderOf(s, b) + Digit(c), b)
  {
    assert (s + [c])[..|s|] == s;
  }

  // Digits behind a multiple of `b` that are less than `b` are the remainder.
  lemma {:induction false} SmallTail(p: string, x: string, b: nat)
    requires Digits(p) && Digits(x) && b > 0 && RemainderOf(p, b) == 0 && DVal(x) < b
    ensures Digits(p + x) && RemainderOf(p + x, b) == DVal(x)
    decreases |x|
  {
    if x == "" {
      assert p + x == p;
    } else {
      var y, c := x[..|x| - 1], x[|x| - 1];
      assert DVal(x) == 10 * DVal(y) + Digit(c);
      SmallTail(p, y, b);
      assert p + x == p + y + [c];
      SmallSnoc(p + y, c, b, DVal(y), DVal(x));
    }
  }

  lemma SmallSnoc(s: string, c: char, b: nat, r: nat, v: nat)
    requires Digits(s) && '0' <= c <= '9' && b > 0 && RemainderOf(s, b) == r && v == 10 * r + Digit(c) && v < b
    ensures Digits(s + [c]) && RemainderOf(s + [c], b) == v
  {
    RemainderSnoc(s, c, b);
  }

  // The number is a multiple of `b` followed by digits, at least one, that are less than `b`.
  ghost predicate Redundant(s: string, b: nat)
    requires Digits(s) && b > 0
  {
    exists j: nat :: j < |s| && RedundantFrom(s, b, j)
  }

  ghost predicate RedundantFrom(s: string, b: nat, j: nat)
    requires Digits(s) && b > 0 && j < |s|
  {
    Whole(DVal(s[..j]), b) && DVal(s[j..]) < b
  }

  lemma RedundantTail(s: string, b: nat, j: nat)
    requires Digits(s) && b > 0 && j < |s| && RedundantFrom(s, b, j)
    ensures RemainderOf(s, b) == DVal(s[j..])
  {
    RemainderIs(s[..j], b);
    SmallTail(s[..j], s[j..], b);
    assert s == s[..j] + s[j..];
  }

  // One more digit.
  lemma RedundantSnoc(s: string, c: char, b: nat)
    requires Digits(s) && '0' <= c <= '9' && b > 0
    ensures Digits(s + [c])
    ensures Redundant(s + [c], b) <==>
              10 * RemainderOf(s, b) + Digit(c) < b && (RemainderOf(s, b) == 0 || Redundant(s, b))
  {
    if Redundant(s + [c], b) {
      RedundantSnocOnly(s, c, b);
    }
    if 10 * RemainderOf(s, b) + Digit(c) < b && (RemainderOf(s, b) == 0 || Redundant(s, b)) {
      RedundantSnocIf(s, c, b);
    }
  }

  lemma RedundantSnocOnly(s: string, c: char, b: nat)
    requires Digits(s) && '0' <= c <= '9' && b > 0 && Digits(s + [c]) && Redundant(s + [c], b)
    ensures 10 * RemainderOf(s, b) + Digit(c) < b && (RemainderOf(s, b) == 0 || Redundant(s, b))
  {
    var t := s + [c];
    var j: nat :| j < |t| && RedundantFrom(t, b, j);
    SplitSnoc(s, c, j);
    if j == |s| {
      RemainderIs(s, b);
    } else {
      assert RedundantFrom(s, b, j);
      RedundantTail(s, b, j);
    }
  }

  lemma SplitSnoc(s: string, c: char, j: nat)
    requires Digits(s) && '0' <= c <= '9' && j <= |s|
    ensures var t := s + [c];
      && Digits(t) && t[..j] == s[..j] && t[j..] == s[j..] + [c] && DVal(t[j..]) == 10 * DVal(s[j..]) + Digit(c)
      && (j == |s| ==> t[..j] == s && DVal(t[j..]) == Digit(c))
  {
    var t := s + [c];
    assert t[..j] == s[..j] && t[j..] == s[j..] + [c];
    DValSnoc(s[j..], c);
  }

  lemma RedundantSnocIf(s: string, c: char, b: nat)
    requires Digits(s) && '0' <= c <= '9' && b > 0 && Digits(s + [c])
    requires 10 * RemainderOf(s, b) + Digit(c) < b && (RemainderOf(s, b) == 0 || Redundant(s, b))
    ensures Redundant(s + [c], b)
  {
    var t := s + [c];
    if RemainderOf(s, b) == 0 {
      SplitSnoc(s, c, |s|);
      RemainderIs(s, b);
      assert RedundantFrom(t, b, |s|);
    } else {
      var j: nat :| j < |s| && RedundantFrom(s, b, j);
      RedundantTail(s, b, j);
      SplitSnoc(s, c, j);
      assert RedundantFrom(t, b, j);
    }
  }

  // What it means for the string of the remainder: a redundant zero comes from a remainder of zero, or was there
  // before.
  lemma CanonicalSnoc(rem: string, c: char)
    requires Digits(rem) && rem != "" && '0' <= c <= '9'
    ensures Canonical(rem + [c]) <==> DVal(rem) != 0 && Canonical(rem)
  {
    ZeroDigits(rem);
    if rem[0] != '0' {
      LeadingDigit(rem);
    }
  }

  // For example 100 by 10, and 105 by 10.
  lemma RedundantExample()
    ensures Redundant("100", 10) && Redundant("105", 10)
  {
    var ten := "10";
    Ten(ten);
    SplitSnoc(ten, '0', 2);
    SplitSnoc(ten, '5', 2);
    assert ten + ['0'] == "100" && ten + ['5'] == "105";
    assert RedundantFrom(ten + ['0'], 10, 2) && RedundantFrom(ten + ['5'], 10, 2);
  }

  lemma Ten(s: string)
    requires s == "10"
    ensures Digits(s) && DVal(s) == 10
  {
    var one := [s[0]];
    assert one[..0] == "" && DVal(one) == 1;
    assert s[..1] == one;
  }
}
