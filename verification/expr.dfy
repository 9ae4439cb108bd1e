// userspace/src/expr/expr.c: arithmetic on decimal numbers of any length.
module DecimalDigits {
  // ---- Digit strings and their values

  predicate Digits(s: string) {
    forall i :: 0 <= i < |s| ==> '0' <= s[i] <= '9'
  }

  function Digit(c: char): nat
    requires '0' <= c <= '9'
  {
    (c - '0') as nat
  }

  function ToChar(d: nat): (c: char)
    requires d < 10
    ensures '0' <= c <= '9' && Digit(c) == d
  {
    '0' + d as char
  }

  function DVal(s: string): nat
    requires Digits(s)
  {
    if s == "" then 0 else 10 * DVal(s[..|s| - 1]) + Digit(s[|s| - 1])
  }

  lemma DValSnoc(s: string, c: char)
    requires Digits(s) && '0' <= c <= '9'
    ensures Digits(s + [c]) && DVal(s + [c]) == 10 * DVal(s) + Digit(c)
  {
    assert (s + [c])[..|s|] == s;
  }

  // Without zeros in front.
  function Strip(s: string): (r: string)
    ensures |r| <= |s| && r == s[|s| - |r|..] && (r != "" ==> r[0] != '0')
    ensures forall i :: 0 <= i < |s| - |r| ==> s[i] == '0'
  {
    if s != "" && s[0] == '0' then Strip(s[1..]) else s
  }

  predicate Canonical(s: string) {
    Digits(s) && s != "" && (s == "0" || s[0] != '0')
  }

  lemma {:induction false} ZeroInFront(s: string)
    requires Digits(s)
    ensures Digits("0" + s) && DVal("0" + s) == DVal(s)
  {
    if s == "" {
      assert ("0" + s)[..0] == "";
    } else {
      var p := s[..|s| - 1];
      ZeroInFront(p);
      assert ("0" + s)[..|s|] == "0" + p;
    }
  }

  lemma {:induction false} StripVal(s: string)
    requires Digits(s)
    ensures Digits(Strip(s)) && DVal(Strip(s)) == DVal(s)
    ensures Strip(s) == "" <==> DVal(s) == 0
  {
    if s != "" && s[0] == '0' {
      StripVal(s[1..]);
      StripOne(s);
    } else if s != "" {
      LeadingDigit(s);
    }
  }

  lemma StripOne(s: string)
    requires Digits(s) && s != "" && s[0] == '0'
    ensures Strip(s) == Strip(s[1..]) && DVal(s) == DVal(s[1..])
  {
    ZeroInFront(s[1..]);
    assert "0" + s[1..] == s;
  }

  lemma {:induction false} LeadingDigit(s: string)
    requires Digits(s) && s != "" && s[0] != '0'
    ensures DVal(s) > 0
  {
    if |s| > 1 {
      LeadingDigit(s[..|s| - 1]);
    }
  }

  lemma {:induction false} ZeroDigits(s: string)
    requires Digits(s)
    ensures DVal(s) == 0 <==> forall i :: 0 <= i < |s| ==> s[i] == '0'
  {
    if s != "" {
      ZeroDigits(s[..|s| - 1]);
    }
  }

  // The longer of two numbers is the larger one ...
  lemma {:induction false} LongerIsLarger(a: string, b: string)
    requires Digits(a) && Digits(b) && |a| > |b| && a[0] != '0'
    ensures DVal(a) > DVal(b)
  {
    if b == "" {
      LeadingDigit(a);
    } else {
      LongerIsLarger(a[..|a| - 1], b[..|b| - 1]);
    }
  }

  // ... and the first difference decides between numbers of the same length.
  lemma {:induction false} FirstDifference(a: string, b: string, i: nat)
    requires Digits(a) && Digits(b) && i < |a| == |b| && a[..i] == b[..i] && a[i] < b[i]
    ensures DVal(a) < DVal(b)
  {
    var p, q := a[..|a| - 1], b[..|b| - 1];
    if i < |p| {
      assert p[..i] == a[..i] && q[..i] == b[..i];
      FirstDifference(p, q, i);
    } else {
      assert p == a[..i] && q == b[..i];
    }
  }

  // ---- Results that are written from the last digit on

  // `s` without its last `k` digits, and the digit before those.
  function Cut(s: string, k: nat): (r: string)
    ensures Digits(s) ==> Digits(r)
  {
    if k <= |s| then s[..|s| - k] else ""
  }

  function DigitAt(s: string, k: nat): (d: nat)
    requires Digits(s)
    ensures d <= 9
  {
    if k < |s| then Digit(s[|s| - 1 - k]) else 0
  }

  lemma CutVal(s: string, k: nat)
    requires Digits(s)
    ensures DVal(Cut(s, k)) == 10 * DVal(Cut(s, k + 1)) + DigitAt(s, k)
  {
    var t := Cut(s, k);
    if k < |s| {
      assert t[..|t| - 1] == Cut(s, k + 1);
    }
  }

  // Of a number, `low` has been written, and `high` is still to be written in front of it.
  ghost predicate Partial(number: nat, high: nat, low: string)
    decreases |low|
  {
    if low == "" then number == high
    else '0' <= low[0] <= '9' && Partial(number, 10 * high + Digit(low[0]), low[1..])
  }

  lemma PartialStep(number: nat, high: nat, low: string, next: nat, d: nat)
    requires Partial(number, high, low) && high == 10 * next + d && d <= 9
    ensures Partial(number, next, [ToChar(d)] + low)
  {
    assert ([ToChar(d)] + low)[1..] == low;
  }

  lemma {:induction false} PartialDone(number: nat, done: string, low: string)
    requires Digits(done) && Partial(number, DVal(done), low)
    ensures Digits(done + low) && DVal(done + low) == number
    decreases |low|
  {
    if low == "" {
      assert done + low == done;
    } else {
      DValSnoc(done, low[0]);
      PartialDone(number, done + [low[0]], low[1..]);
      assert done + [low[0]] + low[1..] == done + low;
    }
  }

  lemma TimesDigit(high: nat, x: nat, d: nat)
    ensures (10 * high + x) * d == 10 * (high * d) + x * d
  {
  }

  lemma MulCarry(high: nat, x: nat, d: nat, carry: nat)
    requires x <= 9 && d <= 9 && carry <= 8
    ensures var v := carry + x * d;
      0 <= v <= 89 && (10 * high + x) * d + carry == 10 * (high * d + v / 10) + v % 10
  {
    TimesDigit(high, x, d);
    assert x * d <= 9 * d;
  }

  lemma TenTimes(a: nat, b: nat)
    ensures 10 * (a * b) == a * (10 * b)
  {
  }

  function Pow10(n: nat): nat {
    if n == 0 then 1 else 10 * Pow10(n - 1)
  }

  function Zeros(n: nat): (r: string)
    ensures |r| == n && forall i :: 0 <= i < n ==> r[i] == '0'
  {
    seq(n, _ => '0')
  }

  lemma {:induction false} ShiftVal(s: string, n: nat)
    requires Digits(s)
    ensures DVal(s + Zeros(n)) == DVal(s) * Pow10(n)
  {
    if n == 0 {
      assert s + Zeros(0) == s;
    } else {
      ShiftVal(s, n - 1);
      assert s + Zeros(n) == s + Zeros(n - 1) + "0";
      DValSnoc(s + Zeros(n - 1), '0');
      TenTimes(DVal(s), Pow10(n - 1));
    }
  }
}

module Expr {
  import opened Basics
  import opened DecimalDigits
  import opened DecimalRemainder
  import opened Multiples

  // ---- Integers as strings: a minus sign or none, then digits

  predicate IsNumber(s: string) {
    s != "" && Digits(Unsigned(s)) && Unsigned(s) != ""
  }

  predicate Negative(s: string) {
    s != "" && s[0] == '-'
  }

  function Unsigned(s: string): string {
    if Negative(s) then s[1..] else s
  }

  function Val(s: string): int
    requires IsNumber(s)
  {
    if Negative(s) then 0 - DVal(s[1..]) else DVal(s)
  }

  // No redundant zeros behind the sign. ("-0" is possible.)
  predicate Normal(s: string) {
    Canonical(Unsigned(s))
  }

  // How often an operation still has to deal with a sign.
  function Signs(a: string, b: string): nat {
    (if Negative(a) then 1 else 0) + if Negative(b) then 1 else 0
  }

  // isZero, also for strings that are no numbers
  method IsZero(s: string) returns (zero: bool)
    ensures zero <==> forall i :: 0 <= i < |Unsigned(s)| ==> Unsigned(s)[i] == '0'
    ensures IsNumber(s) ==> (zero <==> Val(s) == 0)
  {
    if s == "" {
      return true;
    }
    var t := if s[0] == '-' then s[1..] else s;
    if IsNumber(s) {
      ZeroDigits(t);
    }
    for i := 0 to |t|
      invariant forall j :: 0 <= j < i ==> t[j] == '0'
    {
      if t[i] != '0' {
        return false;
      }
    }
    return true;
  }

  // isInteger
  method IsInteger(s: string) returns (ok: bool)
    ensures ok <==> IsNumber(s)
  {
    var i := if Negative(s) then 1 else 0;
    ghost var first := i;
    assert Unsigned(s) == s[first..];
    while true
      invariant first <= i <= |s| && (i > first ==> i < |s|)
      invariant forall j :: first <= j < i ==> '0' <= s[j] <= '9'
      decreases |s| - i
    {
      if i == |s| || s[i] < '0' || s[i] > '9' {
        if i < |s| {
          assert s[first..][i - first] == s[i];
        }
        return false;
      }
      i := i + 1;
      if i == |s| {
        break;
      }
    }
    return true;
  }

  // negInline
  function NegInline(s: string): (r: string)
    requires IsNumber(s)
    ensures IsNumber(r) && Val(r) == -Val(s) && Unsigned(r) == Unsigned(s) && Negative(r) != Negative(s)
  {
    if s[0] == '-' then s[1..] else
      assert ("-" + s)[1..] == s;
      "-" + s
  }

  // Skipping zeros, as most of the operations begin.
  method SkipZeros(s: string) returns (r: string)
    requires Digits(s)
    ensures r == Strip(s) && Digits(r) && DVal(r) == DVal(s) && (r == "" <==> DVal(s) == 0)
  {
    var i := 0;
    while i < |s| && s[i] == '0'
      invariant i <= |s| && Strip(s) == Strip(s[i..])
    {
      i := i + 1;
    }
    r := s[i..];
    StripVal(s);
  }

  lemma SingleZero()
    ensures DVal("0") == 0
  {
    assert "0"[..0] == "";
  }

  // Skipping zeros in a result; the last digit stays.
  method TrimResult(res: string) returns (r: string)
    requires Digits(res) && res != ""
    ensures Canonical(r) && DVal(r) == DVal(res)
  {
    r := SkipZeros(res);
    if r == "" {
      assert res[|res| - 1] == '0';
      r := res[|res| - 1..];
      assert r == "0";
      SingleZero();
    } else {
      assert r[0] != '0';
    }
  }

  // strcmp, on numbers of the same length
  method CompareDigits(a: string, b: string) returns (r: int)
    requires Digits(a) && Digits(b) && |a| == |b|
    ensures (r < 0 <==> DVal(a) < DVal(b)) && (r > 0 <==> DVal(a) > DVal(b))
  {
    for i := 0 to |a|
      invariant a[..i] == b[..i]
    {
      if a[i] != b[i] {
        if a[i] < b[i] {
          FirstDifference(a, b, i);
        } else {
          FirstDifference(b, a, i);
        }
        return a[i] as int - b[i] as int;
      }
    }
    assert a == a[..|a|] == b[..|a|] == b;
    return 0;
  }

  // Two zeros of different sign: the one pair that is not compared by value.
  predicate MixedZeros(a: string, b: string)
    requires IsNumber(a) && IsNumber(b)
  {
    Val(a) == 0 && Val(b) == 0 && Negative(a) != Negative(b)
  }

  // cmpInteger
  method CmpInteger(a: string, b: string) returns (r: int)
    requires IsNumber(a) && IsNumber(b)
    ensures r < 0 <==> Val(a) < Val(b) || (MixedZeros(a, b) && Negative(a))
    ensures r > 0 <==> Val(a) > Val(b) || (MixedZeros(a, b) && Negative(b))
    decreases Signs(a, b)
  {
    if a[0] == '-' && b[0] == '-' {
      var c := CmpInteger(a[1..], b[1..]);
      return -c;
    } else if a[0] == '-' {
      return -1;
    } else if b[0] == '-' {
      return 1;
    } else {
      var x := SkipZeros(a);
      var y := SkipZeros(b);
      if |x| != |y| {
        if |x| > |y| {
          LongerIsLarger(x, y);
        } else {
          LongerIsLarger(y, x);
        }
        return |x| - |y|;
      }
      r := CompareDigits(x, y);
    }
  }

  // Writing one more digit of a result into its buffer.
  method PutDigit(res: array<char>, k: nat, d: nat, ghost number: nat, ghost high: nat, ghost next: nat)
    requires k < res.Length && d <= 9 && Partial(number, high, res[k + 1..]) && high == 10 * next + d
    modifies res
    ensures Partial(number, next, res[k..])
  {
    ghost var low := res[k + 1..];
    res[k] := ToChar(d);
    PartialStep(number, high, low, next, d);
    assert res[k..] == [ToChar(d)] + low;
  }

  method Finish(res: array<char>, ghost number: nat) returns (r: string)
    requires res.Length > 0 && Partial(number, 0, res[0..])
    ensures Canonical(r) && DVal(r) == number
  {
    assert res[0..] == res[..] == "" + res[..];
    PartialDone(number, "", res[..]);
    r := TrimResult(res[..]);
  }

  // The lowest `pos` digits of the sum are done, and are `low`.
  ghost predicate Added(a: string, b: string, pos: nat, carry: nat, number: nat, high: nat, low: string)
    requires Digits(a) && Digits(b)
  {
    && carry <= 1 && high == DVal(Cut(a, pos)) + DVal(Cut(b, pos)) + carry && (pos > |a| ==> high == 0)
    && Partial(number, high, low)
  }

  lemma AddBegins(a: string, b: string, number: nat)
    requires Digits(a) && Digits(b) && number == DVal(a) + DVal(b)
    ensures Added(a, b, 0, 0, number, number, "")
  {
    assert Cut(a, 0) == a && Cut(b, 0) == b;
  }

  // The digit loop of addInteger.
  method AddDigits(a: string, b: string) returns (r: string)
    requires Digits(a) && Digits(b) && |a| >= |b|
    ensures Canonical(r) && DVal(r) == DVal(a) + DVal(b)
  {
    var res := new char[|a| + 1](_ => '0');
    ghost var number := DVal(a) + DVal(b);
    AddLoop(a, b, res, number);
    r := Finish(res, number);
  }

  method AddLoop(a: string, b: string, res: array<char>, ghost number: nat)
    requires Digits(a) && Digits(b) && |a| >= |b| && number == DVal(a) + DVal(b) && res.Length == |a| + 1
    modifies res
    ensures Partial(number, 0, res[0..])
  {
    var pos: nat, carry: nat := 0, 0;
    ghost var high := number;
    AddBegins(a, b, number);
    assert res[|a| + 1 - 0..] == "";
    while pos <= |a|
      invariant pos <= |a| + 1 && Added(a, b, pos, carry, number, high, res[|a| + 1 - pos..])
    {
      carry, high := AddRound(a, b, res, pos, carry, number, high);
      pos := pos + 1;
    }
  }

  method AddRound(a: string, b: string, res: array<char>, pos: nat, carry0: nat, ghost number: nat, ghost high: nat)
    returns (carry: nat, ghost next: nat)
    requires Digits(a) && Digits(b) && |a| >= |b| && pos <= |a| && res.Length == |a| + 1
    requires Added(a, b, pos, carry0, number, high, res[|a| + 1 - pos..])
    modifies res
    ensures Added(a, b, pos + 1, carry, number, next, res[|a| + 1 - (pos + 1)..])
  {
    var v := carry0 + DigitAt(a, pos) + DigitAt(b, pos);
    CutVal(a, pos);
    CutVal(b, pos);
    carry := v / 10;
    next := DVal(Cut(a, pos + 1)) + DVal(Cut(b, pos + 1)) + carry;
    PutDigit(res, |a| - pos, v % 10, number, high, next);
  }

  // The inner loop of subInteger: as many tens as the digit needs.
  method Borrow(digit: nat, sub: nat) returns (val: nat, carry: nat)
    requires digit <= 9 && sub <= 10
    ensures carry == (if sub > digit then 1 else 0) && val == digit + 10 * carry && sub <= val <= sub + 9
  {
    val, carry := digit, 0;
    while sub > val
      invariant val == digit + 10 * carry && carry <= 1
      invariant carry == 1 ==> sub > digit
    {
      carry := carry + 1;
      val := val + 10;
    }
  }

  // The lowest `pos` digits of the difference are done, and are `low`.
  ghost predicate Subtracted(a: string, b: string, pos: nat, carry: nat, number: nat, high: nat, low: string)
    requires Digits(a) && Digits(b)
  {
    carry <= 1 && high == DVal(Cut(a, pos)) - DVal(Cut(b, pos)) - carry && Partial(number, high, low)
  }

  lemma SubBegins(a: string, b: string, number: nat)
    requires Digits(a) && Digits(b) && number == DVal(a) - DVal(b)
    ensures Subtracted(a, b, 0, 0, number, number, "")
  {
    assert Cut(a, 0) == a && Cut(b, 0) == b;
  }

  lemma SubEnds(a: string, b: string, pos: nat, carry: nat, number: nat, high: nat, low: string)
    requires Digits(a) && Digits(b) && pos == |a| >= |b| && Subtracted(a, b, pos, carry, number, high, low)
    ensures Partial(number, 0, low)
  {
    assert Cut(a, pos) == "" && Cut(b, pos) == "";
  }

  method SubRound(a: string, b: string, res: array<char>, pos: nat, carry0: nat, ghost number: nat, ghost high: nat)
    returns (carry: nat, ghost next: nat)
    requires Digits(a) && Digits(b) && |a| >= |b| && pos < |a| && res.Length == |a|
    requires Subtracted(a, b, pos, carry0, number, high, res[|a| - pos..])
    modifies res
    ensures Subtracted(a, b, pos + 1, carry, number, next, res[|a| - (pos + 1)..])
  {
    var val, sub := DigitAt(a, pos), carry0 + DigitAt(b, pos);
    CutVal(a, pos);
    CutVal(b, pos);
    val, carry := Borrow(val, sub);
    next := DVal(Cut(a, pos + 1)) - DVal(Cut(b, pos + 1)) - carry;
    PutDigit(res, |a| - 1 - pos, val - sub, number, high, next);
  }

  // The digit loop of subInteger, for numbers that are not both zero.
  method SubDigits(a: string, b: string) returns (r: string)
    requires Digits(a) && Digits(b) && |a| >= |b| && DVal(a) >= DVal(b) && a != ""
    ensures Canonical(r) && DVal(r) == DVal(a) - DVal(b)
  {
    ghost var number: nat := DVal(a) - DVal(b);
    var res := new char[|a|](_ => '0');
    SubLoop(a, b, res, number);
    r := Finish(res, number);
  }

  method SubLoop(a: string, b: string, res: array<char>, ghost number: nat)
    requires Digits(a) && Digits(b) && |a| >= |b| && number == DVal(a) - DVal(b) && res.Length == |a|
    modifies res
    ensures Partial(number, 0, res[0..])
  {
    var pos: nat, carry: nat := 0, 0;
    ghost var high := number;
    SubBegins(a, b, number);
    assert res[|a| - 0..] == "";
    while pos < |a|
      invariant pos <= |a| && Subtracted(a, b, pos, carry, number, high, res[|a| - pos..])
    {
      carry, high := SubRound(a, b, res, pos, carry, number, high);
      pos := pos + 1;
    }
    SubEnds(a, b, pos, carry, number, high, res[0..]);
  }

  lemma WithoutSign(s: string)
    requires IsNumber(s) && s[0] == '-'
    ensures IsNumber(s[1..]) && !Negative(s[1..]) && Val(s[1..]) == -Val(s) >= 0
    ensures Unsigned(s[1..]) == Unsigned(s)
  {
    assert s[1..][0] != '-';
  }

  // The last case of addInteger: no signs, and the larger number first.
  method AddUnsigned(a: string, b: string) returns (r: string)
    requires Digits(a) && Digits(b) && DVal(a) >= DVal(b)
    ensures Canonical(r) && DVal(r) == DVal(a) + DVal(b)
  {
    var x := SkipZeros(a);
    var y := SkipZeros(b);
    if |y| > |x| {
      LongerIsLarger(y, x);
    }
    r := AddDigits(x, y);
  }

  // The last case of subInteger. None is the subtraction of a zero from a zero, which writes in front of its buffer.
  method SubUnsigned(a: string, b: string) returns (r: Option<string>)
    requires Digits(a) && Digits(b) && DVal(a) >= DVal(b)
    ensures r == None <==> DVal(a) == 0
    ensures r.Some? ==> Canonical(r.value) && DVal(r.value) == DVal(a) - DVal(b)
  {
    var x := SkipZeros(a);
    var y := SkipZeros(b);
    if |y| > |x| {
      LongerIsLarger(y, x);
    }
    if x == "" {
      return None;
    }
    var d := SubDigits(x, y);
    return Some(d);
  }

  // addInteger
  method AddInteger(a: string, b: string) returns (r: Option<string>)
    requires IsNumber(a) && IsNumber(b)
    ensures r == None <==> MixedZeros(a, b)
    ensures r.Some? ==> IsNumber(r.value) && Normal(r.value) && Val(r.value) == Val(a) + Val(b)
    ensures !Negative(a) && !Negative(b) ==> r.Some? && !Negative(r.value)
    decreases Signs(a, b), if Val(a) < Val(b) then 1 else 0
  {
    if a[0] == '-' && b[0] == '-' {
      WithoutSign(a);
      WithoutSign(b);
      var c := AddInteger(a[1..], b[1..]);
      return Some(NegInline(c.value));
    } else if a[0] == '-' {
      WithoutSign(a);
      var c := CmpInteger(a[1..], b);
      if c > 0 {
        var d := SubInteger(a[1..], b);
        return Some(NegInline(d.value));
      } else {
        r := SubInteger(b, a[1..]);
      }
    } else if b[0] == '-' {
      WithoutSign(b);
      var c := CmpInteger(a, b[1..]);
      if c < 0 {
        var d := SubInteger(b[1..], a);
        return Some(NegInline(d.value));
      } else {
        r := SubInteger(a, b[1..]);
      }
    } else {
      var c := CmpInteger(a, b);
      if c < 0 {
        r := AddInteger(b, a);
      } else {
        var d := AddUnsigned(a, b);
        return Some(d);
      }
    }
  }

  // subInteger
  method SubInteger(a: string, b: string) returns (r: Option<string>)
    requires IsNumber(a) && IsNumber(b)
    ensures r == None <==> Val(a) == 0 && Val(b) == 0 && Negative(a) == Negative(b)
    ensures r.Some? ==> IsNumber(r.value) && Normal(r.value) && Val(r.value) == Val(a) - Val(b)
    ensures !Negative(a) && !Negative(b) && r.Some? && Val(a) >= Val(b) ==> !Negative(r.value)
    decreases Signs(a, b), if Val(a) < Val(b) then 1 else 0
  {
    if a[0] == '-' && b[0] == '-' {
      WithoutSign(a);
      WithoutSign(b);
      r := SubInteger(b[1..], a[1..]);
    } else if a[0] == '-' {
      WithoutSign(a);
      var c := AddInteger(a[1..], b);
      return Some(NegInline(c.value));
    } else if b[0] == '-' {
      WithoutSign(b);
      r := AddInteger(a, b[1..]);
    } else {
      var c := CmpInteger(a, b);
      if c < 0 {
        var d := SubInteger(b, a);
        return Some(NegInline(d.value));
      }
      r := SubUnsigned(a, b);
    }
  }

  // decShiftInline
  method DecShift(s: string, pow: nat) returns (r: string)
    requires Digits(s)
    ensures r == s + Zeros(pow) && Digits(r) && DVal(r) == DVal(s) * Pow10(pow)
  {
    r := s;
    for i := 0 to pow
      invariant r == s + Zeros(i)
    {
      r := r + "0";
    }
    ShiftVal(s, pow);
  }

  // The lowest `pos` digits of the product are done, and are `low`.
  ghost predicate Multiplied(a: string, d: nat, pos: nat, carry: nat, number: nat, high: nat, low: string)
    requires Digits(a)
  {
    && carry <= 8 && high == DVal(Cut(a, pos)) * d + carry && (pos > |a| ==> high == 0)
    && Partial(number, high, low)
  }

  lemma MulBegins(a: string, d: nat, number: nat)
    requires Digits(a) && number == DVal(a) * d
    ensures Multiplied(a, d, 0, 0, number, number, "")
  {
    assert Cut(a, 0) == a;
  }

  method MulRound(a: string, d: nat, res: array<char>, pos: nat, carry0: nat, ghost number: nat, ghost high: nat)
    returns (carry: nat, ghost next: nat)
    requires Digits(a) && d <= 9 && pos <= |a| && res.Length == |a| + 1
    requires Multiplied(a, d, pos, carry0, number, high, res[|a| + 1 - pos..])
    modifies res
    ensures Multiplied(a, d, pos + 1, carry, number, next, res[|a| + 1 - (pos + 1)..])
  {
    CutVal(a, pos);
    MulCarry(DVal(Cut(a, pos + 1)), DigitAt(a, pos), d, carry0);
    var v := carry0 + DigitAt(a, pos) * d;
    carry := v / 10;
    next := DVal(Cut(a, pos + 1)) * d + carry;
    PutDigit(res, |a| - pos, v % 10, number, high, next);
  }

  // The digit loop of mulInteger.
  method MulDigit(a: string, d: nat) returns (r: string)
    requires Digits(a) && d <= 9
    ensures Canonical(r) && DVal(r) == DVal(a) * d
  {
    var res := new char[|a| + 1](_ => '0');
    ghost var number := DVal(a) * d;
    MulLoop(a, d, res, number);
    r := Finish(res, number);
  }

  method MulLoop(a: string, d: nat, res: array<char>, ghost number: nat)
    requires Digits(a) && d <= 9 && number == DVal(a) * d && res.Length == |a| + 1
    modifies res
    ensures Partial(number, 0, res[0..])
  {
    var pos: nat, carry: nat := 0, 0;
    ghost var high := number;
    MulBegins(a, d, number);
    assert res[|a| + 1 - 0..] == "";
    while pos <= |a|
      invariant pos <= |a| + 1 && Multiplied(a, d, pos, carry, number, high, res[|a| + 1 - pos..])
    {
      carry, high := MulRound(a, d, res, pos, carry, number, high);
      pos := pos + 1;
    }
  }

  function Abs(x: int): nat {
    if x < 0 then -x else x
  }

  // mulInteger
  method MulInteger(a: string, b: string) returns (r: string)
    requires IsNumber(a) && IsNumber(b)
    ensures IsNumber(r) && Normal(r) && Val(r) == Val(a) * Val(b)
    ensures Negative(r) <==> Negative(a) != Negative(b)
    decreases Signs(a, b), if Abs(Val(a)) >= 10 && Abs(Val(b)) >= 10 then 1 else 0, if Val(a) < Val(b) then 7 else 5
  {
    if a[0] == '-' && b[0] == '-' {
      WithoutSign(a);
      WithoutSign(b);
      r := MulInteger(a[1..], b[1..]);
      NegatedProduct(Val(a[1..]), Val(b[1..]), Val(a), Val(b), Val(r), Val(r));
    } else if a[0] == '-' {
      WithoutSign(a);
      var c := MulInteger(a[1..], b);
      r := NegInline(c);
      NegatedProduct(Val(a[1..]), Val(b), Val(a), Val(b), Val(c), Val(r));
    } else if b[0] == '-' {
      WithoutSign(b);
      var c := MulInteger(a, b[1..]);
      r := NegInline(c);
      NegatedProduct(Val(a), Val(b[1..]), Val(a), Val(b), Val(c), Val(r));
    } else {
      r := MulOrdered(a, b);
    }
  }

  // Its cases without signs: the larger number goes first.
  method MulOrdered(a: string, b: string) returns (r: string)
    requires IsNumber(a) && IsNumber(b) && !Negative(a) && !Negative(b)
    ensures Canonical(r) && DVal(r) == DVal(a) * DVal(b)
    decreases 0, if Val(a) >= 10 && Val(b) >= 10 then 1 else 0, if Val(a) < Val(b) then 6 else 4
  {
    var c := CmpInteger(a, b);
    if c < 0 {
      r := MulInteger(b, a);
    } else {
      r := MulUnsigned(a, b);
    }
  }

  lemma NegatedProduct(x: int, y: int, x': int, y': int, p: int, p': int)
    requires p == x * y
    requires (x' == -x && y' == -y && p' == p) || (x' == -x && y' == y && p' == -p) || (x' == x && y' == -y && p' == -p)
    ensures p' == x' * y'
  {
    NegatedFactor(x, y);
    NegatedFactor(y, x);
    NegatedFactor(-x, y);
    NegatedFactor(-y, x);
  }

  lemma NegatedFactor(x: int, y: int)
    ensures (-x) * y == -(x * y) == y * (-x)
  {
  }

  method MulUnsigned(a: string, b: string) returns (r: string)
    requires Digits(a) && Digits(b) && DVal(a) >= DVal(b)
    ensures Canonical(r) && DVal(r) == DVal(a) * DVal(b)
    decreases 0, if DVal(a) >= 10 && DVal(b) >= 10 then 1 else 0, 3
  {
    var x := SkipZeros(a);
    var y := SkipZeros(b);
    r := MulStripped(x, y);
    SameProduct(DVal(x), DVal(y), DVal(a), DVal(b));
  }

  // Without zeros in front.
  method MulStripped(x: string, y: string) returns (r: string)
    requires Digits(x) && Digits(y) && DVal(x) >= DVal(y) && (y != "" ==> y[0] != '0' && x != "")
    ensures Canonical(r) && DVal(r) == DVal(x) * DVal(y)
    decreases 0, if DVal(x) >= 10 && DVal(y) >= 10 then 1 else 0, 2
  {
    if |y| == 1 {
      r := MulShort(x, y);
    } else {
      if y != "" {
        DigitString('9');
        LongerIsLarger(y, "9");
      }
      r := MulLong(x, y);
    }
  }

  method MulShort(x: string, y: string) returns (r: string)
    requires Digits(x) && Digits(y) && |y| == 1
    ensures Canonical(r) && DVal(r) == DVal(x) * DVal(y)
  {
    assert y == [y[0]];
    DigitString(y[0]);
    r := MulDigit(x, Digit(y[0]));
  }

  lemma SameProduct(x: nat, y: nat, x': nat, y': nat)
    requires x == x' && y == y'
    ensures x * y == x' * y'
  {
  }

  // The product with the digits of `y` up to `i` has been added up.
  ghost predicate ProductUpTo(x: string, y: string, i: nat, sum: nat) {
    Digits(x) && Digits(y) && i <= |y| && sum == DVal(x) * DVal(y[..i]) * Pow10(|y| - i)
  }

  method MulLong(x: string, y: string) returns (r: string)
    requires Digits(x) && Digits(y) && (y != "" ==> x != "")
    ensures Canonical(r) && DVal(r) == DVal(x) * DVal(y)
    decreases 0, if y == "" then 0 else 1, 1
  {
    r := "0";
    DigitString('0');
    for i := 0 to |y|
      invariant Canonical(r) && ProductUpTo(x, y, i, DVal(r))
    {
      r := MulPart(x, y, i, r);
    }
    assert y[..|y|] == y;
  }

  // One digit of the second number.
  method MulPart(x: string, y: string, i: nat, res: string) returns (r: string)
    requires Digits(x) && Digits(y) && x != "" && i < |y| && Canonical(res) && ProductUpTo(x, y, i, DVal(res))
    ensures Canonical(r) && ProductUpTo(x, y, i + 1, DVal(r))
    decreases 0, 1, 0
  {
    DigitString(y[i]);
    var product := MulInteger(x, [y[i]]);
    var part := DecShift(product, |y| - 1 - i);
    PartialProduct(x, y, i, DVal(res), DVal(part));
    var next := AddInteger(res, part);
    r := next.value;
  }

  lemma PartialProduct(x: string, y: string, i: nat, sum: nat, part: nat)
    requires Digits(x) && Digits(y) && i < |y| && ProductUpTo(x, y, i, sum)
    requires part == DVal(x) * Digit(y[i]) * Pow10(|y| - 1 - i)
    ensures ProductUpTo(x, y, i + 1, sum + part)
  {
    assert y[..i + 1] == y[..i] + [y[i]];
    DValSnoc(y[..i], y[i]);
    AddPart(DVal(x), DVal(y[..i]), Digit(y[i]), Pow10(|y| - 1 - i));
  }

  lemma AddPart(f: nat, s: nat, d: nat, p: nat)
    ensures f * s * (10 * p) + f * d * p == f * (10 * s + d) * p
  {
    TimesTen(f * s, p);
    assert f * (10 * s + d) == 10 * (f * s) + f * d;
  }

  lemma TimesTen(a: nat, b: nat)
    ensures a * (10 * b) == (10 * a) * b
  {
  }

  lemma DigitString(c: char)
    requires '0' <= c <= '9'
    ensures IsNumber([c]) && !Negative([c]) && Digits([c]) && DVal([c]) == Digit(c)
  {
    assert [c][..0] == "";
    assert DVal([c]) == 10 * DVal([c][..0]) + Digit(c);
  }

  // ---- Division

  lemma DigitBound(digit: nat, b: nat, before: nat, x: nat)
    requires before < b && digit * b <= x <= 10 * before + 9
    ensures digit <= 9
  {
    var extra := digit - 10;
    assert digit * b == 10 * b + extra * b;
    assert extra >= 0 ==> extra * b >= 0;
  }

  // How often `snd` can be taken from `rem`: at most nine times.
  method QuotientDigit(rem0: string, snd: string, ghost before: nat) returns (digit: nat, rem: string)
    requires Digits(rem0) && rem0 != "" && Digits(snd) && snd != "" && before < DVal(snd)
             && DVal(rem0) <= 10 * before + 9
    ensures Digits(rem) && rem != "" && digit <= 9 && DVal(rem0) == digit * DVal(snd) + DVal(rem)
            && DVal(rem) < DVal(snd)
    ensures if digit == 0 then rem == rem0 else Canonical(rem)
  {
    digit, rem := 0, rem0;
    ghost var taken := 0;
    var c := CmpInteger(rem, snd);
    while c >= 0
      invariant Digits(rem) && rem != "" && if digit == 0 then rem == rem0 else Canonical(rem)
      invariant taken == digit * DVal(snd) && DVal(rem0) == taken + DVal(rem)
      invariant c >= 0 <==> DVal(rem) >= DVal(snd)
      decreases DVal(rem)
    {
      OneMore(digit, DVal(snd));
      digit, taken := digit + 1, taken + DVal(snd);
      var next := SubInteger(rem, snd);
      rem := next.value;
      c := CmpInteger(rem, snd);
    }
    DigitBound(digit, DVal(snd), before, DVal(rem0));
  }

  // The digits `p` have been divided, with the quotient `done` and the remainder `rem`.
  ghost predicate DividedBy(p: string, snd: string, done: string, rem: string) {
    && Digits(p) && Digits(snd) && snd != "" && Digits(done) && Digits(rem) && rem != ""
    && Divided(DVal(p), DVal(snd), DVal(done), DVal(rem)) && ZerosOk(p, DVal(snd), DVal(done), rem)
  }

  // Which zeros are in front of the remainder `rem` of `p` by `b`, if the quotient is `q`.
  ghost predicate ZerosOk(p: string, b: nat, q: nat, rem: string)
    requires Digits(p) && b > 0
  {
    (q == 0 ==> rem == "0" + p) && (Canonical(rem) <==> !Redundant(p, b))
  }

  lemma DividedStep(p: string, c: char, snd: string, done: string, rem0: string, digit: nat, rem: string)
    requires DividedBy(p, snd, done, rem0) && '0' <= c <= '9' && digit <= 9 && Digits(rem) && rem != ""
    requires 10 * DVal(rem0) + Digit(c) == digit * DVal(snd) + DVal(rem) && DVal(rem) < DVal(snd)
    requires if digit == 0 then rem == rem0 + [c] else Canonical(rem)
    ensures DividedBy(p + [c], snd, done + [ToChar(digit)], rem)
  {
    var p', done' := p + [c], done + [ToChar(digit)];
    DValSnoc(p, c);
    DValSnoc(done, ToChar(digit));
    DivideStep(DVal(p), DVal(snd), DVal(done), DVal(rem0), Digit(c), digit, DVal(p'), DVal(done'), DVal(rem));
    ZerosStep(p, c, DVal(snd), DVal(done), rem0, digit, rem, DVal(done'));
  }

  lemma ZerosStep(p: string, c: char, b: nat, q: nat, rem0: string, digit: nat, rem: string, q': nat)
    requires Digits(p) && '0' <= c <= '9' && Digits(rem0) && rem0 != "" && Digits(rem)
    requires Divided(DVal(p), b, q, DVal(rem0)) && ZerosOk(p, b, q, rem0) && q' == 10 * q + digit
    requires 10 * DVal(rem0) + Digit(c) == digit * b + DVal(rem) && DVal(rem) < b
    requires if digit == 0 then rem == rem0 + [c] else Canonical(rem)
    ensures Digits(p + [c]) && ZerosOk(p + [c], b, q', rem)
  {
    NothingYet(p, c, rem0, q, digit, rem, q');
    StillCanonical(p, c, b, q, rem0, digit, rem);
  }

  lemma NothingYet(p: string, c: char, rem0: string, q: nat, digit: nat, rem: string, q': nat)
    requires (q == 0 ==> rem0 == "0" + p) && (digit == 0 ==> rem == rem0 + [c]) && q' == 10 * q + digit
    ensures q' == 0 ==> rem == "0" + (p + [c])
  {
    assert "0" + p + [c] == "0" + (p + [c]);
  }

  lemma StillCanonical(p: string, c: char, b: nat, q: nat, rem0: string, digit: nat, rem: string)
    requires Digits(p) && '0' <= c <= '9' && Digits(rem0) && rem0 != "" && Digits(rem)
    requires Divided(DVal(p), b, q, DVal(rem0)) && (Canonical(rem0) <==> !Redundant(p, b))
    requires 10 * DVal(rem0) + Digit(c) == digit * b + DVal(rem) && DVal(rem) < b
    requires if digit == 0 then rem == rem0 + [c] else Canonical(rem)
    ensures Digits(p + [c]) && (Canonical(rem) <==> !Redundant(p + [c], b))
  {
    RemainderIs(p, b);
    DividedRest(DVal(p), b, q, DVal(rem0));
    RedundantSnoc(p, c, b);
    if digit == 0 {
      CanonicalSnoc(rem0, c);
    } else {
      AtLeast(digit, b);
    }
  }

  // One digit of the first number.
  method DivRound(ghost p: string, c: char, snd: string, ghost done: string, rem0: string)
    returns (digit: nat, rem: string)
    requires DividedBy(p, snd, done, rem0) && '0' <= c <= '9'
    ensures digit <= 9 && DividedBy(p + [c], snd, done + [ToChar(digit)], rem)
  {
    rem := DecShift(rem0, 1);
    rem := rem[|rem| - 1 := c];
    assert rem == rem0 + [c];
    DValSnoc(rem0, c);
    digit, rem := QuotientDigit(rem, snd, DVal(rem0));
    DividedStep(p, c, snd, done, rem0, digit, rem);
  }

  // The loop of divRemInteger.
  method DivideDigits(fst: string, snd: string) returns (quotient: string, rem: string)
    requires Digits(fst) && Digits(snd) && snd != "" && DVal(snd) > 0
    ensures |quotient| == |fst| && DividedBy(fst, snd, quotient, rem)
  {
    var digits := new char[|fst|](i requires 0 <= i < |fst| => fst[i]);
    rem := "0";
    DivideBegins(snd, rem);
    assert digits[..0] == "" && fst[..0] == "";
    for i := 0 to |fst|
      invariant DividedBy(fst[..i], snd, digits[..i], rem)
    {
      rem := DivideNext(fst, snd, digits, i, rem);
    }
    quotient := digits[..];
    assert fst[..|fst|] == fst && quotient == digits[..|fst|];
  }

  lemma DivideBegins(snd: string, rem: string)
    requires Digits(snd) && snd != "" && DVal(snd) > 0 && rem == "0"
    ensures DividedBy("", snd, "", rem)
  {
    DigitString('0');
    assert rem + "" == rem;
  }

  // One digit of the quotient.
  method DivideNext(fst: string, snd: string, digits: array<char>, i: nat, rem0: string) returns (rem: string)
    requires Digits(fst) && i < |fst| == digits.Length && DividedBy(fst[..i], snd, digits[..i], rem0)
    modifies digits
    ensures DividedBy(fst[..i + 1], snd, digits[..i + 1], rem)
  {
    var digit;
    ghost var done := digits[..i];
    digit, rem := DivRound(fst[..i], fst[i], snd, done, rem0);
    digits[i] := ToChar(digit);
    assert digits[..i + 1] == done + [ToChar(digit)];
    assert fst[..i + 1] == fst[..i] + [fst[i]];
  }

  // divRemInteger
  method DivRemInteger(fst: string, snd: string) returns (div: string, rem: string)
    requires Digits(fst) && fst != "" && Digits(snd) && snd != "" && DVal(snd) > 0
    ensures Canonical(div) && Digits(rem) && rem != "" && Divided(DVal(fst), DVal(snd), DVal(div), DVal(rem))
    ensures DVal(div) == 0 ==> rem == "0" + fst
    ensures Canonical(rem) <==> !Redundant(fst, DVal(snd))
  {
    var quotient;
    quotient, rem := DivideDigits(fst, snd);
    div := TrimResult(quotient);
  }

  // Division as C defines it: rounded towards zero, the remainder with the sign of the dividend.
  ghost predicate Truncated(x: int, y: int, q: int, r: int) {
    x == q * y + r && Abs(r) < Abs(y) && (x >= 0 ==> r >= 0) && (x <= 0 ==> r <= 0)
  }

  // There is only one such quotient and remainder.
  lemma TruncatedUnique(x: int, y: int, q: int, r: int, q': int, r': int)
    requires Truncated(x, y, q, r) && Truncated(x, y, q', r')
    ensures q == q' && r == r'
  {
    var k := q - q';
    assert k * y == q * y - q' * y;
    if k != 0 {
      Multiple(k, y);
    }
  }

  lemma Multiple(k: int, y: int)
    requires k != 0
    ensures Abs(k * y) >= Abs(y)
  {
    NegatedFactor(k, y);
    NegatedFactor(y, k);
    NegatedFactor(-k, y);
    AtLeast(Abs(k), Abs(y));
  }

  lemma Negated(x: int, y: int, q: int, r: int, x': int, y': int, q': int, r': int)
    requires Truncated(x, y, q, r)
    requires || (x' == -x && y' == y && q' == -q && r' == -r)
             || (x' == x && y' == -y && q' == -q && r' == r)
             || (x' == -x && y' == -y && q' == q && r' == -r)
    ensures Truncated(x', y', q', r')
  {
    NegatedProduct(q, y, q', y', q * y, if x' == x then q * y else -(q * y));
  }

  // divInteger
  method DivInteger(a: string, b: string) returns (r: string, ghost rest: int)
    requires IsNumber(a) && IsNumber(b) && Val(b) != 0
    ensures IsNumber(r) && Normal(r) && Truncated(Val(a), Val(b), Val(r), rest)
    ensures Negative(r) <==> Negative(a) != Negative(b)
    decreases Signs(a, b)
  {
    if a[0] == '-' && b[0] == '-' {
      WithoutSign(a);
      WithoutSign(b);
      r, rest := DivInteger(a[1..], b[1..]);
      Negated(Val(a[1..]), Val(b[1..]), Val(r), rest, Val(a), Val(b), Val(r), -rest);
      rest := -rest;
    } else if a[0] == '-' {
      WithoutSign(a);
      var c;
      c, rest := DivInteger(a[1..], b);
      r := NegInline(c);
      Negated(Val(a[1..]), Val(b), Val(c), rest, Val(a), Val(b), Val(r), -rest);
      rest := -rest;
    } else if b[0] == '-' {
      WithoutSign(b);
      var c;
      c, rest := DivInteger(a, b[1..]);
      r := NegInline(c);
      Negated(Val(a), Val(b[1..]), Val(c), rest, Val(a), Val(b), Val(r), rest);
    } else {
      var rem;
      r, rem := DivRemInteger(a, b);
      rest := DVal(rem);
      UnsignedDivision(Val(a), Val(b), Val(r), rest);
    }
  }

  // When the remainder of two numbers is written without redundant zeros.
  ghost predicate RemainderText(a: string, b: string, r: string)
    requires IsNumber(a) && IsNumber(b) && Val(b) != 0
  {
    Normal(r) <==> !Redundant(Unsigned(a), Abs(Val(b)))
  }

  lemma SameText(a: string, b: string, r: string, a': string, b': string, r': string)
    requires IsNumber(a) && IsNumber(b) && Val(b) != 0 && RemainderText(a, b, r)
    requires IsNumber(a') && IsNumber(b') && Val(b') != 0
    requires Unsigned(a') == Unsigned(a) && Abs(Val(b')) == Abs(Val(b)) && Unsigned(r') == Unsigned(r)
    ensures RemainderText(a', b', r')
  {
  }

  // remInteger
  method RemInteger(a: string, b: string) returns (r: string, ghost quotient: int)
    requires IsNumber(a) && IsNumber(b) && Val(b) != 0
    ensures IsNumber(r) && Truncated(Val(a), Val(b), quotient, Val(r)) && RemainderText(a, b, r)
    ensures Negative(r) <==> Negative(a)
    decreases Signs(a, b), 1
  {
    if a[0] == '-' {
      r, quotient := RemOfNegative(a, b);
    } else if b[0] == '-' {
      WithoutSign(b);
      r, quotient := RemInteger(a, b[1..]);
      SameText(a, b[1..], r, a, b, r);
      Negated(Val(a), Val(b[1..]), quotient, Val(r), Val(a), Val(b), -quotient, Val(r));
      quotient := -quotient;
    } else {
      var div;
      div, r := DivRemInteger(a, b);
      quotient := DVal(div);
      UnsignedDivision(Val(a), Val(b), quotient, Val(r));
    }
  }

  // Its cases for a negative dividend: the remainder without the signs, negated.
  method RemOfNegative(a: string, b: string) returns (r: string, ghost quotient: int)
    requires IsNumber(a) && IsNumber(b) && Val(b) != 0 && a[0] == '-'
    ensures IsNumber(r) && Truncated(Val(a), Val(b), quotient, Val(r)) && RemainderText(a, b, r) && Negative(r)
    decreases Signs(a, b), 0
  {
    WithoutSign(a);
    var b' := b;
    if b[0] == '-' {
      WithoutSign(b);
      b' := b[1..];
    }
    var c;
    c, quotient := RemInteger(a[1..], b');
    r := NegInline(c);
    SameText(a[1..], b', c, a, b, r);
    ghost var q := if b[0] == '-' then quotient else -quotient;
    Negated(Val(a[1..]), Val(b'), quotient, Val(c), Val(a), Val(b), q, Val(r));
    quotient := q;
  }

  lemma UnsignedDivision(a: nat, b: nat, q: nat, r: nat)
    requires Divided(a, b, q, r)
    ensures Truncated(a, b, q, r) && (a < b ==> q == 0)
  {
    if q > 0 {
      AtLeast(q, b);
    }
  }

  // ---- The cases that are not as one would expect

  // "-0" is less than "0".
  method MixedZerosExample() returns (c: int)
    ensures IsNumber("-0") && IsNumber("0") && Val("-0") == Val("0") && c < 0
  {
    ZeroStrings();
    c := CmpInteger("-0", "0");
  }

  // "0" minus "0" writes in front of its buffer.
  method ZeroMinusZeroExample() returns (r: Option<string>)
    ensures r == None
  {
    ZeroStrings();
    r := SubInteger("0", "0");
  }

  lemma ZeroStrings()
    ensures IsNumber("0") && IsNumber("-0") && Val("0") == 0 && Val("-0") == 0
  {
    DigitString('0');
    assert "-0"[1..] == "0";
  }

  // The remainder of 100 by 10 has a redundant zero.
  method RemainderExample(a: string, b: string) returns (r: string)
    requires a == "100" && b == "10"
    ensures IsNumber(r) && Val(r) == 0 && !Normal(r)
  {
    HundredByTen(a, b);
    ghost var q;
    r, q := RemInteger(a, b);
    TruncatedUnique(100, 10, 10, 0, q, Val(r));
  }

  lemma HundredByTen(a: string, b: string)
    requires a == "100" && b == "10"
    ensures IsNumber(a) && IsNumber(b) && Val(a) == 100 && Val(b) == 10 && Redundant(Unsigned(a), 10)
  {
    Ten(b);
    DValSnoc(b, '0');
    assert a == b + ['0'];
    RedundantExample();
  }
}
