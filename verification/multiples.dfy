// Remainders and multiples of a size, by repeated subtraction.
module Multiples {

  // x % size
  function Rest(x: nat, size: nat): (r: nat)
    requires size > 0
    ensures r < size && r <= x
  {
    if x < size then x else Rest(x - size, size)
  }

  // x % size == 0
  predicate Whole(x: nat, size: nat)
    requires size > 0
  {
    Rest(x, size) == 0
  }

  // Where C writes x % size.
  lemma {:induction false} RestIsRemainder(x: nat, size: nat)
    requires size > 0
    ensures Rest(x, size) == x % size
  {
    QuotientRest(x / size, x % size, size);
  }

  // q * size + r has the remainder r.
  lemma {:induction false} QuotientRest(q: nat, r: nat, size: nat)
    requires r < size
    ensures Rest(q * size + r, size) == r
  {
    if q > 0 {
      OneMore(q - 1, size);
      QuotientRest(q - 1, r, size);
    }
  }

  lemma OneMore(q: nat, size: nat)
    ensures (q + 1) * size == q * size + size
  {
  }

  lemma {:induction false} AtLeast(k: nat, size: nat)
    requires k > 0
    ensures k * size >= size
  {
    OneMore(k - 1, size);
    if k > 1 {
      AtLeast(k - 1, size);
    }
  }

  lemma Apart(a: nat, b: nat, size: nat)
    requires size > 0 && Whole(a, size) && Whole(b, size) && a < b
    ensures a + size <= b && Whole(b - a, size)
  {
    if a >= size {
      Apart(a - size, b - size, size);
    }
  }

  lemma RestOfSum(a: nat, b: nat, size: nat)
    requires size > 0 && Whole(a, size)
    ensures Rest(a + b, size) == Rest(b, size)
  {
    if a >= size {
      RestOfSum(a - size, b, size);
    }
  }

  lemma WholeWithoutRest(x: nat, size: nat)
    requires size > 0
    ensures Whole(x - Rest(x, size), size)
  {
    if x >= size {
      WholeWithoutRest(x - size, size);
      var y := x - size - Rest(x - size, size);
      assert x - Rest(x, size) == y + size;
    }
  }

  // Every multiple of a multiple is a multiple.
  lemma {:induction false} WholeOfWhole(x: nat, size: nat, part: nat)
    requires size > 0 && part > 0 && Whole(x, size) && Whole(size, part)
    ensures Whole(x, part)
    decreases x
  {
    if x >= size {
      WholeOfWhole(x - size, size, part);
      RestOfSum(size, x - size, part);
    }
  }
}
