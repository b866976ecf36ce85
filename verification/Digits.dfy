/** Numbers as digits in a base, the most significant first, and powers of bases. */
module Digits {
  import opened Arithmetic

  function Pow(b: nat, e: nat): nat {
    if e == 0 then 1 else Product(b, Pow(b, e - 1))
  }

  function Product(x: nat, y: nat): nat {
    LessProduct(0, x, y);
    x * y
  }

  lemma {:induction false} PowPositive(b: nat, e: nat)
    requires b > 0
    ensures Pow(b, e) > 0
  {
    if e > 0 {
      PowPositive(b, e - 1);
      LessProduct(1, b, Pow(b, e - 1));
    }
  }

  lemma {:induction false} PowAdd(b: nat, m: nat, n: nat)
    ensures Pow(b, m + n) == Product(Pow(b, m), Pow(b, n))
  {
    hide Product;
    if m == 0 {
      ProductOne(Pow(b, n));
    } else {
      PowAdd(b, m - 1, n);
      ProductAssociative(b, Pow(b, m - 1), Pow(b, n));
    }
  }

  lemma ProductOne(x: nat)
    ensures Product(1, x) == x && Product(x, 1) == x
  {
  }

  lemma ProductAssociative(x: nat, y: nat, z: nat)
    ensures Product(Product(x, y), z) == Product(x, Product(y, z))
  {
  }

  lemma {:induction false} PowPow(b: nat, m: nat, n: nat)
    ensures Pow(b, Product(m, n)) == Pow(Pow(b, m), n)
  {
    if n > 0 {
      PowPow(b, m, n - 1);
      assert m * n == m + m * (n - 1);
      PowAdd(b, m, Product(m, n - 1));
    }
  }

  lemma ProductGrows(x: nat, y: nat, x': nat, y': nat)
    requires x <= x' && y <= y'
    ensures Product(x, y) <= Product(x', y')
  {
    LessProduct(x, x', y);
    LessProduct(y, y', x');
  }

  lemma {:induction false} PowGrowsBase(a: nat, b: nat, e: nat)
    requires a <= b
    ensures Pow(a, e) <= Pow(b, e)
  {
    if e > 0 {
      PowGrowsBase(a, b, e - 1);
      ProductGrows(a, Pow(a, e - 1), b, Pow(b, e - 1));
    }
  }

  lemma {:induction false} PowGrowsExponent(b: nat, m: nat, n: nat)
    requires b > 0 && m <= n
    ensures Pow(b, m) <= Pow(b, n)
  {
    if m < n {
      PowGrowsExponent(b, m, n - 1);
      ProductGrows(1, Pow(b, n - 1), b, Pow(b, n - 1));
      ProductOne(Pow(b, n - 1));
    }
  }

  lemma {:induction false} PowStrict(a: nat, b: nat, e: nat)
    requires a < b && e > 0
    ensures Pow(a, e) < Pow(b, e)
  {
    PowGrowsBase(a, b, e - 1);
    PowPositive(b, e - 1);
    LessProduct(a + 1, b, Pow(b, e - 1));
    ProductGrows(a, Pow(a, e - 1), a, Pow(b, e - 1));
    assert (a + 1) * Pow(b, e - 1) == a * Pow(b, e - 1) + Pow(b, e - 1);
  }

  /** Comparing powers by comparing one pair of powers: if b to the p is at least a to the q, then b to the
      y is at least a to the x whenever y / x is at least p / q. */
  lemma PowerBound(a: nat, b: nat, q: nat, p: nat, x: nat, y: nat)
    requires a > 0 && b > 0 && q > 0 && Pow(a, q) <= Pow(b, p) && Product(p, x) <= Product(y, q)
    ensures Pow(a, x) <= Pow(b, y)
  {
    hide Pow, Product;
    if Pow(a, x) > Pow(b, y) {
      PowStrict(Pow(b, y), Pow(a, x), q);
      PowPow(b, y, q);
      PowPow(a, x, q);
      ProductCommutes(x, q);
      PowPow(a, q, x);
      PowGrowsBase(Pow(a, q), Pow(b, p), x);
      PowPow(b, p, x);
      PowGrowsExponent(b, Product(p, x), Product(y, q));
    }
  }

  lemma ProductCommutes(x: nat, y: nat)
    ensures Product(x, y) == Product(y, x)
  {
  }

  // ---------------------------------------------------------------------------------------------
  // Digits
  // ---------------------------------------------------------------------------------------------

  ghost predicate AreDigits(d: seq<nat>, base: nat) { forall i | 0 <= i < |d| :: d[i] < base }

  /** The number that digits stand for. */
  function Value(d: seq<nat>, base: nat): nat {
    if d == [] then 0 else Product(Value(d[..|d| - 1], base), base) + d[|d| - 1]
  }

  /** The digits of a number, without leading zeros; none for zero. */
  function DigitsOf(v: nat, base: nat): seq<nat>
    requires base > 1
    decreases v
  {
    if v == 0 then [] else
      SmallerQuotient(v, base);
      DigitsOf(v / base, base) + [v % base]
  }

  lemma SmallerQuotient(v: nat, base: nat)
    requires v > 0 && base > 1
    ensures 0 <= v / base < v
  {
    LessProduct(2, base, v / base);
  }

  function Strip(d: seq<nat>): seq<nat> { if d != [] && d[0] == 0 then Strip(d[1..]) else d }

  lemma DivisionParts(q: nat, base: nat, r: nat)
    requires r < base
    ensures (Product(q, base) + r) / base == q && (Product(q, base) + r) % base == r
    ensures q > 0 ==> Product(q, base) > 0
  {
    MultiplePlus(q, base, r);
    if q > 0 { LessProduct(1, q, base); }
  }

  lemma DivisionJoins(v: nat, base: nat)
    requires base > 0
    ensures v / base >= 0 && Product(v / base, base) + v % base == v
  {
  }

  lemma BoundStep(v: nat, w: nat, base: nat, x: nat)
    requires v < w && x < base
    ensures Product(v, base) + x < Product(base, w)
  {
    LessProduct(v + 1, w, base);
    assert (v + 1) * base == v * base + base;
  }

  lemma {:induction false} DigitsValue(v: nat, base: nat)
    requires base > 1
    ensures Value(DigitsOf(v, base), base) == v && AreDigits(DigitsOf(v, base), base)
    ensures v > 0 ==> DigitsOf(v, base) != [] && DigitsOf(v, base)[0] != 0
    decreases v
  {
    hide Product;
    if v > 0 {
      SmallerQuotient(v, base);
      DivisionParts(v / base, base, v % base);
      var d := DigitsOf(v / base, base);
      DigitsValue(v / base, base);
      DivisionJoins(v, base);
      assert (d + [v % base])[..|d|] == d;
    }
  }

  /** Digits without leading zeros are the digits of their value. */
  lemma {:induction false} ValueDigits(d: seq<nat>, base: nat)
    requires base > 1 && AreDigits(d, base) && (d != [] ==> d[0] != 0)
    ensures DigitsOf(Value(d, base), base) == d
    ensures d != [] ==> Value(d, base) > 0
    decreases |d|
  {
    hide Product;
    if d != [] {
      var n := |d| - 1;
      ValueDigits(d[..n], base);
      DivisionParts(Value(d[..n], base), base, d[n]);
    }
  }

  lemma {:induction false} ValueCons(x: nat, d: seq<nat>, base: nat)
    ensures Value([x] + d, base) == Product(x, Pow(base, |d|)) + Value(d, base)
    decreases |d|
  {
    hide Product;
    if d == [] {
      assert ([x] + d)[..0] == [];
      ProductOne(x);
      ProductZero(base);
    } else {
      var n := |d| - 1;
      assert ([x] + d)[..|d|] == [x] + d[..n];
      ValueCons(x, d[..n], base);
      ConsArithmetic(x, Pow(base, n), Value(d[..n], base), base);
    }
  }

  lemma ProductZero(x: nat)
    ensures Product(0, x) == 0 && Product(x, 0) == 0
  {
  }

  lemma ConsArithmetic(x: nat, w: nat, v: nat, base: nat)
    ensures Product(Product(x, w) + v, base) == Product(x, Product(base, w)) + Product(v, base)
  {
    assert (x * w + v) * base == x * (base * w) + v * base;
  }

  lemma {:induction false} ValueBound(d: seq<nat>, base: nat)
    requires base > 1 && AreDigits(d, base)
    ensures Value(d, base) < Pow(base, |d|)
    decreases |d|
  {
    if d != [] {
      var n := |d| - 1;
      hide Product;
      ValueBound(d[..n], base);
      BoundStep(Value(d[..n], base), Pow(base, n), base, d[n]);
    }
  }

  /** Leading zeros do not matter. */
  lemma {:induction false} StripValue(d: seq<nat>, base: nat)
    requires base > 1 && AreDigits(d, base)
    ensures Strip(d) == DigitsOf(Value(d, base), base) && Value(Strip(d), base) == Value(d, base)
    decreases |d|
  {
    if d != [] && d[0] == 0 {
      assert d == [0] + d[1..];
      ValueCons(0, d[1..], base);
      ProductZero(Pow(base, |d| - 1));
      StripValue(d[1..], base);
    } else {
      ValueDigits(d, base);
    }
  }
}
