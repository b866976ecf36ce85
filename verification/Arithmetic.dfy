/** Powers of two, bits of numbers, and the facts about products and division that the other modules share. */
module Arithmetic {

  function Pow2(h: nat): (p: nat)
    ensures p > 0
  {
    if h == 0 then 1 else 2 * Pow2(h - 1)
  }

  lemma {:induction false} Pow2Add(a: nat, b: nat)
    ensures Pow2(a + b) == Pow2(a) * Pow2(b)
  {
    if a > 0 {
      Pow2Add(a - 1, b);
      assert 2 * (Pow2(a - 1) * Pow2(b)) == 2 * Pow2(a - 1) * Pow2(b);
    }
  }

  lemma {:induction false} Pow2Grows(a: nat, b: nat)
    requires a <= b
    ensures Pow2(a) <= Pow2(b)
  {
    if a < b { Pow2Grows(a, b - 1); }
  }

  lemma LessProduct(a: int, b: int, d: int)
    requires a <= b && d >= 0
    ensures a * d <= b * d
  {
  }

  lemma DivisionUnique(a: int, d: int, q: int, r: int)
    requires d > 0 && a == q * d + r && 0 <= r < d
    ensures a / d == q && a % d == r
  {
    var e := a / d - q;
    assert e * d == r - a % d;
    assert e < 1 by { if e >= 1 { LessProduct(1, e, d); } }
    assert e > -1 by { if e <= -1 { LessProduct(e, -1, d); } }
  }

  /** The quotient and remainder of a multiple plus something small. */
  lemma MultiplePlus(q: nat, d: nat, r: nat)
    requires r < d
    ensures (q * d + r) / d == q && (q * d + r) % d == r
  {
    DivisionUnique(q * d + r, d, q, r);
  }

  /** Dividing twice is dividing by the product. */
  lemma DivideTwice(a: nat, b: nat, c: nat)
    requires b > 0 && c > 0
    ensures b * c > 0 && a / b / c == a / (b * c)
  {
    var q := a / b / c;
    assert a / b == q * c + a / b % c;
    assert a == (q * c + a / b % c) * b + a % b == q * (b * c) + (a / b % c * b + a % b);
    LessProduct(a / b % c, c - 1, b);
    assert (c - 1) * b + b == b * c;
    DivisionUnique(a, b * c, q, a / b % c * b + a % b);
  }

  lemma QuotientGrows(a: nat, b: nat, d: nat)
    requires a <= b && d > 0
    ensures a / d <= b / d
  {
    if a / d > b / d { LessProduct(b / d + 1, a / d, d); }
  }

  lemma QuotientBound(x: nat, d: nat)
    requires d > 0
    ensures 0 <= x / d <= x
  {
    LessProduct(1, d, x / d);
  }

  /** A product below a product has a smaller factor. */
  lemma LessFactor(a: int, b: int, d: int)
    requires d > 0 && a * d < b * d
    ensures a < b
  {
    if a >= b { LessProduct(b, a, d); }
  }

  // ---------------------------------------------------------------------------------------------
  // Bits
  // ---------------------------------------------------------------------------------------------

  /** Bitwise or. */
  function BitwiseOr(x: nat, y: nat): nat {
    if x == 0 && y == 0 then 0
    else (if x % 2 == 1 || y % 2 == 1 then 1 else 0) + 2 * BitwiseOr(x / 2, y / 2)
  }

  /** Or is addition where the numbers share no bits. */
  lemma {:induction false} OrDisjoint(x: nat, y: nat, s: nat)
    requires x < Pow2(s) && y % Pow2(s) == 0
    ensures BitwiseOr(x, y) == BitwiseOr(y, x) == x + y
  {
    if s == 0 {
      OrZero(y);
    } else {
      HalfShares(x, y, s);
      hide Pow2;
      OrDisjoint(x / 2, y / 2, s - 1);
    }
  }

  lemma HalfShares(x: nat, y: nat, s: nat)
    requires s > 0 && x < Pow2(s) && y % Pow2(s) == 0
    ensures x / 2 < Pow2(s - 1) && y % 2 == 0 && y / 2 % Pow2(s - 1) == 0
  {
    var p, q := Pow2(s - 1), y / Pow2(s);
    assert y == q * (2 * p) == 2 * (q * p);
    MultiplePlus(q, p, 0);
  }

  lemma {:induction false} OrZero(y: nat)
    ensures BitwiseOr(0, y) == BitwiseOr(y, 0) == y
  {
    if y > 0 { OrZero(y / 2); }
  }
}
