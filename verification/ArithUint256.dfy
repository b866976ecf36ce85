/** 256-bit numbers in eight 32-bit limbs, base_uint and arith_uint256 (src/arith_uint256.h,
    src/arith_uint256.cpp), and the proof of work of a block (GetBlockProof, src/chain.cpp). */
module ArithUint256 {
  import opened Arithmetic

  const WIDTH := 8
  const BASE := 0x1_0000_0000

  type Limb = x: int | 0 <= x < BASE

  /** The weight of a limb. */
  function Weight(i: nat): (w: nat)
    ensures w > 0
  {
    Pow2(32 * i)
  }

  lemma WeightNext(i: nat)
    ensures Weight(i + 1) == BASE * Weight(i) && Weight(0) == 1
  {
    assert Pow2(32) == BASE by { Pow2Of32(); }
    Pow2Add(32, 32 * i);
  }

  lemma Pow2Of32()
    ensures Pow2(8) == 0x100 && Pow2(16) == 0x1_0000 && Pow2(24) == 0x100_0000 && Pow2(32) == BASE && Pow2(64) == BASE * BASE
  {
    assert Pow2(4) == 16;
    Pow2Add(4, 4);
    Pow2Add(8, 8);
    Pow2Add(16, 8);
    Pow2Add(16, 16);
    Pow2Add(32, 32);
  }

  /** The modulus of the arithmetic: 2^256. */
  const MODULUS: nat := Weight(WIDTH)

  /** The value of the first n limbs. */
  function Value(s: seq<Limb>, n: nat): nat
    requires n <= |s|
  {
    if n == 0 then 0
    else
      LessProduct(0, s[n - 1], Weight(n - 1));
      Value(s, n - 1) + s[n - 1] * Weight(n - 1)
  }

  lemma ValueNext(s: seq<Limb>, n: nat)
    requires n < |s|
    ensures Value(s, n + 1) == Value(s, n) + s[n] * Weight(n)
  {
  }

  lemma TwoLimbs(s: seq<Limb>)
    requires |s| >= 2
    ensures Value(s, 2) == s[0] + BASE * s[1]
  {
    WeightNext(0);
    hide Weight;
    ValueNext(s, 0);
    ValueNext(s, 1);
  }

  lemma {:induction false} ValueBound(s: seq<Limb>, n: nat)
    requires n <= |s|
    ensures Value(s, n) < Weight(n)
  {
    hide Weight;
    WeightNext(0);
    if n > 0 {
      ValueBound(s, n - 1);
      WeightNext(n - 1);
      LessProduct(s[n - 1], BASE - 1, Weight(n - 1));
    }
  }

  lemma {:induction false} ValueSame(s: seq<Limb>, t: seq<Limb>, n: nat)
    requires n <= |s| && n <= |t| && forall i | 0 <= i < n :: s[i] == t[i]
    ensures Value(s, n) == Value(t, n)
  {
    if n > 0 { ValueSame(s, t, n - 1); }
  }

  lemma {:induction false} ValueUpdate(s: seq<Limb>, i: nat, x: Limb, n: nat)
    requires i < n <= |s|
    ensures Value(s[i := x], n) == Value(s, n) + (x - s[i]) * Weight(i)
  {
    hide Weight;
    if i == n - 1 {
      ValueSame(s, s[i := x], n - 1);
      assert (x - s[i]) * Weight(i) == x * Weight(i) - s[i] * Weight(i);
    } else {
      ValueUpdate(s, i, x, n - 1);
    }
  }

  lemma ValueRaise(s: seq<Limb>, i: nat, y: nat, n: nat)
    requires i < n <= |s| && s[i] + y < BASE
    ensures Value(s[i := s[i] + y], n) == Value(s, n) + y * Weight(i)
  {
    ValueUpdate(s, i, s[i] + y, n);
  }

  lemma {:induction false} ValueZero(s: seq<Limb>, n: nat)
    requires n <= |s| && forall i | 0 <= i < n :: s[i] == 0
    ensures Value(s, n) == 0
  {
    hide Weight;
    if n > 0 { ValueZero(s, n - 1); }
  }

  /** The value of the limbs from n on, in units of their weight. */
  lemma {:induction false} ValueSplit(s: seq<Limb>, n: nat, m: nat)
    requires n <= m <= |s|
    ensures exists rest: nat :: Value(s, m) == Value(s, n) + rest * Weight(n)
  {
    hide Weight;
    if n == m {
      assert Value(s, m) == Value(s, n) + 0 * Weight(n);
    } else {
      ValueSplit(s, n, m - 1);
      var rest: nat :| Value(s, m - 1) == Value(s, n) + rest * Weight(n);
      WeightUp(n, m - 1);
      var k := Weight(m - 1 - n);
      assert s[m - 1] * (k * Weight(n)) == s[m - 1] * k * Weight(n);
      assert (rest + s[m - 1] * k) * Weight(n) == rest * Weight(n) + s[m - 1] * k * Weight(n);
      assert Value(s, m) == Value(s, n) + (rest + s[m - 1] * k) * Weight(n);
    }
  }

  lemma WeightUp(n: nat, m: nat)
    requires n <= m
    ensures Weight(m) == Weight(m - n) * Weight(n)
  {
    Pow2Add(32 * (m - n), 32 * n);
  }

  /** The value of the first limbs and a carry on top of them. */
  function CarryValue(s: seq<Limb>, i: nat, carry: nat): int
    requires i <= |s|
  {
    Value(s, i) + carry * Weight(i)
  }

  /** One step of a loop that passes a carry on to the next limb. */
  lemma CarryStep(s: seq<Limb>, i: nat, carry: nat, n: nat)
    requires i < |s|
    ensures CarryValue(s[i := n % BASE], i + 1, n / BASE) == CarryValue(s, i, carry) + (n - carry) * Weight(i)
  {
    hide Weight;
    ValueSame(s, s[i := n % BASE], i);
    WeightNext(i);
    var w := Weight(i);
    assert n / BASE * (BASE * w) + n % BASE * w == n * w;
    assert carry * w + (n - carry) * w == n * w;
  }

  lemma CarryEnd(s: seq<Limb>, carry: nat)
    requires |s| == WIDTH
    ensures Value(s, WIDTH) == CarryValue(s, WIDTH, carry) % MODULUS
  {
    hide Weight, Value;
    WholeOf(carry);
    IsRemainder(s, carry * MODULUS, CarryValue(s, WIDTH, carry));
  }

  lemma CarryNone(s: seq<Limb>)
    ensures CarryValue(s, 0, 0) == 0
  {
  }

  /** A whole multiple of the modulus. */
  ghost predicate Whole(x: int) { x % MODULUS == 0 }

  lemma WholeOf(q: int)
    ensures Whole(q * MODULUS)
  {
    DivisionUnique(q * MODULUS, MODULUS, q, 0);
  }

  lemma WholeSum(x: int, y: int)
    requires Whole(x) && Whole(y)
    ensures Whole(x + y)
  {
    assert (x / MODULUS + y / MODULUS) * MODULUS == x + y;
    DivisionUnique(x + y, MODULUS, x / MODULUS + y / MODULUS, 0);
  }

  /** What is left after dropping whole multiples of the modulus is the remainder. */
  lemma IsRemainder(s: seq<Limb>, dropped: int, x: int)
    requires |s| == WIDTH && Value(s, WIDTH) + dropped == x && Whole(dropped)
    ensures Value(s, WIDTH) == x % MODULUS
  {
    hide Weight;
    ValueBound(s, WIDTH);
    DivisionUnique(x, MODULUS, dropped / MODULUS, Value(s, WIDTH));
  }

  function Times(x: nat, y: nat): (p: nat) {
    LessProduct(0, x, y);
    x * y
  }

  /** Subtraction, wrapping around below zero. */
  function Minus(x: nat, y: nat): nat
    requires x < MODULUS && y < MODULUS
  {
    if y <= x then x - y else x + MODULUS - y
  }

  class BaseUint {
    const pn: array<Limb>

    ghost predicate Valid()
      reads this
    {
      pn.Length == WIDTH
    }

    ghost function Val(): (v: nat)
      requires Valid()
      reads this, pn
      ensures v < MODULUS
    {
      ValueBound(pn[..], WIDTH);
      Value(pn[..], WIDTH)
    }

    constructor ()
      ensures Valid() && fresh(pn) && Val() == 0
    {
      pn := new Limb[WIDTH](_ => 0);
      new;
      ValueZero(pn[..], WIDTH);
    }

    constructor Copy(b: BaseUint)
      requires b.Valid()
      ensures Valid() && fresh(pn) && pn[..] == b.pn[..]
    {
      pn := new Limb[WIDTH](i requires 0 <= i < b.pn.Length reads b, b.pn => b.pn[i]);
    }

    /** Assignment from a 64-bit number. */
    method Assign(x: nat)
      requires Valid() && x < BASE * BASE
      modifies pn
      ensures Val() == x
    {
      pn[0] := x % BASE;
      pn[1] := x / BASE;
      TwoLimbs(pn[..]);
      hide Weight, Value;
      for i := 2 to WIDTH
        invariant Value(pn[..], i) == x
      {
        ghost var s := pn[..];
        pn[i] := 0;
        ValueSame(s, pn[..], i);
        ValueNext(pn[..], i);
        assert 0 * Weight(i) == 0;
      }
    }

    /** Bitwise complement. */
    method Complement() returns (ret: BaseUint)
      requires Valid()
      ensures fresh(ret) && fresh(ret.pn) && ret.Valid() && ret.Val() == MODULUS - 1 - Val()
    {
      hide Weight;
      ret := new BaseUint();
      WeightNext(0);
      for i := 0 to WIDTH
        invariant Value(ret.pn[..], i) + Value(pn[..], i) == Weight(i) - 1
      {
        ghost var s := ret.pn[..];
        ret.pn[i] := BASE - 1 - pn[i];
        ValueSame(s, ret.pn[..], i);
        WeightNext(i);
        assert (BASE - 1 - pn[i]) * Weight(i) == (BASE - 1) * Weight(i) - pn[i] * Weight(i);
      }
    }

    method Increment()
      requires Valid()
      modifies pn
      ensures Val() == (old(Val()) + 1) % MODULUS
    {
      hide Weight, Value;
      var i := 0;
      ghost var s := pn[..];
      CarryOne(s);
      while i < WIDTH
        invariant i <= WIDTH && CarryValue(pn[..], i, 1) == Value(s, i) + 1
        invariant forall j | i <= j < WIDTH :: pn[j] == s[j]
      {
        hide CarryValue;
        ghost var t := pn[..];
        var n: nat := pn[i];
        pn[i] := (n + 1) % BASE;
        CarryStep(t, i, 1, n + 1);
        ValueNext(s, i);
        if pn[i] != 0 {
          CarryGone(pn[..], i + 1);
          Unchanged(s, pn[..], i + 1, 1);
          WholeOf(0);
          IsRemainder(pn[..], 0, old(Val()) + 1);
          return;
        }
        i := i + 1;
      }
      CarryEnd(pn[..], 1);
    }

    method AddAssign(b: BaseUint)
      requires Valid() && b.Valid()
      modifies pn
      ensures Val() == (old(Val()) + old(b.Val())) % MODULUS
    {
      hide Weight, Value, CarryValue;
      var carry: nat := 0;
      ghost var s, bs := pn[..], b.pn[..];
      CarryNone(s);
      ValueNone(s);
      ValueNone(bs);
      for i := 0 to WIDTH
        invariant carry <= 1 && CarryValue(pn[..], i, carry) == Value(s, i) + Value(bs, i)
        invariant forall j | i <= j < WIDTH :: pn[j] == s[j] && b.pn[j] == bs[j]
      {
        ghost var t := pn[..];
        var n: nat := carry + pn[i] + b.pn[i];
        assert n < BASE * BASE;
        pn[i] := n % BASE;
        CarryStep(t, i, carry, n);
        ValueNext(s, i);
        ValueNext(bs, i);
        assert (s[i] + bs[i]) * Weight(i) == s[i] * Weight(i) + bs[i] * Weight(i);
        carry := n / BASE;
      }
      CarryEnd(pn[..], carry);
    }

    /** Two's complement. */
    method Negate() returns (ret: BaseUint)
      requires Valid()
      ensures fresh(ret) && fresh(ret.pn) && ret.Valid() && ret.Val() == Minus(0, Val())
    {
      ret := Complement();
      ret.Increment();
      NegationWraps(Val());
    }

    method SubAssign(b: BaseUint)
      requires Valid() && b.Valid()
      modifies pn
      ensures Val() == Minus(old(Val()), old(b.Val()))
    {
      var minus := b.Negate();
      AddAssign(minus);
      MinusIsSum(old(Val()), old(b.Val()));
    }

    method MulAssign32(b32: Limb)
      requires Valid()
      modifies pn
      ensures Val() == Times(old(Val()), b32) % MODULUS
    {
      hide Weight, Value, CarryValue, Times;
      var carry: nat := 0;
      ghost var s := pn[..];
      CarryNone(s);
      ValueNone(s);
      TimesZero(b32);
      for i := 0 to WIDTH
        invariant carry < BASE && CarryValue(pn[..], i, carry) == Times(Value(s, i), b32)
        invariant forall j | i <= j < WIDTH :: pn[j] == s[j]
      {
        ghost var t := pn[..];
        ProductFits(b32, pn[i], carry, 0);
        var n: nat := carry + Times(b32, pn[i]);
        pn[i] := n % BASE;
        ScaleStep(t, s, i, b32, carry, n);
        carry := n / BASE;
      }
      CarryEnd(pn[..], carry);
    }

    method MulAssign(b: BaseUint)
      requires Valid() && b.Valid()
      modifies pn
      ensures Val() == Times(old(Val()), old(b.Val())) % MODULUS
    {
      hide Weight, Value, Times, Whole;
      var a := new BaseUint();
      ghost var s, v, dropped := pn[..], b.Val(), 0;
      ValueNone(s);
      TimesZero(v);
      WholeOf(0);
      for j := 0 to WIDTH
        invariant a.Valid() && fresh(a.pn) && pn[..] == s && b.Val() == v
        invariant Whole(dropped) && a.Val() + dropped == Times(Value(s, j), v)
      {
        ghost var more := MulRow(a, j, pn[j], b);
        RowsAdd(s, j, v);
        WholeSum(dropped, more);
        dropped := dropped + more;
      }
      IsRemainder(a.pn[..], dropped, Times(old(Val()), v));
      AssignFrom(a);
    }

    /** Adds x times b, j limbs up, to a, except for a multiple of the modulus. */
    static method MulRow(a: BaseUint, j: nat, x: Limb, b: BaseUint) returns (ghost dropped: int)
      requires a.Valid() && b.Valid() && a.pn != b.pn && j < WIDTH
      modifies a.pn
      ensures Whole(dropped) && a.Val() + dropped == old(a.Val()) + Times(Times(x, Weight(j)), b.Val())
    {
      hide Weight, Value, CarryValue, Times, Whole;
      var carry: nat := 0;
      ghost var s, bs := a.pn[..], b.pn[..];
      RowStart(s, bs, j, x);
      for i := 0 to WIDTH - j
        invariant carry < BASE && b.pn[..] == bs
        invariant CarryValue(a.pn[..], i + j, carry) == Value(s, i + j) + Times(Times(x, Weight(j)), Value(bs, i))
        invariant forall k | i + j <= k < WIDTH :: a.pn[k] == s[k]
      {
        ghost var t := a.pn[..];
        ProductFits(x, b.pn[i], carry, a.pn[i + j]);
        var n: nat := carry + a.pn[i + j] + Times(x, b.pn[i]);
        a.pn[i + j] := n % BASE;
        RowStep(t, s, bs, i, j, x, carry, n);
        carry := n / BASE;
      }
      dropped := RowEnd(a.pn[..], s, bs, j, x, carry);
    }

    method Clear()
      requires Valid()
      modifies pn
      ensures forall i | 0 <= i < WIDTH :: pn[i] == 0
    {
      for i := 0 to WIDTH
        invariant forall j | 0 <= j < i :: pn[j] == 0
      {
        pn[i] := 0;
      }
    }

    method ShlAssign(shift: nat)
      requires Valid()
      modifies pn
      ensures Val() == Times(old(Val()), Pow2(shift)) % MODULUS
    {
      hide Weight, Value, Times, Pow2, BitwiseOr, ShlUpper, High, Low, Whole;
      var a := new BaseUint.Copy(this);
      Clear();
      var k, s := shift / 32, shift % 32;
      ghost var v, dropped := a.pn[..], 0;
      WholeOf(0);
      ShlStart(pn[..], v, k, s, Pow2(shift));
      for i := 0 to WIDTH
        invariant a.pn[..] == v && ShlUpper(pn[..], i + k, s)
        invariant Whole(dropped) && Value(pn[..], WIDTH) + dropped == Times(Value(v, i), Pow2(shift))
      {
        ghost var t := pn[..];
        ghost var more := ShlStep(t, v[i], i + k, s);
        ShlAdds(v, i, k, s, shift);
        if i + k + 1 < WIDTH && s != 0 {
          pn[i + k + 1] := BitwiseOr(pn[i + k + 1], High(a.pn[i], s));
        }
        if i + k < WIDTH {
          pn[i + k] := BitwiseOr(pn[i + k], Low(a.pn[i], s));
        }
        WholeSum(dropped, more);
        dropped := dropped + more;
      }
      IsRemainder(pn[..], dropped, Times(old(Val()), Pow2(shift)));
    }

    method ShrAssign(shift: nat)
      requires Valid()
      modifies pn
      ensures Val() == old(Val()) / Pow2(shift)
    {
      hide Weight, Value, Times, Pow2, BitwiseOr, ShrUpper, Bottom, Top;
      var a := new BaseUint.Copy(this);
      Clear();
      var k, s := shift / 32, shift % 32;
      ghost var v := a.pn[..];
      ShrStart(pn[..], v, k, s, Pow2(shift));
      for i := 0 to WIDTH
        invariant a.pn[..] == v && ShrUpper(pn[..], i - k, s)
        invariant Value(pn[..], WIDTH) == Value(v, i) / Pow2(shift)
      {
        ghost var t := pn[..];
        ShrStep(t, v[i], i - k, s);
        ShrAdds(t, v, i, k, s, shift);
        if i - k - 1 >= 0 && s != 0 {
          pn[i - k - 1] := BitwiseOr(pn[i - k - 1], Bottom(a.pn[i], s));
        }
        if i - k >= 0 {
          pn[i - k] := BitwiseOr(pn[i - k], Top(a.pn[i], s));
        }
      }
    }

    method CompareTo(b: BaseUint) returns (r: int)
      requires Valid() && b.Valid()
      ensures (r == -1 <==> Val() < b.Val()) && (r == 0 <==> Val() == b.Val()) && (r == 1 <==> Val() > b.Val())
    {
      hide Weight, Value;
      ghost var s, t := pn[..], b.pn[..];
      for i := WIDTH downto 0
        invariant forall j | i <= j < WIDTH :: pn[j] == b.pn[j]
      {
        if pn[i] < b.pn[i] {
          SmallerLimb(s, t, i);
          return -1;
        }
        if pn[i] > b.pn[i] {
          SmallerLimb(t, s, i);
          return 1;
        }
      }
      assert s == t;
      return 0;
    }

    /** The place of the highest bit that is set, counted from one; zero for zero. */
    method Bits() returns (r: nat)
      requires Valid()
      ensures HasBits(Val(), r)
    {
      hide Weight, Value, Pow2;
      ghost var s := pn[..];
      for pos := WIDTH downto 0
        invariant forall j | pos <= j < WIDTH :: s[j] == 0
      {
        if pn[pos] != 0 {
          Pow2Of32();
          for nbits := 32 downto 1
            invariant pn[pos] < Pow2(nbits)
          {
            BitTest(pn[pos], nbits);
            if pn[pos] / Pow2(nbits) % 2 == 1 {
              TopBit(s, pos, nbits);
              return 32 * pos + nbits + 1;
            }
          }
          OneBit(pn[pos]);
          TopBit(s, pos, 0);
          return 32 * pos + 1;
        }
      }
      ValueZero(s, WIDTH);
      return 0;
    }

    /** Division by shifting and subtracting. Division by zero fails, after the number has become zero. */
    method DivAssign(b: BaseUint) returns (ok: bool)
      requires Valid() && b.Valid()
      modifies pn
      ensures ok <==> old(b.Val()) > 0
      ensures Val() == if ok then old(Val()) / old(b.Val()) else 0
    {
      hide Weight, Value, Pow2, Times, HasBits;
      var div := new BaseUint.Copy(b);
      var num := new BaseUint.Copy(this);
      ghost var n, d := num.Val(), div.Val();
      Assign(0);
      var num_bits := num.Bits();
      var div_bits := div.Bits();
      ZeroBits(d, div_bits);
      if div_bits == 0 { return false; }
      if div_bits > num_bits {
        FewerBits(n, num_bits, d, div_bits);
        return true;
      }
      var shift := num_bits - div_bits;
      AlignedBits(n, num_bits, d, div_bits);
      div.ShlAssign(shift);
      DivideLoop(num, div, shift, n, d);
      return true;
    }

    method DivideLoop(num: BaseUint, div: BaseUint, shift0: nat, ghost n: nat, ghost d: nat)
      requires Valid() && num.Valid() && div.Valid() && pn != num.pn && pn != div.pn && num.pn != div.pn
      requires d > 0 && shift0 < 256 && Val() == 0 && num.Val() == n < Times(d, Pow2(shift0 + 1))
      requires div.Val() == Times(d, Pow2(shift0))
      modifies pn, num.pn, div.pn
      ensures Val() == n / d
    {
      hide Weight, Value, Pow2, Times, LowBitsClear, BitwiseOr;
      var shift: int := shift0;
      AllBitsClear(pn[..], shift + 1);
      TimesZero(d);
      while shift >= 0
        invariant -1 <= shift < 256 && LowBitsClear(pn[..], shift + 1)
        invariant num.Val() + Times(Val(), d) == n && num.Val() < Times(d, Pow2(shift + 1))
        invariant shift >= 0 ==> div.Val() == Times(d, Pow2(shift))
      {
        Doubling(d, shift);
        ClearBit(pn[..], shift);
        var c := num.CompareTo(div);
        if c >= 0 {
          num.SubAssign(div);
          QuotientBit(Val(), d, shift);
          pn[shift / 32] := BitwiseOr(pn[shift / 32], Pow2(shift % 32));
        }
        div.ShrAssign(1);
        shift := shift - 1;
      }
      DivideEnd(Val(), d, num.Val());
    }

    method AssignFrom(b: BaseUint)
      requires Valid() && b.Valid()
      modifies pn
      ensures pn[..] == old(b.pn[..])
    {
      for i := 0 to WIDTH
        invariant forall j | 0 <= j < WIDTH :: b.pn[j] == old(b.pn[j]) && (j < i ==> pn[j] == old(b.pn[j]))
      {
        pn[i] := b.pn[i];
      }
    }
  }

  /** If two numbers agree from limb n on, their values differ as their first n limbs do. */
  lemma {:induction false} Unchanged(s: seq<Limb>, t: seq<Limb>, n: nat, d: int)
    requires n <= |s| == |t| && Value(t, n) == Value(s, n) + d && forall j | n <= j < |s| :: s[j] == t[j]
    ensures Value(t, |s|) == Value(s, |s|) + d
    decreases |s| - n
  {
    if n < |s| { Unchanged(s, t, n + 1, d); }
  }

  lemma ValueNone(s: seq<Limb>)
    ensures Value(s, 0) == 0
  {
  }

  lemma MinusIsSum(x: nat, y: nat)
    requires x < MODULUS && y < MODULUS
    ensures Minus(x, y) == (x + Minus(0, y)) % MODULUS
  {
    if y == 0 || x < y {
      DivisionUnique(x + Minus(0, y), MODULUS, 0, Minus(x, y));
    } else {
      DivisionUnique(x + Minus(0, y), MODULUS, 1, Minus(x, y));
    }
  }

  lemma NegationWraps(v: nat)
    requires v < MODULUS
    ensures (MODULUS - 1 - v + 1) % MODULUS == Minus(0, v)
  {
    if v == 0 { DivisionUnique(MODULUS, MODULUS, 1, 0); } else { DivisionUnique(MODULUS - v, MODULUS, 0, MODULUS - v); }
  }

  /** The 64-bit accumulator does not overflow, and its carry is a limb. */
  lemma ProductFits(x: Limb, y: Limb, c: nat, d: nat)
    requires c < BASE && d < BASE
    ensures c + d + Times(x, y) < BASE * BASE && (c + d + Times(x, y)) / BASE < BASE
  {
    LessProduct(x, BASE - 1, y);
  }

  lemma TimesZero(v: nat)
    ensures Times(0, v) == Times(v, 0) == 0
  {
  }

  lemma CarryOne(s: seq<Limb>)
    ensures CarryValue(s, 0, 1) == Value(s, 0) + 1
  {
    WeightNext(0);
  }

  lemma CarryGone(s: seq<Limb>, i: nat)
    requires i <= |s|
    ensures CarryValue(s, i, 0) == Value(s, i)
  {
  }

  lemma ScaleStep(t: seq<Limb>, s: seq<Limb>, i: nat, x: Limb, carry: nat, n: nat)
    requires |t| == |s| && i < |s| && n == carry + Times(x, s[i])
    requires CarryValue(t, i, carry) == Times(Value(s, i), x)
    ensures CarryValue(t[i := n % BASE], i + 1, n / BASE) == Times(Value(s, i + 1), x)
  {
    hide Weight, Value, CarryValue;
    CarryStep(t, i, carry, n);
    ValueNext(s, i);
    var w, v := Weight(i), Value(s, i);
    assert (v + s[i] * w) * x == v * x + x * s[i] * w;
  }

  lemma RowsAdd(s: seq<Limb>, j: nat, v: nat)
    requires j < |s|
    ensures Times(Value(s, j + 1), v) == Times(Value(s, j), v) + Times(Times(s[j], Weight(j)), v)
  {
    hide Weight, Value;
    ValueNext(s, j);
  }

  lemma RowStart(s: seq<Limb>, bs: seq<Limb>, j: nat, x: Limb)
    requires j <= |s|
    ensures CarryValue(s, j, 0) == Value(s, j) + Times(Times(x, Weight(j)), Value(bs, 0))
  {
    hide Weight;
  }

  lemma RowStep(t: seq<Limb>, s: seq<Limb>, bs: seq<Limb>, i: nat, j: nat, x: Limb, carry: nat, n: nat)
    requires |t| == |s| == |bs| && i + j < |s| && t[i + j] == s[i + j] && n == carry + s[i + j] + Times(x, bs[i])
    requires CarryValue(t, i + j, carry) == Value(s, i + j) + Times(Times(x, Weight(j)), Value(bs, i))
    ensures CarryValue(t[i + j := n % BASE], i + j + 1, n / BASE)
         == Value(s, i + j + 1) + Times(Times(x, Weight(j)), Value(bs, i + 1))
  {
    hide Weight, Value, CarryValue;
    CarryStep(t, i + j, carry, n);
    ValueNext(s, i + j);
    ValueNext(bs, i);
    WeightUp(j, i + j);
    RowArithmetic(s[i + j], x, bs[i], Weight(i), Weight(j), Value(bs, i));
  }

  lemma RowArithmetic(z: nat, x: nat, y: nat, w: nat, u: nat, v: nat)
    ensures (z + Times(x, y)) * (w * u) == z * (w * u) + Times(x, u) * (y * w)
    ensures Times(Times(x, u), v + y * w) == Times(Times(x, u), v) + Times(x, u) * (y * w)
  {
    assert x * y * (w * u) == x * u * (y * w);
  }

  lemma RowEndArithmetic(x: nat, u: nat, rest: nat, w: nat, v: nat, carry: nat)
    ensures Times(Times(x, u), v + rest * w) == Times(Times(x, u), v) + x * rest * (w * u)
    ensures (carry + x * rest) * (w * u) == carry * (w * u) + x * rest * (w * u)
  {
    assert x * u * (rest * w) == x * rest * (w * u);
  }

  lemma RowEnd(t: seq<Limb>, s: seq<Limb>, bs: seq<Limb>, j: nat, x: Limb, carry: nat) returns (dropped: int)
    requires |t| == |s| == |bs| == WIDTH && j < WIDTH
    requires CarryValue(t, WIDTH, carry) == Value(s, WIDTH) + Times(Times(x, Weight(j)), Value(bs, WIDTH - j))
    ensures Whole(dropped)
    ensures Value(t, WIDTH) + dropped == Value(s, WIDTH) + Times(Times(x, Weight(j)), Value(bs, WIDTH))
  {
    hide Weight, Value;
    ValueSplit(bs, WIDTH - j, WIDTH);
    var rest: nat :| Value(bs, WIDTH) == Value(bs, WIDTH - j) + rest * Weight(WIDTH - j);
    WeightUp(j, WIDTH);
    dropped := (carry + x * rest) * MODULUS;
    WholeOf(carry + x * rest);
    RowEndArithmetic(x, Weight(j), rest, Weight(WIDTH - j), Value(bs, WIDTH - j), carry);
  }

  // ---------------------------------------------------------------------------------------------
  // Shifts
  // ---------------------------------------------------------------------------------------------

  /** While shifting left: nothing yet above limb p, and in limb p only what came up from below. */
  ghost predicate ShlUpper(t: seq<Limb>, p: nat, s: nat) {
    && |t| == WIDTH && (forall j | p < j < WIDTH :: t[j] == 0)
    && (p < WIDTH ==> t[p] < Pow2(s))
  }

  /** The two halves of a shifted limb. */
  function High(x: Limb, s: nat): (h: Limb)
    requires s < 32
  {
    QuotientBound(x, Pow2(32 - s));
    x / Pow2(32 - s)
  }

  function Low(x: Limb, s: nat): Limb
    requires s < 32
  {
    Times(x, Pow2(s)) % BASE
  }

  lemma Pow2Split(s: nat)
    requires s <= 32
    ensures Pow2(32 - s) * Pow2(s) == BASE
  {
    hide Pow2;
    Pow2Add(32 - s, s);
    Pow2Of32();
  }

  /** Multiplying by one factor of b and splitting at b: the high part is the quotient by the other. */
  lemma SplitProduct(x: nat, d: nat, e: nat, b: nat)
    requires d > 0 && e > 0 && d * e == b && x < b
    ensures var lo := Times(x, e) % b;
      Times(x, e) == x / d * b + lo && x / d < e && lo == Times(x % d, e) && lo % e == 0 && lo + e <= b
  {
    var h, r := x / d, x % d;
    hide Times;
    QuotientBelow(x, d, e);
    assert h * d + r == x;
    SplitTerms(h, d, r, e);
    DivisionUnique(Times(x, e), b, h, Times(r, e));
    TimesMultiple(r, e);
  }

  lemma QuotientBelow(x: nat, d: nat, e: nat)
    requires d > 0 && x < d * e
    ensures x / d < e
  {
    if x / d >= e { LessProduct(e, x / d, d); }
  }

  lemma SplitTerms(h: nat, d: nat, r: nat, e: nat)
    requires r < d
    ensures Times(h * d + r, e) == h * (d * e) + Times(r, e) && Times(r, e) + e <= d * e
  {
    assert (h * d + r) * e == h * (d * e) + r * e;
    LessProduct(r + 1, d, e);
    assert (r + 1) * e == r * e + e;
  }

  lemma TimesMultiple(r: nat, e: nat)
    requires e > 0
    ensures Times(r, e) % e == 0
  {
    MultiplePlus(r, e, 0);
  }

  lemma Halves(x: Limb, s: nat)
    requires s < 32
    ensures Times(x, Pow2(s)) == High(x, s) * BASE + Low(x, s)
    ensures High(x, s) < Pow2(s) && Low(x, s) % Pow2(s) == 0 && Low(x, s) + Pow2(s) <= BASE
  {
    hide Pow2, Times;
    Pow2Split(s);
    SplitProduct(x, Pow2(32 - s), Pow2(s), BASE);
  }

  /** Or-ing both halves of a limb in adds the shifted limb, up to multiples of the modulus. */
  lemma ShlStep(t: seq<Limb>, x: Limb, p: nat, s: nat) returns (dropped: int)
    requires s < 32 && ShlUpper(t, p, s)
    ensures p + 1 < WIDTH && s != 0 ==> BitwiseOr(t[p + 1], High(x, s)) < BASE
    ensures p < WIDTH ==> BitwiseOr(t[p], Low(x, s)) < BASE
    ensures var t1 := if p + 1 < WIDTH && s != 0 then t[p + 1 := BitwiseOr(t[p + 1], High(x, s))] else t;
      var t2 := if p < WIDTH then t1[p := BitwiseOr(t1[p], Low(x, s))] else t1;
      && ShlUpper(t2, p + 1, s) && Whole(dropped)
      && Value(t2, WIDTH) + dropped == Value(t, WIDTH) + Times(Times(x, Pow2(s)), Weight(p))
  {
    hide Weight, Value, Pow2, BitwiseOr, High, Low, Times, Whole;
    Halves(x, s);
    var hi, lo := High(x, s), Low(x, s);
    OrZero(hi);
    OnlyZeroBelowOne(s);
    assert s == 0 ==> hi == 0;
    assert s == 0 && p + 1 < WIDTH ==> t[p + 1 := hi] == t;
    var t1 := if p + 1 < WIDTH then t[p + 1 := hi] else t;
    dropped := PutLimb(t, p + 1, hi);
    if p < WIDTH {
      OrDisjoint(t[p], lo, s);
      ValueRaise(t1, p, lo, WIDTH);
    } else {
      var more := PutLimb(t, p, lo);
      WholeSum(dropped, more);
      dropped := dropped + more;
    }
    WeightNext(p);
    HalvesWeigh(hi, lo, Weight(p));
  }

  lemma OnlyZeroBelowOne(s: nat)
    ensures s == 0 ==> Pow2(s) == 1
  {
  }

  lemma HalvesWeigh(hi: nat, lo: nat, w: nat)
    ensures Times(hi * BASE + lo, w) == hi * (BASE * w) + lo * w
  {
  }

  /** Storing a limb where there was none, or dropping it above the top. */
  lemma PutLimb(t: seq<Limb>, p: nat, x: Limb) returns (dropped: int)
    requires |t| == WIDTH && (p < WIDTH ==> t[p] == 0)
    ensures Value(if p < WIDTH then t[p := x] else t, WIDTH) + dropped == Value(t, WIDTH) + x * Weight(p)
    ensures Whole(dropped)
  {
    hide Weight, Value;
    if p < WIDTH {
      ValueUpdate(t, p, x, WIDTH);
      dropped := 0;
      WholeOf(0);
    } else {
      WeightUp(WIDTH, p);
      dropped := x * Weight(p - WIDTH) * MODULUS;
      WholeOf(x * Weight(p - WIDTH));
      assert dropped == x * (Weight(p - WIDTH) * MODULUS);
    }
  }

  lemma ShlStart(t: seq<Limb>, v: seq<Limb>, k: nat, s: nat, f: nat)
    requires |t| == WIDTH && forall j | 0 <= j < WIDTH :: t[j] == 0
    ensures ShlUpper(t, k, s) && Value(t, WIDTH) == 0 == Times(Value(v, 0), f)
  {
    ValueZero(t, WIDTH);
  }

  lemma ShlAdds(v: seq<Limb>, i: nat, k: nat, s: nat, shift: nat)
    requires i < |v| && shift == 32 * k + s
    ensures Times(Value(v, i + 1), Pow2(shift))
         == Times(Value(v, i), Pow2(shift)) + Times(Times(v[i], Pow2(s)), Weight(i + k))
  {
    hide Weight, Pow2, Value, Times;
    ShiftSplit(k, s);
    WeightUp(k, i + k);
    ValueNext(v, i);
    ShlArithmetic(v[i], Pow2(s), Weight(i), Weight(k), Value(v, i));
  }

  lemma ShiftSplit(k: nat, s: nat)
    ensures Pow2(32 * k + s) == Weight(k) * Pow2(s)
  {
    Pow2Add(32 * k, s);
  }

  lemma ShlArithmetic(x: nat, e: nat, w: nat, u: nat, v: nat)
    ensures x * w >= 0 && w * u >= 0 && u * e >= 0
    ensures Times(v + x * w, u * e) == Times(v, u * e) + Times(Times(x, e), w * u)
  {
    LessProduct(0, x, w);
    LessProduct(0, w, u);
    LessProduct(0, u, e);
    assert x * e * (w * u) == x * w * (u * e);
    assert (v + x * w) * (u * e) == v * (u * e) + x * w * (u * e);
  }

  /** While shifting right: nothing yet from limb m on, and the top bits of limb m - 1 are still missing. */
  ghost predicate ShrUpper(t: seq<Limb>, m: int, s: nat)
    requires s < 32
  {
    && |t| == WIDTH && (forall j | 0 <= j < WIDTH && m <= j :: t[j] == 0)
    && (0 < m <= WIDTH ==> t[m - 1] < Pow2(32 - s))
  }

  /** What a limb gives to the limb below it, and what it keeps. */
  function Bottom(x: Limb, s: nat): Limb
    requires s < 32
  {
    Times(x, Pow2(32 - s)) % BASE
  }

  function Top(x: Limb, s: nat): Limb
    requires s < 32
  {
    QuotientBound(x, Pow2(s));
    x / Pow2(s)
  }

  lemma TopAndBottom(x: Limb, s: nat)
    requires s < 32
    ensures Bottom(x, s) == Times(x % Pow2(s), Pow2(32 - s)) && Bottom(x, s) % Pow2(32 - s) == 0
    ensures Bottom(x, s) + Pow2(32 - s) <= BASE && Top(x, s) < Pow2(32 - s)
  {
    hide Pow2, Times;
    Pow2Split(s);
    Commute(Pow2(32 - s), Pow2(s));
    SplitProduct(x, Pow2(s), Pow2(32 - s), BASE);
  }

  lemma Commute(a: int, b: int)
    ensures a * b == b * a
  {
  }

  /** What one limb adds to the result. */
  ghost function ShrTerm(x: Limb, m: int, s: nat): nat
    requires s < 32
  {
    (if m > 0 then Times(Bottom(x, s), Weight(m - 1)) else 0) + (if m >= 0 then Times(Top(x, s), Weight(m)) else 0)
  }

  lemma ShrStep(t: seq<Limb>, x: Limb, m: int, s: nat)
    requires s < 32 && m < WIDTH && ShrUpper(t, m, s)
    ensures m > 0 && s != 0 ==> BitwiseOr(t[m - 1], Bottom(x, s)) < BASE
    ensures m >= 0 ==> BitwiseOr(t[m], Top(x, s)) < BASE
    ensures var t1 := if m > 0 && s != 0 then t[m - 1 := BitwiseOr(t[m - 1], Bottom(x, s))] else t;
      var t2 := if m >= 0 then t1[m := BitwiseOr(t1[m], Top(x, s))] else t1;
      ShrUpper(t2, m + 1, s) && Value(t2, WIDTH) == Value(t, WIDTH) + ShrTerm(x, m, s)
  {
    hide Weight, Value, Pow2, BitwiseOr, Bottom, Top;
    TopAndBottom(x, s);
    BottomZero(x, s);
    if m >= 0 {
      OrZero(Top(x, s));
      var t1 := t;
      if m > 0 {
        OrDisjoint(t[m - 1], Bottom(x, s), 32 - s);
        ValueRaise(t, m - 1, Bottom(x, s), WIDTH);
        t1 := t[m - 1 := t[m - 1] + Bottom(x, s)];
        assert s == 0 ==> t1 == t;
      }
      ValueRaise(t1, m, Top(x, s), WIDTH);
    }
  }

  lemma BottomZero(x: Limb, s: nat)
    requires s < 32
    ensures s == 0 ==> Bottom(x, s) == 0
  {
    if s == 0 {
      Pow2Of32();
      hide Pow2;
      MultiplePlus(x, BASE, 0);
    }
  }

  lemma ShrStart(t: seq<Limb>, v: seq<Limb>, k: nat, s: nat, f: nat)
    requires |t| == WIDTH && s < 32 && f > 0 && forall j | 0 <= j < WIDTH :: t[j] == 0
    ensures ShrUpper(t, 0 - k, s) && Value(t, WIDTH) == 0 == Value(v, 0) / f
  {
    hide Weight;
    ValueZero(t, WIDTH);
    MultiplePlus(0, f, 0);
  }

  /** The quotient grows by what the next limb adds. */
  lemma ShrAdds(t: seq<Limb>, v: seq<Limb>, i: nat, k: nat, s: nat, shift: nat)
    requires |v| == |t| == WIDTH && i < WIDTH && s < 32 && shift == 32 * k + s && ShrUpper(t, i - k, s)
    requires Value(t, WIDTH) == Value(v, i) / Pow2(shift)
    ensures Value(t, WIDTH) + ShrTerm(v[i], i - k, s) == Value(v, i + 1) / Pow2(shift)
  {
    hide Weight, Value, Pow2, Bottom, Top, ShrTerm;
    ShiftSplit(k, s);
    ValueBound(v, i);
    ValueBound(v, i + 1);
    ValueNext(v, i);
    if i < k {
      ShrNothing(v[i], i - k, s);
      WeightGrows(i, k);
      WeightGrows(i + 1, k);
      SmallQuotient(Value(v, i), Weight(k), Pow2(s));
      SmallQuotient(Value(v, i + 1), Weight(k), Pow2(s));
    } else if i == k {
      ShrFirst(v[i], s);
      SmallQuotient(Value(v, i), Weight(k), Pow2(s));
      FirstQuotient(Value(v, i), v[i], Weight(k), Pow2(s));
    } else {
      ShrWhole(v[i], i, k, s);
      NextQuotient(Value(v, i), ShrTerm(v[i], i - k, s), Pow2(shift));
    }
  }

  lemma SmallQuotient(a: nat, w: nat, e: nat)
    requires a < w && e > 0
    ensures w * e > 0 && a / (w * e) == 0
  {
    LessProduct(1, e, w);
    assert e * w == w * e;
    DivisionUnique(a, w * e, 0, a);
  }

  lemma WeightGrows(i: nat, j: nat)
    requires i <= j
    ensures Weight(i) <= Weight(j)
  {
    Pow2Grows(32 * i, 32 * j);
  }

  lemma ShrNothing(x: Limb, m: int, s: nat)
    requires s < 32 && m < 0
    ensures ShrTerm(x, m, s) == 0
  {
  }

  lemma ShrFirst(x: Limb, s: nat)
    requires s < 32
    ensures ShrTerm(x, 0, s) == x / Pow2(s)
  {
    hide Pow2;
    WeightNext(0);
  }

  lemma FirstQuotient(v: nat, x: nat, w: nat, e: nat)
    requires v < w && e > 0
    ensures w * e > 0 && (v + x * w) / (w * e) == x / e
  {
    var h, r := x / e, x % e;
    LessProduct(r + 1, e, w);
    assert x * w == (h * e + r) * w == h * (w * e) + r * w && (r + 1) * w == r * w + w;
    LessProduct(0, r, w);
    DivisionUnique(v + x * w, w * e, h, v + r * w);
  }

  /** A limb above the first is shifted without loss. */
  lemma ShrWhole(x: Limb, i: nat, k: nat, s: nat)
    requires s < 32 && i > k
    ensures x * Weight(i) == ShrTerm(x, i - k, s) * Pow2(32 * k + s)
  {
    hide Weight, Pow2, Bottom, Times;
    ShiftSplit(k, s);
    Pow2Split(s);
    TopAndBottom(x, s);
    WeightUp(k, i);
    WeightNext(i - k - 1);
    WholeTerm(x, Pow2(s), Pow2(32 - s), Weight(i - k - 1), Weight(k));
  }

  lemma WholeTerm(x: nat, e: nat, d: nat, w: nat, u: nat)
    requires e > 0 && d * e == BASE
    ensures x * (BASE * w * u) == (Times(Times(x % e, d), w) + Times(x / e, BASE * w)) * (u * e)
  {
    var h, r := x / e, x % e;
    assert x == h * e + r;
    assert r * d * w * (u * e) == r * (d * e) * w * u;
    assert h * (BASE * w) * (u * e) == h * e * (BASE * w * u);
    assert (h * e + r) * (BASE * w * u) == h * e * (BASE * w * u) + r * (BASE * w * u);
    assert r * BASE * w * u == r * (BASE * w * u);
  }

  lemma NextQuotient(v: nat, y: nat, f: nat)
    requires f > 0
    ensures (v + y * f) / f == v / f + y
  {
    assert (v / f + y) * f == v / f * f + y * f;
    DivisionUnique(v + y * f, f, v / f + y, v % f);
  }

  // ---------------------------------------------------------------------------------------------
  // Comparison and division
  // ---------------------------------------------------------------------------------------------

  lemma SmallerLimb(s: seq<Limb>, t: seq<Limb>, i: nat)
    requires |s| == |t| == WIDTH && i < WIDTH && s[i] < t[i] && forall j | i < j < WIDTH :: s[j] == t[j]
    ensures Value(s, WIDTH) < Value(t, WIDTH)
  {
    hide Weight, Value;
    ValueNext(s, i);
    ValueNext(t, i);
    ValueBound(s, i);
    LessProduct(s[i] + 1, t[i], Weight(i));
    assert (s[i] + 1) * Weight(i) == s[i] * Weight(i) + Weight(i);
    Unchanged(s, t, i + 1, Value(t, i + 1) - Value(s, i + 1));
  }

  /** A number of r bits. */
  ghost predicate HasBits(v: nat, r: nat) { if r == 0 then v == 0 else Pow2(r - 1) <= v < Pow2(r) }

  lemma BitTest(x: nat, n: nat)
    requires x < Pow2(n + 1)
    ensures x / Pow2(n) % 2 == 1 <==> Pow2(n) <= x
  {
    if Pow2(n) <= x { DivisionUnique(x, Pow2(n), 1, x - Pow2(n)); } else { DivisionUnique(x, Pow2(n), 0, x); }
  }

  lemma OneBit(x: nat)
    requires 0 < x < Pow2(1)
    ensures Pow2(0) <= x
  {
  }

  lemma TopBit(s: seq<Limb>, pos: nat, n: nat)
    requires |s| == WIDTH && pos < WIDTH && Pow2(n) <= s[pos] < Pow2(n + 1)
    requires forall j | pos < j < WIDTH :: s[j] == 0
    ensures HasBits(Value(s, WIDTH), 32 * pos + n + 1)
  {
    hide Weight, Value, Pow2;
    var z := seq(WIDTH, _ => 0);
    ValueZero(z, WIDTH);
    ValueZero(z, pos + 1);
    Unchanged(z, s, pos + 1, Value(s, pos + 1));
    ValueNext(s, pos);
    ValueBound(s, pos);
    ShiftSplit(pos, n);
    ShiftSplit(pos, n + 1);
    var x: nat := s[pos];
    LessProduct(Pow2(n), x, Weight(pos));
    LessProduct(x + 1, Pow2(n + 1), Weight(pos));
    assert (x + 1) * Weight(pos) == x * Weight(pos) + Weight(pos);
    Commute(Pow2(n), Weight(pos));
    Commute(Pow2(n + 1), Weight(pos));
  }

  lemma ZeroBits(v: nat, r: nat)
    requires HasBits(v, r)
    ensures r == 0 <==> v == 0
  {
  }

  lemma FewerBits(n: nat, nb: nat, d: nat, db: nat)
    requires HasBits(n, nb) && HasBits(d, db) && db > nb
    ensures d > 0 && n / d == 0
  {
    Pow2Grows(nb, db - 1);
    hide Pow2;
    DivisionUnique(n, d, 0, n);
  }

  lemma AlignedBits(n: nat, nb: nat, d: nat, db: nat)
    requires HasBits(n, nb) && HasBits(d, db) && 0 < db <= nb && n < MODULUS
    ensures n < Times(d, Pow2(nb - db + 1)) && nb - db < 256
    ensures Times(d, Pow2(nb - db)) % MODULUS == Times(d, Pow2(nb - db))
  {
    hide Pow2;
    var s := nb - db;
    Pow2Add(db - 1, s + 1);
    Pow2Add(db, s);
    LessProduct(Pow2(db - 1), d, Pow2(s + 1));
    LessProduct(d + 1, Pow2(db), Pow2(s));
    assert (d + 1) * Pow2(s) == d * Pow2(s) + Pow2(s);
    ModulusIsPower();
    if nb > 256 { Pow2Grows(256, nb - 1); }
    Pow2Grows(nb, 256);
    DivisionUnique(Times(d, Pow2(s)), MODULUS, 0, Times(d, Pow2(s)));
  }

  lemma ModulusIsPower()
    ensures MODULUS == Pow2(256)
  {
  }

  /** The bits of a number below place p are clear. */
  ghost predicate LowBitsClear(t: seq<Limb>, p: nat) {
    && |t| == WIDTH && (forall l | 0 <= l < WIDTH && l < p / 32 :: t[l] == 0)
    && (p / 32 < WIDTH ==> t[p / 32] % Pow2(p % 32) == 0)
  }

  lemma AllBitsClear(t: seq<Limb>, p: nat)
    requires |t| == WIDTH && Value(t, WIDTH) == 0
    ensures LowBitsClear(t, p)
  {
    hide Weight, Pow2;
    ZeroValue(t, WIDTH);
    if p / 32 < WIDTH { MultiplePlus(0, Pow2(p % 32), 0); }
  }

  lemma {:induction false} ZeroValue(t: seq<Limb>, n: nat)
    requires n <= |t| && Value(t, n) == 0
    ensures forall i | 0 <= i < n :: t[i] == 0
  {
    hide Weight;
    if n > 0 {
      if t[n - 1] > 0 { LessProduct(1, t[n - 1], Weight(n - 1)); }
      ZeroValue(t, n - 1);
    }
  }

  /** Setting the highest of the clear low bits adds its weight. */
  lemma ClearBit(t: seq<Limb>, p: nat)
    requires p < 256 && LowBitsClear(t, p + 1)
    ensures LowBitsClear(t, p) && BitwiseOr(t[p / 32], Pow2(p % 32)) < BASE
    ensures var t' := t[p / 32 := BitwiseOr(t[p / 32], Pow2(p % 32))];
      LowBitsClear(t', p) && Value(t', WIDTH) == Value(t, WIDTH) + Pow2(p)
  {
    hide Weight, Value, BitwiseOr, Pow2;
    var l, b := p / 32, p % 32;
    ClearLimb(t, p);
    HalfMultiple(t[l], b);
    Pow2Step(b);
    OrDisjoint(Pow2(b), t[l], b + 1);
    ValueRaise(t, l, Pow2(b), WIDTH);
    ShiftSplit(l, b);
    Commute(Weight(l), Pow2(b));
  }

  lemma Pow2Step(b: nat)
    ensures Pow2(b + 1) == 2 * Pow2(b)
  {
  }

  lemma ClearLimb(t: seq<Limb>, p: nat)
    requires p < 256 && LowBitsClear(t, p + 1)
    ensures t[p / 32] % Pow2(p % 32 + 1) == 0
  {
    hide Pow2;
    if p % 32 == 31 { MultiplePlus(0, Pow2(32), 0); }
  }

  lemma HalfMultiple(x: Limb, b: nat)
    requires b < 32 && x % Pow2(b + 1) == 0
    ensures x % Pow2(b) == 0 && (x + Pow2(b)) % Pow2(b) == 0 && x + Pow2(b) < BASE
  {
    hide Pow2;
    Pow2Step(b);
    Pow2Split(b + 1);
    HalfOfMultiple(x, Pow2(b), Pow2(31 - b));
  }

  lemma HalfOfMultiple(x: nat, p: nat, r: nat)
    requires p > 0 && x % (2 * p) == 0 && x < r * (2 * p)
    ensures x % p == 0 && (x + p) % p == 0 && x + p < r * (2 * p)
  {
    var q := x / (2 * p);
    assert x == q * (2 * p);
    HalfRemainders(q, p);
    assert x + p < r * (2 * p) by {
      LessFactor(q, r, 2 * p);
      LessProduct(q + 1, r, 2 * p);
      assert (q + 1) * (2 * p) == q * (2 * p) + 2 * p;
    }
  }

  lemma HalfRemainders(q: nat, p: nat)
    requires p > 0
    ensures q * (2 * p) % p == 0 && (q * (2 * p) + p) % p == 0
  {
    var m := 2 * q;
    assert q * (2 * p) == m * p && q * (2 * p) + p == (m + 1) * p;
    MultiplePlus(m, p, 0);
    MultiplePlus(m + 1, p, 0);
  }

  /** The divisor doubles with each place. */
  lemma Doubling(d: nat, shift: nat)
    ensures Times(d, Pow2(shift + 1)) == 2 * Times(d, Pow2(shift))
    ensures shift > 0 ==> Times(d, Pow2(shift)) / Pow2(1) == Times(d, Pow2(shift - 1))
  {
    hide Pow2;
    Pow2Step(0);
    Pow2Step(shift);
    OnlyZeroBelowOne(0);
    assert d * (2 * Pow2(shift)) == 2 * (d * Pow2(shift));
    if shift > 0 {
      Pow2Step(shift - 1);
      assert d * (2 * Pow2(shift - 1)) == 2 * (d * Pow2(shift - 1));
    }
  }

  lemma QuotientBit(q: nat, d: nat, shift: nat)
    ensures Times(q + Pow2(shift), d) == Times(q, d) + Times(d, Pow2(shift))
  {
    hide Pow2;
  }

  lemma DivideEnd(q: nat, d: nat, r: nat)
    requires r < Times(d, Pow2(0))
    ensures (r + Times(q, d)) / d == q
  {
    MultiplePlus(q, d, r);
  }
}
