/** The compact form of a target, SetCompact and GetCompact (src/arith_uint256.cpp), and the work that a
    block with such a target stands for (GetBlockProof, src/chain.cpp). */
module Compact {
  import opened Arithmetic
  import opened ArithUint256

  const SIGN := 0x80_0000
  const EXPONENT := 0x100_0000

  /** Powers of 256. */
  function Bytes(k: nat): (b: nat)
    ensures b > 0
  {
    Pow2(8 * k)
  }

  lemma BytesAdd(a: nat, b: nat)
    ensures Bytes(a + b) == Bytes(a) * Bytes(b)
  {
    Pow2Add(8 * a, 8 * b);
  }

  lemma SmallBytes()
    ensures Bytes(0) == 1 && Bytes(1) == 0x100 && Bytes(2) == 0x1_0000 && Bytes(3) == EXPONENT && Bytes(32) == MODULUS
  {
    Pow2Of32();
  }

  function Over(x: nat, d: nat): nat
    requires d > 0
  {
    QuotientBound(x, d);
    x / d
  }

  function SizeOf(c: nat): nat { c / EXPONENT }
  function WordOf(c: nat): nat { c % SIGN }
  predicate SignOf(c: nat) { c / SIGN % 2 == 1 }

  /** The number a compact form stands for: mantissa times 256 to the size less three. */
  function Exact(c: nat): nat {
    if SizeOf(c) <= 3 then Over(WordOf(c), Bytes(3 - SizeOf(c))) else Times(WordOf(c), Bytes(SizeOf(c) - 3))
  }

  // ---------------------------------------------------------------------------------------------
  // Decoding
  // ---------------------------------------------------------------------------------------------

  /** The overflow test on mantissa and size is exact. */
  lemma OverflowExact(word: nat, size: nat)
    requires word < SIGN && size > 3
    ensures Times(word, Bytes(size - 3)) >= MODULUS <==>
      word != 0 && (size > 34 || (word > 0xff && size > 33) || (word > 0xffff && size > 32))
  {
    hide Bytes, Times;
    SmallBytes();
    if word == 0 {
      TimesZero(Bytes(size - 3));
    } else if size > 34 {
      BytesAdd(size - 35, 32);
      AtLeast(word, Bytes(size - 35), MODULUS);
    } else if size > 32 {
      BytesAdd(35 - size, size - 3);
      CompareScaled(word, Bytes(35 - size), Bytes(size - 3));
    } else {
      BytesAdd(32 - size, size - 3);
      BytesAdd(3, 29);
      BelowScaled(word, Bytes(size - 3), Bytes(32 - size), Bytes(29));
    }
  }

  lemma AtLeast(x: nat, a: nat, b: nat)
    requires x > 0 && a > 0
    ensures Times(x, a * b) >= b
  {
    LessProduct(1, a, b);
    LessProduct(1, x, a * b);
  }

  lemma CompareScaled(x: nat, a: nat, u: nat)
    requires u > 0
    ensures Times(x, u) >= a * u <==> x >= a
  {
    if x >= a { LessProduct(a, x, u); } else { LessProduct(x + 1, a, u); assert (x + 1) * u == x * u + u; }
  }

  lemma BelowScaled(x: nat, u: nat, a: nat, m: nat)
    requires x < EXPONENT && a > 0 && u > 0 && a * u == m
    ensures Times(x, u) < EXPONENT * m
  {
    LessProduct(x, EXPONENT - 1, u);
    LessProduct(1, a, u);
  }

  /** Sets x to the number, modulo 2^256. */
  method SetCompact(x: BaseUint, nCompact: nat) returns (fNegative: bool, fOverflow: bool)
    requires x.Valid() && nCompact < BASE
    modifies x.pn
    ensures x.Val() == Exact(nCompact) % MODULUS
    ensures fNegative <==> Exact(nCompact) != 0 && SignOf(nCompact)
    ensures fOverflow <==> Exact(nCompact) >= MODULUS
  {
    hide Bytes, Times, Over, Pow2;
    var nSize, nWord := nCompact / EXPONENT, nCompact % SIGN;
    SmallBytes();
    if nSize <= 3 {
      ShiftedWord(nWord, nSize);
      nWord := Over(nWord, Bytes(3 - nSize));
      x.Assign(nWord);
      SmallRemainder(nWord);
    } else {
      OverflowExact(nWord, nSize);
      NonZero(nWord, nSize - 3);
      SmallRemainder(nWord);
      x.Assign(nWord);
      x.ShlAssign(8 * (nSize - 3));
      BytesArePowers(nSize - 3);
    }
    fNegative := nWord != 0 && nCompact / SIGN % 2 == 1;
    fOverflow := nWord != 0 && (nSize > 34 || (nWord > 0xff && nSize > 33) || (nWord > 0xffff && nSize > 32));
  }

  lemma ShiftedWord(word: nat, size: nat)
    requires word < SIGN && size <= 3
    ensures Over(word, Bytes(3 - size)) < SIGN
  {
    QuotientBound(word, Bytes(3 - size));
  }

  lemma SmallRemainder(x: nat)
    requires x < EXPONENT
    ensures x < MODULUS && x % MODULUS == x
  {
    SmallBytes();
    BytesAdd(3, 29);
    hide Bytes;
    LessProduct(1, Bytes(29), EXPONENT);
    DivisionUnique(x, MODULUS, 0, x);
  }

  lemma NonZero(word: nat, k: nat)
    ensures Times(word, Bytes(k)) != 0 <==> word != 0
  {
    hide Bytes;
    if word > 0 { LessProduct(1, word, Bytes(k)); }
  }

  lemma BytesArePowers(k: nat)
    ensures Bytes(k) == Pow2(8 * k)
  {
  }

  // ---------------------------------------------------------------------------------------------
  // Encoding
  // ---------------------------------------------------------------------------------------------

  function BitLength(v: nat): nat { if v == 0 then 0 else 1 + BitLength(v / 2) }

  lemma {:induction false} BitLengthBits(v: nat)
    ensures HasBits(v, BitLength(v))
  {
    if v > 0 { BitLengthBits(v / 2); }
  }

  lemma BitsUnique(v: nat, r: nat, r': nat)
    requires HasBits(v, r) && HasBits(v, r')
    ensures r == r'
  {
    if r < r' { Pow2Grows(r, r' - 1); }
    if r' < r { Pow2Grows(r', r - 1); }
  }

  /** The number of bytes. */
  function ByteLength(v: nat): nat { (BitLength(v) + 7) / 8 }

  lemma ByteLengthBounds(v: nat)
    ensures v < Bytes(ByteLength(v)) && (v > 0 ==> ByteLength(v) > 0 && Bytes(ByteLength(v) - 1) <= v)
  {
    BitLengthBits(v);
    var r, k := BitLength(v), ByteLength(v);
    Pow2Grows(r, 8 * k);
    if v > 0 { Pow2Grows(8 * (k - 1), r - 1); }
  }

  lemma ByteLengthUnique(v: nat, k: nat)
    requires k > 0 && Bytes(k - 1) <= v < Bytes(k)
    ensures ByteLength(v) == k
  {
    ByteLengthBounds(v);
    var j := ByteLength(v);
    if j < k { Pow2Grows(8 * j, 8 * (k - 1)); }
    if k < j { Pow2Grows(8 * k, 8 * (j - 1)); }
  }

  /** The three leading bytes. */
  function Leading(v: nat): nat {
    var size := ByteLength(v);
    if size <= 3 then Times(v, Bytes(3 - size)) else Over(v, Bytes(size - 3))
  }

  /** Size and mantissa: a mantissa that would set the sign bit loses its last byte. */
  function Fields(v: nat): (nat, nat) {
    if Leading(v) >= SIGN then (ByteLength(v) + 1, Leading(v) / 0x100) else (ByteLength(v), Leading(v))
  }

  function Compacted(v: nat, negative: bool): nat {
    var (size, word) := Fields(v);
    word + size * EXPONENT + (if negative && word != 0 then SIGN else 0)
  }

  lemma LeadingBound(v: nat)
    ensures Leading(v) < EXPONENT
  {
    hide Bytes, Times, ByteLength;
    ByteLengthBounds(v);
    var k := ByteLength(v);
    SmallBytes();
    if k <= 3 {
      BytesAdd(k, 3 - k);
      LessScaled(v, Bytes(k), Bytes(3 - k));
    } else {
      BytesAdd(k - 3, 3);
      QuotientBelow(v, Bytes(k - 3), EXPONENT);
    }
  }

  lemma LessScaled(x: nat, a: nat, u: nat)
    requires x < a && u > 0
    ensures Times(x, u) < a * u
  {
    LessProduct(x + 1, a, u);
    assert (x + 1) * u == x * u + u;
  }

  lemma FieldsBound(v: nat)
    requires v < MODULUS
    ensures Fields(v).0 <= 33 && Fields(v).1 < SIGN
  {
    hide Bytes, Times, Leading;
    LeadingBound(v);
    ByteLengthBounds(v);
    SmallBytes();
    if ByteLength(v) > 32 { BytesGrow(32, ByteLength(v) - 1); }
  }

  lemma BytesGrow(a: nat, b: nat)
    requires a <= b
    ensures Bytes(a) <= Bytes(b)
  {
    Pow2Grows(8 * a, 8 * b);
  }

  /** The fields can be read back. */
  lemma CompactedFields(v: nat, negative: bool)
    requires v < MODULUS
    ensures var c := Compacted(v, negative);
      && c < BASE && SizeOf(c) == Fields(v).0 && WordOf(c) == Fields(v).1
      && (SignOf(c) <==> negative && Fields(v).1 != 0)
  {
    hide Fields;
    FieldsBound(v);
  }

  /** Short numbers are kept whole; of longer ones the mantissa is the leading part. */
  lemma FieldsExact(v: nat)
    ensures var (size, word) := Fields(v);
      if size <= 3 then Over(word, Bytes(3 - size)) == v else word == Over(v, Bytes(size - 3))
  {
    hide Bytes, Times, Over, ByteLength;
    var k, m := ByteLength(v), Leading(v);
    SmallBytes();
    if m < SIGN {
      if k <= 3 { WholeQuotient(v, Bytes(3 - k)); }
    } else if k < 3 {
      BytesAdd(2 - k, 1);
      ShiftBack(v, Bytes(2 - k));
      WholeQuotient(v, Bytes(2 - k));
    } else if k == 3 {
      TimesOne(v);
    } else {
      BytesAdd(k - 3, 1);
      OverTwice(v, Bytes(k - 3));
    }
  }

  lemma WholeQuotient(v: nat, u: nat)
    requires u > 0
    ensures Over(Times(v, u), u) == v
  {
    MultiplePlus(v, u, 0);
  }

  lemma ShiftBack(v: nat, u: nat)
    ensures Times(v, u * 0x100) / 0x100 == Times(v, u)
  {
    assert v * (u * 0x100) == v * u * 0x100;
  }

  lemma TimesOne(v: nat)
    ensures Times(v, 1) == v && Over(v, 0x100) == v / 0x100
  {
  }

  lemma TimesIs(x: nat, y: nat)
    ensures Times(x, y) == x * y
  {
  }

  lemma OverTwice(v: nat, u: nat)
    requires u > 0
    ensures u * 0x100 > 0 && Over(v, u) / 0x100 == Over(v, u * 0x100)
  {
    DivideTwice(v, u, 0x100);
  }

  /** What one step of the mantissa is worth. */
  function Unit(c: nat): nat { if SizeOf(c) <= 3 then 1 else Bytes(SizeOf(c) - 3) }

  /** Decoding what was encoded: no sign, no overflow, not above the number, and less than one mantissa
      step below it. */
  lemma CompactedDecodes(v: nat)
    requires v < MODULUS
    ensures var c := Compacted(v, false);
      && c < BASE && !SignOf(c) && Exact(c) < MODULUS
      && Exact(c) <= v < Exact(c) + Unit(c)
  {
    hide Bytes, Times, Over, Fields;
    CompactedFields(v, false);
    FieldsExact(v);
    var size := Fields(v).0;
    if size > 3 { Floor(v, Bytes(size - 3)); }
  }

  lemma Floor(v: nat, u: nat)
    requires u > 0
    ensures Times(Over(v, u), u) <= v < Times(Over(v, u), u) + u
  {
  }

  /** The decoded number has the same compact form. */
  lemma CompactedStable(v: nat)
    requires v < MODULUS
    ensures var c := Compacted(v, false); Compacted(Exact(c), false) == c
  {
    hide Bytes, Times, Over, Fields, ByteLength, Leading;
    CompactedFields(v, false);
    FieldsExact(v);
    var (size, word) := Fields(v);
    if size > 3 {
      var y := Times(word, Bytes(size - 3));
      SameLength(v, size);
      SameLeading(v, size);
    }
  }

  lemma SizeOfFields(v: nat)
    ensures ByteLength(v) <= Fields(v).0 <= ByteLength(v) + 1
  {
    hide ByteLength, Leading;
  }

  /** Rounding down to a mantissa step keeps the number of bytes. */
  lemma SameLength(v: nat, size: nat)
    requires size == Fields(v).0 > 3
    ensures ByteLength(Times(Over(v, Bytes(size - 3)), Bytes(size - 3))) == ByteLength(v)
  {
    hide Bytes, Times, Over, Fields, ByteLength;
    SizeOfFields(v);
    ByteLengthBounds(v);
    ZeroLength();
    var k, u := ByteLength(v), Bytes(size - 3);
    BytesAdd(k - 1 - (size - 3), size - 3);
    RoundDown(v, Bytes(k - 1 - (size - 3)), u);
    Floor(v, u);
    ByteLengthUnique(Times(Over(v, u), u), k);
  }

  lemma ZeroLength()
    ensures ByteLength(0) == 0 && Fields(0).0 == 0
  {
  }

  lemma RoundDown(v: nat, a: nat, u: nat)
    requires u > 0 && a * u <= v
    ensures Times(Over(v, u), u) >= a * u
  {
    if v / u < a { LessProduct(v / u + 1, a, u); assert (v / u + 1) * u == v / u * u + u; }
    LessProduct(a, v / u, u);
  }

  lemma SameLeading(v: nat, size: nat)
    requires size == Fields(v).0 > 3
    ensures Fields(Times(Over(v, Bytes(size - 3)), Bytes(size - 3))) == Fields(v)
  {
    hide Bytes, Times, Over, ByteLength;
    SameLength(v, size);
    FieldsExact(v);
    SmallBytes();
    var k, u := ByteLength(v), Bytes(size - 3);
    var word := Over(v, u);
    var y := Times(word, u);
    if size == k {
      WholeQuotient(word, u);
    } else {
      BytesAdd(k - 3, 1);
      LeadingScaled(word, Bytes(k - 3));
      if k == 3 {
        TimesOne(y);
        TimesIs(word, 0x100);
      }
    }
  }

  lemma LeadingScaled(word: nat, u: nat)
    requires u > 0
    ensures Over(Times(word, u * 0x100), u) == word * 0x100
  {
    assert word * (u * 0x100) == word * 0x100 * u;
    MultiplePlus(word * 0x100, u, 0);
  }

  /** The low 64 bits. */
  method GetLow64(x: BaseUint) returns (r: nat)
    requires x.Valid()
    ensures x.Val() < EXPONENT ==> r == x.Val()
  {
    hide Weight, Value;
    var low, high := x.pn[0], x.pn[1];
    if x.Val() < EXPONENT { LowLimbs(x.pn[..]); }
    r := low + BASE * high;
  }

  lemma LowLimbs(s: seq<Limb>)
    requires |s| == WIDTH && Value(s, WIDTH) < EXPONENT
    ensures s[0] + BASE * s[1] == Value(s, WIDTH)
  {
    hide Weight, Value;
    ValueSplit(s, 2, WIDTH);
    var rest: nat :| Value(s, WIDTH) == Value(s, 2) + rest * Weight(2);
    WeightNext(0);
    WeightNext(1);
    if rest > 0 { LessProduct(1, rest, Weight(2)); }
    TwoLimbs(s);
  }

  method GetLeading(x: BaseUint) returns (nCompact: nat, nSize: nat)
    requires x.Valid()
    ensures nCompact == Leading(x.Val()) && nSize == ByteLength(x.Val())
  {
    hide Bytes, Times, Over, HasBits, ByteLength, BitLength, Pow2, Value, Weight;
    ghost var v := x.Val();
    var bits := x.Bits();
    BitLengthBits(v);
    BitsUnique(v, bits, BitLength(v));
    ByteLengthIs(v);
    LeadingBound(v);
    nSize := (bits + 7) / 8;
    if nSize <= 3 {
      ShortNumber(v);
      nCompact := GetLow64(x);
      nCompact := Times(nCompact, Bytes(3 - nSize));
    } else {
      var bn := new BaseUint.Copy(x);
      bn.ShrAssign(8 * (nSize - 3));
      BytesArePowers(nSize - 3);
      OverIs(v, Bytes(nSize - 3));
      nCompact := GetLow64(bn);
    }
  }

  /** The mantissa never touches the sign bit or the size, and the size fits its byte. */
  method GetCompact(x: BaseUint, fNegative: bool) returns (nCompact: nat)
    requires x.Valid()
    ensures nCompact == Compacted(x.Val(), fNegative)
  {
    hide BitwiseOr, ByteLength, Leading, Value, Weight;
    ghost var v := x.Val();
    var nSize: nat;
    nCompact, nSize := GetLeading(x);
    LeadingBound(v);
    if nCompact / SIGN % 2 == 1 {
      nCompact := nCompact / 0x100;
      nSize := nSize + 1;
    }
    FieldsBound(v);
    assert nCompact < SIGN && nSize < 256;
    JoinFields(nCompact, nSize);
    nCompact := BitwiseOr(nCompact, nSize * EXPONENT);
    nCompact := BitwiseOr(nCompact, if fNegative && nCompact % SIGN != 0 then SIGN else 0);
  }

  lemma ByteLengthIs(v: nat)
    ensures ByteLength(v) == (BitLength(v) + 7) / 8
  {
  }

  lemma OverIs(v: nat, u: nat)
    requires u > 0
    ensures Over(v, u) == v / u
  {
  }

  lemma ShortNumber(v: nat)
    requires ByteLength(v) <= 3
    ensures v < EXPONENT
  {
    ByteLengthBounds(v);
    BytesGrow(ByteLength(v), 3);
    SmallBytes();
  }

  /** Putting mantissa, size and sign together with or is adding them. */
  lemma JoinFields(word: nat, size: nat)
    requires word < SIGN
    ensures BitwiseOr(word, size * EXPONENT) == word + size * EXPONENT
    ensures (word + size * EXPONENT) % SIGN == word
    ensures BitwiseOr(word + size * EXPONENT, SIGN) == word + size * EXPONENT + SIGN
    ensures BitwiseOr(word + size * EXPONENT, 0) == word + size * EXPONENT
  {
    hide Pow2, BitwiseOr;
    SignIsPower();
    MultiplePlus(2 * size, SIGN, 0);
    OrDisjoint(word, size * EXPONENT, 23);
    OrSign(word, size);
    OrZero(word + size * EXPONENT);
  }

  lemma SignIsPower()
    ensures Pow2(23) == SIGN && Pow2(24) == EXPONENT
  {
    Pow2Of32();
    Pow2Add(16, 4);
    Pow2Add(20, 3);
  }

  lemma OrSign(word: nat, size: nat)
    requires word < SIGN
    ensures BitwiseOr(word + size * EXPONENT, SIGN) == word + size * EXPONENT + SIGN
  {
    hide Pow2, BitwiseOr;
    SignIsPower();
    OrHigher(word + size * EXPONENT, 23);
  }

  /** Or with a single bit that is clear. */
  lemma {:induction false} OrHigher(x: nat, n: nat)
    requires x / Pow2(n) % 2 == 0
    ensures BitwiseOr(x, Pow2(n)) == x + Pow2(n)
  {
    if n == 0 {
      OrZero(x / 2);
    } else {
      DivideTwice(x, 2, Pow2(n - 1));
      OrHigher(x / 2, n - 1);
    }
  }

  // ---------------------------------------------------------------------------------------------
  // Work
  // ---------------------------------------------------------------------------------------------

  /** The work of a block: how many hashes it takes on average, 2^256 divided by the target plus one. */
  method GetBlockProof(nBits: nat) returns (work: BaseUint)
    requires nBits < BASE
    ensures fresh(work) && fresh(work.pn) && work.Valid()
    ensures var target := Exact(nBits);
      work.Val() == if target == 0 || SignOf(nBits) || target >= MODULUS then 0 else MODULUS / (target + 1)
  {
    hide Weight, Value, Exact, SignOf;
    var bnTarget := new BaseUint();
    var fNegative, fOverflow := SetCompact(bnTarget, nBits);
    ghost var t := Exact(nBits);
    var isZero := EqualTo(bnTarget, 0);
    if t < MODULUS { DivisionUnique(t, MODULUS, 0, t); }
    if fNegative || fOverflow || isZero {
      work := new BaseUint();
      return;
    }
    NotAllOnes(nBits);
    work := WorkFor(bnTarget);
  }

  /** The sum of a number and a small one, as a new number. */
  method Plus(a: BaseUint, x: nat) returns (r: BaseUint)
    requires a.Valid() && x < BASE * BASE
    ensures fresh(r) && fresh(r.pn) && r.Valid() && r.Val() == (a.Val() + x) % MODULUS
  {
    hide Weight, Value;
    r := new BaseUint.Copy(a);
    var b := new BaseUint();
    b.Assign(x);
    r.AddAssign(b);
  }

  method WorkFor(bnTarget: BaseUint) returns (work: BaseUint)
    requires bnTarget.Valid() && 0 < bnTarget.Val() && bnTarget.Val() + 1 < MODULUS
    ensures fresh(work) && fresh(work.pn) && work.Valid() && work.Val() == MODULUS / (bnTarget.Val() + 1)
  {
    hide Weight, Value;
    ghost var t := bnTarget.Val();
    var quotient := bnTarget.Complement();
    var divisor := Plus(bnTarget, 1);
    DivisionUnique(t + 1, MODULUS, 0, t + 1);
    var ok := quotient.DivAssign(divisor);
    work := Plus(quotient, 1);
    WorkFormula(t);
  }

  method EqualTo(x: BaseUint, b: nat) returns (r: bool)
    requires x.Valid() && b < BASE * BASE
    ensures r <==> x.Val() == b
  {
    hide Weight, Value;
    ghost var s := x.pn[..];
    EqualLimbs(s, b);
    for i := WIDTH downto 2
      invariant forall j | i <= j < WIDTH :: s[j] == 0
    {
      if x.pn[i] != 0 {
        return false;
      }
    }
    return x.pn[1] == b / BASE && x.pn[0] == b % BASE;
  }

  lemma EqualLimbs(s: seq<Limb>, b: nat)
    requires |s| == WIDTH && b < BASE * BASE
    ensures Value(s, WIDTH) == b <==> (forall j | 2 <= j < WIDTH :: s[j] == 0) && s[1] == b / BASE && s[0] == b % BASE
  {
    hide Weight, Value;
    TwoLimbs(s);
    var t := s[..2] + seq(WIDTH - 2, _ => 0);
    ValueSame(s, t, 2);
    if j :| 2 <= j < WIDTH && s[j] != 0 {
      HighLimb(s, j);
    } else {
      var z := seq(WIDTH, _ => 0);
      ValueZero(z, WIDTH);
      ValueZero(z, 2);
      Unchanged(z, s, 2, Value(s, 2));
    }
  }

  lemma HighLimb(s: seq<Limb>, j: nat)
    requires |s| == WIDTH && 2 <= j < WIDTH && s[j] != 0
    ensures Value(s, WIDTH) >= BASE * BASE
  {
    hide Weight, Value;
    ValueNext(s, j);
    LessProduct(1, s[j], Weight(j));
    WeightGrows(2, j);
    WeightNext(0);
    WeightNext(1);
    ValueSplit(s, j + 1, WIDTH);
    var rest: nat :| Value(s, WIDTH) == Value(s, j + 1) + rest * Weight(j + 1);
    LessProduct(0, rest, Weight(j + 1));
  }

  /** No compact form stands for 2^256 - 1, so adding one to a target does not wrap around. */
  lemma NotAllOnes(c: nat)
    requires Exact(c) < MODULUS
    ensures Exact(c) + 1 < MODULUS
  {
    hide Bytes, Times, Over;
    SmallBytes();
    var size, word := SizeOf(c), WordOf(c);
    BytesAdd(1, 31);
    if size <= 3 {
      ShiftedWord(word, size);
      SmallRemainder(Over(word, Bytes(3 - size)) + 1);
    } else {
      BytesAdd(1, size - 4);
      EvenNumber(word, Bytes(size - 4));
    }
  }

  lemma EvenNumber(word: nat, u: nat)
    ensures Times(word, 0x100 * u) % 2 == 0
  {
    assert word * (0x100 * u) == 2 * (word * 0x80 * u);
  }

  /** The quotient that is computed, since 2^256 itself does not fit. */
  lemma WorkFormula(t: nat)
    requires 0 < t && t + 1 < MODULUS
    ensures ((MODULUS - 1 - t) / (t + 1) + 1) % MODULUS == MODULUS / (t + 1)
  {
    var q, r := (MODULUS - 1 - t) / (t + 1), (MODULUS - 1 - t) % (t + 1);
    assert (q + 1) * (t + 1) == q * (t + 1) + (t + 1);
    DivisionUnique(MODULUS, t + 1, q + 1, r);
    LessProduct(2, t + 1, q + 1);
    DivisionUnique(q + 1, MODULUS, 0, q + 1);
  }
}
