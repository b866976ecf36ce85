/** Bech32 strings (src/bech32.h, src/bech32.cpp): a human-readable part, a separator, and five-bit symbols of
    which the last six are a checksum over a polynomial code. */
module Bech32 {

  type Symbol = bv5

  // ---------------------------------------------------------------------------------------------
  // The polynomial remainder
  // ---------------------------------------------------------------------------------------------

  function Xor(a: bv32, b: bv32): bv32 { a ^ b }

  /** One multiple of the remainder of x^6, if its bit is set. */
  function Part(c0: bv32, mask: bv32, k: bv32): bv32 { if c0 & mask != 0 then k else 0 }

  /** The leading coefficient times the remainder of x^6. */
  function Tail(c0: bv32): bv32 { Lin5(c0, 0x3b6a57b2, 0x26508e6d, 0x1ea119fa, 0x3d4233dd, 0x2a1462b3) }

  /** The linear map of five bits with these images. */
  function Lin5(w: bv32, k1: bv32, k2: bv32, k4: bv32, k8: bv32, k16: bv32): bv32 {
    Xor(Xor(Xor(Xor(Part(w, 1, k1), Part(w, 2, k2)), Part(w, 4, k4)), Part(w, 8, k8)), Part(w, 16, k16))
  }

  /** The other coefficients, moved up, and the next symbol. */
  function Shifted(c: bv32, v: Symbol): bv32 { ((c & 0x1ffffff) << 5) ^ (v as bv32) }

  function Leading(c: bv32): bv32 { c >> 25 }

  /** The remainder after one more symbol. */
  function Step(c: bv32, v: Symbol): bv32 { Xor(Shifted(c, v), Tail(Leading(c))) }

  predicate Reduced(c: bv32) { c < 0x4000_0000 }

  lemma XorAssociative(a: bv32, b: bv32, c: bv32)
    ensures Xor(Xor(a, b), c) == Xor(a, Xor(b, c))
  {
  }

  lemma XorIs(a: bv32, b: bv32)
    ensures Xor(a, b) == a ^ b
  {
  }

  lemma XorSwap(a: bv32, b: bv32, c: bv32, d: bv32)
    ensures Xor(Xor(a, b), Xor(c, d)) == Xor(Xor(a, c), Xor(b, d))
  {
    hide Xor;
    XorAssociative(a, b, Xor(c, d));
    XorAssociative(b, c, d);
    XorFacts(b, c);
    XorAssociative(c, b, d);
    XorAssociative(a, c, Xor(b, d));
  }

  lemma BitLinear(a: bv32, b: bv32, mask: bv32)
    requires mask == 1 || mask == 2 || mask == 4 || mask == 8 || mask == 16 || mask == 0x200
    ensures ((a ^ b) & mask != 0) == ((a & mask != 0) != (b & mask != 0))
  {
    if mask == 1 {} else if mask == 2 {} else if mask == 4 {} else if mask == 8 {} else if mask == 16 {} else {}
  }

  lemma PartLinear(a: bv32, b: bv32, mask: bv32, k: bv32)
    requires mask == 1 || mask == 2 || mask == 4 || mask == 8 || mask == 16 || mask == 0x200
    ensures Part(Xor(a, b), mask, k) == Xor(Part(a, mask, k), Part(b, mask, k))
  {
    hide Xor;
    BitLinear(a, b, mask);
    XorIs(a, b);
    XorFacts(k, 0);
    XorFacts(0, 0);
  }

  lemma Lin5Linear(a: bv32, b: bv32, k1: bv32, k2: bv32, k4: bv32, k8: bv32, k16: bv32)
    ensures Lin5(Xor(a, b), k1, k2, k4, k8, k16) == Xor(Lin5(a, k1, k2, k4, k8, k16), Lin5(b, k1, k2, k4, k8, k16))
  {
    hide Xor, Part;
    PartLinear(a, b, 1, k1);
    PartLinear(a, b, 2, k2);
    PartLinear(a, b, 4, k4);
    PartLinear(a, b, 8, k8);
    PartLinear(a, b, 16, k16);
    var a1, b1, a2, b2 := Part(a, 1, k1), Part(b, 1, k1), Part(a, 2, k2), Part(b, 2, k2);
    var a4, b4, a8, b8 := Part(a, 4, k4), Part(b, 4, k4), Part(a, 8, k8), Part(b, 8, k8);
    XorSwap(a1, b1, a2, b2);
    XorSwap(Xor(a1, a2), Xor(b1, b2), a4, b4);
    XorSwap(Xor(Xor(a1, a2), a4), Xor(Xor(b1, b2), b4), a8, b8);
    XorSwap(Xor(Xor(Xor(a1, a2), a4), a8), Xor(Xor(Xor(b1, b2), b4), b8), Part(a, 16, k16), Part(b, 16, k16));
  }

  lemma TailLinear(a: bv32, b: bv32)
    ensures Tail(Xor(a, b)) == Xor(Tail(a), Tail(b))
  {
    hide Xor, Lin5;
    Lin5Linear(a, b, 0x3b6a57b2, 0x26508e6d, 0x1ea119fa, 0x3d4233dd, 0x2a1462b3);
  }

  lemma ShiftedLinear(a: bv32, u: Symbol, b: bv32, v: Symbol)
    ensures Shifted(Xor(a, b), u ^ v) == Xor(Shifted(a, u), Shifted(b, v))
    ensures Leading(Xor(a, b)) == Xor(Leading(a), Leading(b))
  {
  }

  lemma StepLinear(a: bv32, u: Symbol, b: bv32, v: Symbol)
    ensures Step(Xor(a, b), u ^ v) == Xor(Step(a, u), Step(b, v))
  {
    hide Xor, Tail, Shifted, Leading;
    ShiftedLinear(a, u, b, v);
    TailLinear(Leading(a), Leading(b));
    XorSwap(Shifted(a, u), Shifted(b, v), Tail(Leading(a)), Tail(Leading(b)));
  }

  lemma StepReduced(c: bv32, v: Symbol)
    ensures Reduced(Step(c, v))
  {
  }

  /** A nonzero remainder never becomes zero by appending zeros. */
  lemma StepNonzero(c: bv32)
    requires Reduced(c) && c != 0
    ensures Step(c, 0) != 0
  {
  }

  lemma XorFacts(a: bv32, b: bv32)
    ensures Xor(a, 0) == a && Xor(a, a) == 0 && (Xor(a, b) == 0 <==> a == b) && Xor(a, b) == Xor(b, a)
    ensures Xor(Xor(a, b), b) == a
  {
  }

  // ---------------------------------------------------------------------------------------------
  // Runs of symbols
  // ---------------------------------------------------------------------------------------------

  /** The remainder after a list of symbols. */
  function Run(c: bv32, v: seq<Symbol>): bv32
    decreases |v|
  {
    if v == [] then c else Step(Run(c, v[..|v| - 1]), v[|v| - 1])
  }

  lemma {:induction false} RunCat(c: bv32, v: seq<Symbol>, w: seq<Symbol>)
    ensures Run(c, v + w) == Run(Run(c, v), w)
    decreases |w|
  {
    if w == [] {
      assert v + w == v;
    } else {
      assert (v + w)[..|v + w| - 1] == v + w[..|w| - 1];
      RunCat(c, v, w[..|w| - 1]);
    }
  }

  function Zeros(n: nat): seq<Symbol> { seq(n, _ => 0) }

  function XorAll(v: seq<Symbol>, w: seq<Symbol>): seq<Symbol>
    requires |v| == |w|
  {
    seq(|v|, i requires 0 <= i < |v| => v[i] ^ w[i])
  }

  /** Runs are linear. */
  lemma {:induction false} RunLinear(a: bv32, v: seq<Symbol>, b: bv32, w: seq<Symbol>)
    requires |v| == |w|
    ensures Run(Xor(a, b), XorAll(v, w)) == Xor(Run(a, v), Run(b, w))
    decreases |v|
  {
    hide Xor, Step;
    if v != [] {
      var n := |v| - 1;
      RunLinear(a, v[..n], b, w[..n]);
      assert XorAll(v, w)[..n] == XorAll(v[..n], w[..n]);
      StepLinear(Run(a, v[..n]), v[n], Run(b, w[..n]), w[n]);
    }
  }

  lemma {:induction false} RunReduced(c: bv32, v: seq<Symbol>)
    requires Reduced(c)
    ensures Reduced(Run(c, v))
    decreases |v|
  {
    hide Reduced, Step;
    if v != [] { StepReduced(Run(c, v[..|v| - 1]), v[|v| - 1]); }
  }

  lemma {:induction false} RunNonzero(c: bv32, n: nat)
    requires Reduced(c) && c != 0
    ensures Run(c, Zeros(n)) != 0
    decreases n
  {
    hide Step;
    if n > 0 {
      assert Zeros(n)[..n - 1] == Zeros(n - 1);
      RunNonzero(c, n - 1);
      RunReduced(c, Zeros(n - 1));
      StepNonzero(Run(c, Zeros(n - 1)));
    }
  }

  /** Two runs of the same symbols end alike only if they start alike. */
  lemma RunInjective(a: bv32, b: bv32, v: seq<Symbol>)
    requires Reduced(a) && Reduced(b) && Run(a, v) == Run(b, v)
    ensures a == b
  {
    hide Step;
    RunLinear(a, v, b, v);
    SymbolsCancel(v);
    XorFacts(Run(a, v), Run(b, v));
    XorFacts(a, b);
    XorReduced(a, b);
    hide Xor;
    if a != b { RunNonzero(Xor(a, b), |v|); }
  }

  lemma SymbolsCancel(v: seq<Symbol>)
    ensures XorAll(v, v) == Zeros(|v|)
  {
  }

  lemma XorReduced(a: bv32, b: bv32)
    requires Reduced(a) && Reduced(b)
    ensures Reduced(Xor(a, b))
  {
  }

  // ---------------------------------------------------------------------------------------------
  // Checksums
  // ---------------------------------------------------------------------------------------------

  function Low(c: bv32): Symbol { (c & 31) as bv5 }
  function Pop(c: bv32): bv32 { c >> 5 }
  function Push(c: bv32, v: Symbol): bv32 { (c << 5) ^ (v as bv32) }

  /** Shifting right, one bit after the other. */
  function Half(c: bv32): bv32 { c >> 1 }
  function Shr(c: bv32, k: nat): bv32 { if k == 0 then c else Half(Shr(c, k - 1)) }

  /** Room for one more symbol. */
  predicate Small(c: bv32) { c < 0x200_0000 }

  /** The six five-bit groups of a remainder, the highest first. */
  function Groups(mod: bv32): seq<Symbol> {
    [Low(Shr(mod, 25)), Low(Shr(mod, 20)), Low(Shr(mod, 15)), Low(Shr(mod, 10)), Low(Shr(mod, 5)), Low(Shr(mod, 0))]
  }

  lemma ShrFive(c: bv32)
    ensures Shr(c, 5) == Pop(c)
  {
    hide Half, Pop;
    assert Shr(c, 1) == Half(c);
    assert Shr(c, 2) == Half(Half(c));
    assert Shr(c, 3) == Half(Half(Half(c)));
    assert Shr(c, 4) == Half(Half(Half(Half(c))));
    Halves(c);
  }

  lemma Halves(c: bv32)
    ensures Half(Half(Half(Half(Half(c))))) == Pop(c)
  {
  }

  lemma {:induction false} ShrAdd(c: bv32, a: nat, b: nat)
    ensures Shr(Shr(c, a), b) == Shr(c, a + b)
    decreases b
  {
    hide Half;
    if b > 0 { ShrAdd(c, a, b - 1); }
  }

  lemma PopShr(c: bv32, a: nat)
    ensures Pop(Shr(c, a)) == Shr(c, a + 5)
  {
    hide Shr, Pop;
    ShrFive(Shr(c, a));
    ShrAdd(c, a, 5);
  }

  lemma PopPush(c: bv32, v: Symbol)
    requires Small(c)
    ensures Pop(Push(c, v)) == c && Low(Push(c, v)) == v
  {
  }

  lemma PushPop(c: bv32)
    ensures Push(Pop(c), Low(c)) == c
  {
  }

  /** Until six symbols are in, nothing is reduced. */
  lemma StepSmall(c: bv32, v: Symbol)
    requires Small(c)
    ensures Step(c, v) == Push(c, v)
  {
  }

  /** A remainder of at most n symbols. */
  predicate Fits(c: bv32, n: nat) {
    if n == 0 then c == 0 else if n == 1 then c < 0x20 else if n == 2 then c < 0x400 else if n == 3 then c < 0x8000
    else if n == 4 then c < 0x10_0000 else if n == 5 then Small(c) else Reduced(c)
  }

  lemma PushFits(c: bv32, v: Symbol, n: nat)
    requires n < 6 && Fits(c, n)
    ensures Small(c) && Fits(Push(c, v), n + 1)
  {
    if n == 0 {} else if n == 1 {} else if n == 2 {} else if n == 3 {} else if n == 4 {} else {}
  }

  lemma PopFits(c: bv32, n: nat)
    requires 0 < n <= 6 && Fits(c, n)
    ensures Fits(Pop(c), n - 1)
  {
    if n == 1 {} else if n == 2 {} else if n == 3 {} else if n == 4 {} else if n == 5 {} else {}
  }

  /** The symbols of a short remainder, the highest first. */
  function Unpack(c: bv32, n: nat): seq<Symbol> { if n == 0 then [] else Unpack(Pop(c), n - 1) + [Low(c)] }

  lemma GroupsUnpack(mod: bv32)
    ensures Groups(mod) == Unpack(mod, 6)
  {
    hide Unpack, Low, Pop, Shr;
    PopShr(mod, 0);
    PopShr(mod, 5);
    PopShr(mod, 10);
    PopShr(mod, 15);
    PopShr(mod, 20);
    ShrNone(mod);
    UnpackAll(mod, Shr(mod, 5), Shr(mod, 10), Shr(mod, 15), Shr(mod, 20), Shr(mod, 25));
  }

  lemma ShrNone(c: bv32)
    ensures Shr(c, 0) == c
  {
  }

  lemma UnpackAll(mod: bv32, a: bv32, b: bv32, c: bv32, d: bv32, e: bv32)
    requires a == Pop(mod) && b == Pop(a) && c == Pop(b) && d == Pop(c) && e == Pop(d)
    ensures Unpack(mod, 6) == [Low(e), Low(d), Low(c), Low(b), Low(a), Low(mod)]
  {
    hide Pop, Low, Unpack;
    UnpackNone(Pop(e));
    UnpackOne(mod, 6);
    UnpackOne(a, 5);
    UnpackOne(b, 4);
    UnpackOne(c, 3);
    UnpackOne(d, 2);
    UnpackOne(e, 1);
  }

  lemma UnpackNone(c: bv32)
    ensures Unpack(c, 0) == []
  {
  }

  lemma UnpackOne(c: bv32, n: nat)
    requires n > 0
    ensures Unpack(c, n) == Unpack(Pop(c), n - 1) + [Low(c)]
  {
  }

  /** Up to six symbols run from zero are just packed. */
  lemma {:induction false} RunUnpack(r: seq<Symbol>)
    requires |r| <= 6
    ensures Fits(Run(0, r), |r|) && Unpack(Run(0, r), |r|) == r
    decreases |r|
  {
    hide Step, Push, Pop, Low, Fits, Small;
    if r == [] {
      ZeroFits();
    } else {
      var n := |r| - 1;
      RunUnpack(r[..n]);
      var c := Run(0, r[..n]);
      PushFits(c, r[n], n);
      StepSmall(c, r[n]);
      PopPush(c, r[n]);
    }
  }

  lemma ZeroFits()
    ensures Fits(0, 0)
  {
  }

  lemma {:induction false} UnpackRun(c: bv32, n: nat)
    requires n <= 6 && Fits(c, n)
    ensures |Unpack(c, n)| == n && Run(0, Unpack(c, n)) == c
    decreases n
  {
    hide Step, Push, Pop, Low, Fits, Small;
    if n == 0 {
      OnlyZeroFits(c);
    } else {
      PopFits(c, n);
      UnpackRun(Pop(c), n - 1);
      PushPop(c);
      FitsSmall(Pop(c), n - 1);
      StepSmall(Pop(c), Low(c));
      RunSnoc(0, Unpack(Pop(c), n - 1), Low(c));
    }
  }

  lemma OnlyZeroFits(c: bv32)
    requires Fits(c, 0)
    ensures c == 0
  {
  }

  lemma FitsSmall(c: bv32, n: nat)
    requires n < 6 && Fits(c, n)
    ensures Small(c)
  {
    PushFits(c, 0, n);
  }

  lemma RunSnoc(c: bv32, v: seq<Symbol>, x: Symbol)
    ensures Run(c, v + [x]) == Step(Run(c, v), x)
  {
    assert (v + [x])[..|v|] == v;
  }

  /** What CreateChecksum appends to the symbols. */
  function Checksum(enc: seq<Symbol>): seq<Symbol> { Groups(Xor(Run(1, enc + Zeros(6)), 1)) }

  /** There is exactly one checksum that verifies, and it is the one that is created. */
  lemma ChecksumUnique(enc: seq<Symbol>, r: seq<Symbol>)
    requires |r| == 6
    ensures Run(1, enc + r) == 1 <==> r == Checksum(enc)
  {
    hide Step, Xor, Groups, Fits, Unpack, Reduced;
    var c := Run(1, enc);
    RunCat(1, enc, r);
    RunCat(1, enc, Zeros(6));
    RunLinear(c, Zeros(6), 0, r);
    ZerosNeutral(r);
    XorFacts(c, 0);
    var x, y := Run(c, Zeros(6)), Run(0, r);
    OneApart(x, y);
    OneIsReduced();
    RunReduced(1, enc + Zeros(6));
    OneReduced(x);
    GroupsUnpack(Xor(x, 1));
    RunUnpack(r);
    UnpackRun(Xor(x, 1), 6);
  }

  lemma OneIsReduced()
    ensures Reduced(1)
  {
  }

  lemma ZerosNeutral(r: seq<Symbol>)
    ensures XorAll(Zeros(|r|), r) == r
  {
    forall i | 0 <= i < |r| ensures XorAll(Zeros(|r|), r)[i] == r[i] { ZeroSymbol(r[i]); }
  }

  lemma ZeroSymbol(x: Symbol)
    ensures 0 ^ x == x
  {
  }

  lemma OneApart(x: bv32, y: bv32)
    ensures Xor(x, y) == 1 <==> y == Xor(x, 1)
  {
    hide Xor;
    XorCancel(x, y);
    XorCancel(x, 1);
  }

  lemma XorCancel(x: bv32, y: bv32)
    ensures Xor(x, Xor(x, y)) == y
  {
    hide Xor;
    XorAssociative(x, x, y);
    XorFacts(x, x);
    XorFacts(y, 0);
  }

  lemma OneReduced(x: bv32)
    requires Reduced(x)
    ensures Fits(Xor(x, 1), 6)
  {
  }

  /** Changing exactly one symbol changes the remainder. */
  lemma OneSymbolDetected(before: seq<Symbol>, x: Symbol, y: Symbol, after: seq<Symbol>)
    requires x != y
    ensures Run(1, before + [x] + after) != Run(1, before + [y] + after)
  {
    hide Step, Reduced;
    var c := Run(1, before);
    RunCat(1, before + [x], after);
    RunCat(1, before + [y], after);
    RunSnoc(1, before, x);
    RunSnoc(1, before, y);
    StepReduced(c, x);
    StepReduced(c, y);
    StepDistinct(c, x, y);
    if Run(Step(c, x), after) == Run(Step(c, y), after) { RunInjective(Step(c, x), Step(c, y), after); }
  }

  lemma StepDistinct(c: bv32, x: Symbol, y: Symbol)
    requires x != y
    ensures Step(c, x) != Step(c, y)
  {
    hide Tail;
  }

  // ---------------------------------------------------------------------------------------------
  // Characters
  // ---------------------------------------------------------------------------------------------

  const CHARSET: string := "qpzry9x8gf2tvdw0s3jn54khce6mua7l"

  /** CHARSET_REV, from '0', '@', 'P', '`' and 'p' on; there are no symbols among the other characters. */
  const DIGITS: seq<int> := [15, -1, 10, 17, 21, 20, 26, 30, 7, 5, -1, -1, -1, -1, -1, -1]
  const LETTERS1: seq<int> := [-1, 29, -1, 24, 13, 25, 9, 8, 23, -1, 18, 22, 31, 27, 19, -1]
  const LETTERS2: seq<int> := [1, 0, 3, 16, 11, 28, 12, 14, 6, 4, 2, -1, -1, -1, -1, -1]

  function Reverse(c: char): int {
    var i := c as int;
    if 48 <= i < 64 then DIGITS[i - 48]
    else if 64 <= i < 80 then LETTERS1[i - 64]
    else if 80 <= i < 96 then LETTERS2[i - 80]
    else if 96 <= i < 112 then LETTERS1[i - 96]
    else if 112 <= i < 128 then LETTERS2[i - 112]
    else -1
  }

  function LowerCase(c: char): char {
    if 'A' <= c <= 'Z' then (c as int - 'A' as int + 'a' as int) as char else c
  }

  lemma ReverseRange(c: char)
    ensures -1 <= Reverse(c) < 32
  {
  }

  ghost predicate Inverse(k: nat)
    requires k < 32
  {
    var c := CHARSET[k];
    Reverse(c) == k && !('A' <= c <= 'Z') && c != '1' && 33 <= c as int <= 126
  }

  lemma ReverseSymbol(k: nat)
    requires k < 32
    ensures Inverse(k)
  {
    hide Inverse;
    if k < 8 { ReverseSymbol0(k); } else if k < 16 { ReverseSymbol8(k); } else if k < 24 { ReverseSymbol16(k); }
    else { ReverseSymbol24(k); }
  }

  lemma ReverseSymbol0(k: nat)
    requires k < 8
    ensures Inverse(k)
  {
  }

  lemma ReverseSymbol8(k: nat)
    requires 8 <= k < 16
    ensures Inverse(k)
  {
  }

  lemma ReverseSymbol16(k: nat)
    requires 16 <= k < 24
    ensures Inverse(k)
  {
  }

  lemma ReverseSymbol24(k: nat)
    requires 24 <= k < 32
    ensures Inverse(k)
  {
  }

  lemma DigitRow(i: nat)
    requires i < 16 && DIGITS[i] >= 0
    ensures DIGITS[i] < 32 && CHARSET[DIGITS[i]] == (48 + i) as char && i != 1
  {
  }

  lemma LetterRow1(i: nat)
    requires i < 16 && LETTERS1[i] >= 0
    ensures LETTERS1[i] < 32 && CHARSET[LETTERS1[i]] == (96 + i) as char && 0 < i
  {
  }

  lemma LetterRow2(i: nat)
    requires i < 16 && LETTERS2[i] >= 0
    ensures LETTERS2[i] < 32 && CHARSET[LETTERS2[i]] == (112 + i) as char && i <= 10
  {
  }

  lemma SymbolReverse(c: char)
    requires Reverse(c) >= 0
    ensures Reverse(c) < 32 && CHARSET[Reverse(c)] == LowerCase(c) && c != '1'
  {
    hide CHARSET, DIGITS, LETTERS1, LETTERS2;
    var i := c as int;
    if i < 64 {
      DigitRow(i - 48);
    } else if i < 80 {
      LetterRow1(i - 64);
    } else if i < 96 {
      LetterRow2(i - 80);
    } else if i < 112 {
      LetterRow1(i - 96);
    } else {
      LetterRow2(i - 112);
    }
  }

  lemma SymbolNumber(v: Symbol)
    ensures (v as int) as bv5 == v && 0 <= v as int < 32
  {
  }

  lemma NumberSymbol(k: nat)
    requires k < 32
    ensures (k as bv5) as int == k
  {
  }

  function CharOf(v: Symbol): char { CHARSET[v as int] }

  function SymbolOf(c: char): Symbol
    requires Reverse(c) >= 0
  {
    ReverseRange(c);
    Reverse(c) as bv5
  }

  lemma CharOfSymbol(v: Symbol)
    ensures var c := CharOf(v);
      Reverse(c) >= 0 && SymbolOf(c) == v && !('A' <= c <= 'Z') && c != '1' && 33 <= c as int <= 126
  {
    hide CHARSET, Reverse;
    SymbolNumber(v);
    ReverseSymbol(v as int);
  }

  lemma SymbolOfChar(c: char)
    requires Reverse(c) >= 0
    ensures CharOf(SymbolOf(c)) == LowerCase(c) && c != '1'
  {
    hide CHARSET, Reverse;
    SymbolReverse(c);
    NumberSymbol(Reverse(c));
  }

  // ---------------------------------------------------------------------------------------------
  // Strings
  // ---------------------------------------------------------------------------------------------

  predicate IsLower(c: char) { 'a' <= c <= 'z' }
  predicate IsUpper(c: char) { 'A' <= c <= 'Z' }
  predicate Printable(c: char) { 33 <= c as int <= 126 }

  /** Printable characters, not both lower and upper case. */
  ghost predicate Acceptable(str: string) {
    && (forall i | 0 <= i < |str| :: Printable(str[i]))
    && !((exists i | 0 <= i < |str| :: IsLower(str[i])) && (exists i | 0 <= i < |str| :: IsUpper(str[i])))
  }

  /** The place of the last separator, or -1. */
  function LastOne(str: string): (pos: int)
    ensures -1 <= pos < |str|
  {
    if str == [] then -1 else if str[|str| - 1] == '1' then |str| - 1 else LastOne(str[..|str| - 1])
  }

  function Lower(s: string): string { seq(|s|, i requires 0 <= i < |s| => LowerCase(s[i])) }

  predicate AllSymbols(s: string) { forall i | 0 <= i < |s| :: Reverse(s[i]) >= 0 }

  function Symbols(s: string): seq<Symbol>
    requires AllSymbols(s)
  {
    seq(|s|, i requires 0 <= i < |s| => SymbolOf(s[i]))
  }

  function Chars(v: seq<Symbol>): string { seq(|v|, i requires 0 <= i < |v| => CharOf(v[i])) }

  /** ExpandHRP: the high bits of the characters, a zero, and the low bits. */
  function Expand(hrp: string): seq<Symbol> {
    seq(|hrp|, i requires 0 <= i < |hrp| => High(hrp[i])) + [0] + seq(|hrp|, i requires 0 <= i < |hrp| => Lower5(hrp[i]))
  }

  function High(c: char): Symbol { (c as int / 32 % 32) as bv5 }
  function Lower5(c: char): Symbol { (c as int % 32) as bv5 }

  lemma ExpandAt(hrp: string)
    ensures |Expand(hrp)| == 2 * |hrp| + 1 && Expand(hrp)[|hrp|] == 0
    ensures forall i | 0 <= i < |hrp| :: Expand(hrp)[i] == High(hrp[i]) && Expand(hrp)[i + |hrp| + 1] == Lower5(hrp[i])
  {
  }

  datatype Decoded = Invalid | Valid(hrp: string, values: seq<Symbol>)

  function Encoded(hrp: string, values: seq<Symbol>): string {
    hrp + ['1'] + Chars(values + Checksum(Expand(hrp) + values))
  }

  ghost function DecodedString(str: string): Decoded {
    var pos := LastOne(str);
    if !Acceptable(str) || |str| > 90 || pos <= 0 || pos + 7 > |str| || !AllSymbols(str[pos + 1..]) then Invalid
    else
      var hrp, values := Lower(str[..pos]), Symbols(str[pos + 1..]);
      if Run(1, Expand(hrp) + values) != 1 then Invalid else Valid(hrp, values[..|values| - 6])
  }

  lemma SymbolsOfChars(v: seq<Symbol>)
    ensures AllSymbols(Chars(v)) && Symbols(Chars(v)) == v && LastOne(Chars(v)) == -1
    ensures forall i | 0 <= i < |v| :: Printable(Chars(v)[i]) && !IsUpper(Chars(v)[i])
  {
    hide CharOf, Reverse, SymbolOf;
    forall i | 0 <= i < |v|
      ensures Reverse(Chars(v)[i]) >= 0 && SymbolOf(Chars(v)[i]) == v[i] && Chars(v)[i] != '1'
      ensures Printable(Chars(v)[i]) && !IsUpper(Chars(v)[i])
    {
      CharOfSymbol(v[i]);
    }
    NoOne(Chars(v));
  }

  lemma {:induction false} NoOne(s: string)
    requires forall i | 0 <= i < |s| :: s[i] != '1'
    ensures LastOne(s) == -1
  {
    if s != [] { NoOne(s[..|s| - 1]); }
  }

  lemma {:induction false} LastOneCat(a: string, s: string)
    requires LastOne(s) == -1
    ensures LastOne(a + ['1'] + s) == |a|
    decreases |s|
  {
    var t := a + ['1'] + s;
    if s != [] {
      assert t[..|t| - 1] == a + ['1'] + s[..|s| - 1];
      LastOneCat(a, s[..|s| - 1]);
    } else {
      assert t == a + ['1'];
    }
  }

  lemma {:induction false} LastOneAt(s: string)
    requires LastOne(s) >= 0
    ensures s[LastOne(s)] == '1' && LastOne(s[LastOne(s) + 1..]) == -1
  {
    var n := |s| - 1;
    if s[n] == '1' {
      assert s[n + 1..] == [];
    } else {
      var pos := LastOne(s);
      LastOneAt(s[..n]);
      assert s[pos + 1..][..n - pos - 1] == s[..n][pos + 1..];
    }
  }

  /** A human-readable part that can be encoded. */
  ghost predicate Legal(hrp: string) {
    hrp != [] && forall i | 0 <= i < |hrp| :: Printable(hrp[i]) && !IsUpper(hrp[i])
  }

  lemma LowerLegal(hrp: string)
    requires Legal(hrp)
    ensures Lower(hrp) == hrp
  {
  }

  /** Decoding inverts encoding, up to the length limit. */
  lemma DecodeEncoded(hrp: string, values: seq<Symbol>)
    requires Legal(hrp)
    ensures DecodedString(Encoded(hrp, values))
         == if |hrp| + 1 + |values| + 6 <= 90 then Valid(hrp, values) else Invalid
  {
    hide Run, Checksum, Expand, Symbols, Chars, AllSymbols, LastOne, Printable, IsUpper;
    var check := Checksum(Expand(hrp) + values);
    var data := values + check;
    var s, str := Chars(data), Encoded(hrp, values);
    SixSymbols(Expand(hrp) + values);
    CharsLength(data);
    SymbolsOfChars(data);
    LastOneCat(hrp, s);
    OnePrintable();
    assert str[..|hrp|] == hrp && str[|hrp| + 1..] == s;
    LowerLegal(hrp);
    ChecksumUnique(Expand(hrp) + values, check);
    assert Expand(hrp) + values + check == Expand(hrp) + data;
    assert data[..|data| - 6] == values;
    AcceptableParts(hrp, s);
  }

  lemma SixSymbols(enc: seq<Symbol>)
    ensures |Checksum(enc)| == 6
  {
  }

  lemma CharsLength(v: seq<Symbol>)
    ensures |Chars(v)| == |v|
  {
  }

  lemma OnePrintable()
    ensures Printable('1') && !IsUpper('1')
  {
  }

  lemma AcceptableParts(hrp: string, s: string)
    requires Legal(hrp) && forall i | 0 <= i < |s| :: Printable(s[i]) && !IsUpper(s[i])
    ensures Acceptable(hrp + ['1'] + s)
  {
    OnePrintable();
  }

  /** Encoding a decoded string gives its lower-case form. */
  lemma EncodeDecoded(str: string)
    requires DecodedString(str).Valid?
    ensures var d := DecodedString(str); Encoded(d.hrp, d.values) == Lower(str)
  {
    hide Run, Checksum, Expand, Symbols, Chars, AllSymbols, Acceptable;
    var pos := LastOne(str);
    var hrp, data := Lower(str[..pos]), str[pos + 1..];
    LastOneAt(str);
    SymbolsLength(data);
    var v := Symbols(data);
    var values, r := v[..|v| - 6], v[|v| - 6..];
    assert v == values + r;
    assert Expand(hrp) + v == Expand(hrp) + values + r;
    ChecksumUnique(Expand(hrp) + values, r);
    CharsOfSymbols(data);
    LowerParts(str, pos);
  }

  lemma SymbolsLength(s: string)
    requires AllSymbols(s)
    ensures |Symbols(s)| == |s|
  {
  }

  lemma CharsOfSymbols(s: string)
    requires AllSymbols(s)
    ensures Chars(Symbols(s)) == Lower(s)
  {
    hide CharOf, SymbolOf, Reverse;
    forall i | 0 <= i < |s| ensures CharOf(SymbolOf(s[i])) == LowerCase(s[i]) { SymbolOfChar(s[i]); }
  }

  lemma LowerParts(str: string, pos: nat)
    requires pos < |str| && str[pos] == '1'
    ensures Lower(str) == Lower(str[..pos]) + ['1'] + Lower(str[pos + 1..])
  {
  }

  /** Replacing one data character by one for another symbol makes the string invalid. */
  lemma OneErrorDetected(str: string, i: nat, c: char)
    requires DecodedString(str).Valid? && LastOne(str) < i < |str| && c != '1' && Reverse(c) != Reverse(str[i])
    ensures DecodedString(str[i := c]) == Invalid
  {
    hide Run, Checksum, Expand, Symbols, AllSymbols, Acceptable, Reverse, SymbolOf;
    var pos, t := LastOne(str), str[i := c];
    LastOneAt(str);
    LastOneKept(str, i, c);
    assert t[..pos] == str[..pos];
    var enc, s, s', k := Expand(Lower(str[..pos])), str[pos + 1..], t[pos + 1..], i - pos - 1;
    assert s' == s[k := c];
    if AllSymbols(s') {
      SymbolsChange(s, k, c);
      var v := Symbols(s);
      var x, y := SymbolOf(s[k]), SymbolOf(c);
      SymbolsDiffer(s[k], c);
      OneSymbolDetected(enc + v[..k], x, y, v[k + 1..]);
      assert enc + v == enc + v[..k] + [x] + v[k + 1..];
      assert enc + Symbols(s') == enc + v[..k] + [y] + v[k + 1..];
    }
  }

  lemma SymbolsChange(s: string, k: nat, c: char)
    requires AllSymbols(s) && k < |s| && AllSymbols(s[k := c])
    ensures Reverse(s[k]) >= 0 && Reverse(c) >= 0
    ensures |Symbols(s)| == |s| && Symbols(s)[k] == SymbolOf(s[k]) && Symbols(s[k := c]) == Symbols(s)[k := SymbolOf(c)]
  {
    assert s[k := c][k] == c;
  }

  lemma SymbolsDiffer(a: char, b: char)
    requires Reverse(a) >= 0 && Reverse(b) >= 0 && Reverse(a) != Reverse(b)
    ensures SymbolOf(a) != SymbolOf(b)
  {
    hide Reverse;
    ReverseRange(a);
    ReverseRange(b);
    NumberSymbol(Reverse(a));
    NumberSymbol(Reverse(b));
  }

  lemma {:induction false} LastOneKept(str: string, i: nat, c: char)
    requires LastOne(str) < i < |str| && c != '1'
    ensures LastOne(str[i := c]) == LastOne(str)
    decreases |str|
  {
    var n := |str| - 1;
    if i == n {
      assert str[i := c][..n] == str[..n];
    } else {
      assert str[i := c][..n] == str[..n][i := c];
      LastOneKept(str[..n], i, c);
    }
  }

  // ---------------------------------------------------------------------------------------------
  // The operations
  // ---------------------------------------------------------------------------------------------

  method PolyMod(v: seq<Symbol>) returns (c: bv32)
    ensures c == Run(1, v)
  {
    hide Step;
    c := 1;
    for i := 0 to |v|
      invariant c == Run(1, v[..i])
    {
      RunSnoc(1, v[..i], v[i]);
      assert v[..i] + [v[i]] == v[..i + 1];
      c := PolyStep(c, v[i]);
    }
    assert v[..|v|] == v;
  }

  /** One turn of PolyMod's loop: each multiple of the remainder is added if its bit is set. */
  method PolyStep(c: bv32, v: Symbol) returns (c': bv32)
    ensures c' == Step(c, v)
  {
    hide Step, Xor, Part, Leading, Shifted;
    TailFolds(Shifted(c, v), Leading(c));
    StepIs(c, v);
    var c0 := Leading(c);
    c' := Shifted(c, v);
    c' := Xor(c', Part(c0, 1, 0x3b6a57b2));
    c' := Xor(c', Part(c0, 2, 0x26508e6d));
    c' := Xor(c', Part(c0, 4, 0x1ea119fa));
    c' := Xor(c', Part(c0, 8, 0x3d4233dd));
    c' := Xor(c', Part(c0, 16, 0x2a1462b3));
  }

  lemma StepIs(c: bv32, v: Symbol)
    ensures Step(c, v) == Xor(Shifted(c, v), Tail(Leading(c)))
  {
  }

  function Folded(c: bv32, c0: bv32): bv32 {
    Xor(Xor(Xor(Xor(Xor(c, Part(c0, 1, 0x3b6a57b2)), Part(c0, 2, 0x26508e6d)), Part(c0, 4, 0x1ea119fa)),
            Part(c0, 8, 0x3d4233dd)), Part(c0, 16, 0x2a1462b3))
  }

  lemma TailFolds(c: bv32, c0: bv32)
    ensures Xor(c, Tail(c0)) == Folded(c, c0)
  {
    hide Xor, Part;
    var p1, p2, p4, p8 := Part(c0, 1, 0x3b6a57b2), Part(c0, 2, 0x26508e6d), Part(c0, 4, 0x1ea119fa), Part(c0, 8, 0x3d4233dd);
    XorAssociative(c, p1, p2);
    XorAssociative(c, Xor(p1, p2), p4);
    XorAssociative(c, Xor(Xor(p1, p2), p4), p8);
    XorAssociative(c, Xor(Xor(Xor(p1, p2), p4), p8), Part(c0, 16, 0x2a1462b3));
  }

  /** The bits of a character above and below the fifth. */
  method ExpandHRP(hrp: string) returns (ret: seq<Symbol>)
    ensures |ret| == 2 * |hrp| + 1 && ret[|hrp|] == 0
    ensures forall i | 0 <= i < |hrp| :: ret[i] == (hrp[i] as int / 32 % 32) as bv5
    ensures forall i | 0 <= i < |hrp| :: ret[|hrp| + 1 + i] == (hrp[i] as int % 32) as bv5
    ensures ret == Expand(hrp)
  {
    hide Expand, High, Lower5;
    var n := |hrp|;
    var buffer := new Symbol[2 * n + 1](_ => 0);
    for i := 0 to n
      invariant forall j | 0 <= j < i :: buffer[j] == High(hrp[j])
      invariant forall j | 0 <= j < i :: buffer[n + 1 + j] == Lower5(hrp[j])
      invariant buffer[n] == 0
    {
      buffer[i] := High(hrp[i]);
      buffer[n + 1 + i] := Lower5(hrp[i]);
    }
    ret := buffer[..];
    ExpandedAt(hrp, ret);
    forall i | 0 <= i < n { BitsOf(hrp[i]); }
  }

  lemma BitsOf(c: char)
    ensures High(c) == (c as int / 32 % 32) as bv5 && Lower5(c) == (c as int % 32) as bv5
  {
  }

  lemma ExpandedAt(hrp: string, ret: seq<Symbol>)
    requires |ret| == 2 * |hrp| + 1 && ret[|hrp|] == 0
    requires forall j | 0 <= j < |hrp| :: ret[j] == High(hrp[j]) && ret[|hrp| + 1 + j] == Lower5(hrp[j])
    ensures ret == Expand(hrp)
  {
    hide High, Lower5;
    var n, e := |hrp|, Expand(hrp);
    forall k | 0 <= k < |ret| ensures ret[k] == e[k] {
      if k > n { assert ret[n + 1 + (k - n - 1)] == ret[k]; }
    }
  }

  method VerifyChecksum(hrp: string, values: seq<Symbol>) returns (ok: bool)
    ensures ok <==> Run(1, Expand(hrp) + values) == 1
  {
    hide Run, Expand;
    var enc := ExpandHRP(hrp);
    var mod := PolyMod(enc + values);
    return mod == 1;
  }

  method CreateChecksum(hrp: string, values: seq<Symbol>) returns (ret: seq<Symbol>)
    ensures ret == Checksum(Expand(hrp) + values)
  {
    hide Run, Expand, Low, Shr, Xor;
    var enc := ExpandHRP(hrp);
    var mod := PolyMod(enc + values + Zeros(6));
    mod := Xor(mod, 1);
    ret := [];
    for i := 0 to 6
      invariant ret == Groups(mod)[..i]
    {
      ret := ret + [Low(Shr(mod, 5 * (5 - i)))];
      GroupAt(mod, i);
    }
  }

  lemma GroupAt(mod: bv32, i: nat)
    requires i < 6
    ensures Groups(mod)[i] == Low(Shr(mod, 5 * (5 - i)))
  {
    hide Low, Shr;
  }

  method Encode(hrp: string, values: seq<Symbol>) returns (ret: string)
    ensures ret == Encoded(hrp, values)
  {
    hide CharOf, Checksum, Expand;
    var checksum := CreateChecksum(hrp, values);
    var combined := values + checksum;
    ret := hrp + ['1'];
    for i := 0 to |combined|
      invariant ret == hrp + ['1'] + Chars(combined[..i])
    {
      ret := ret + [CharOf(combined[i])];
      assert Chars(combined[..i + 1]) == Chars(combined[..i]) + [CharOf(combined[i])];
    }
    assert combined[..|combined|] == combined;
  }

  method Decode(str: string) returns (d: Decoded)
    ensures d == DecodedString(str)
  {
    hide Run, Expand, Symbols, AllSymbols, Acceptable, LastOne;
    var acceptable := CheckCharacters(str);
    if !acceptable {
      return Invalid;
    }
    var pos := FindLastOne(str);
    if |str| > 90 || pos < 0 || pos == 0 || pos + 7 > |str| {
      return Invalid;
    }
    var ok, values := ReadSymbols(str[pos + 1..]);
    if !ok {
      return Invalid;
    }
    SymbolsLength(str[pos + 1..]);
    var hrp := "";
    for i := 0 to pos
      invariant hrp == Lower(str[..i])
    {
      hrp := hrp + [LowerCase(str[i])];
    }
    var verified := VerifyChecksum(hrp, values);
    if !verified {
      return Invalid;
    }
    return Valid(hrp, values[..|values| - 6]);
  }

  method CheckCharacters(str: string) returns (ok: bool)
    ensures ok <==> Acceptable(str)
  {
    var lower, upper := false, false;
    for i := 0 to |str|
      invariant forall j | 0 <= j < i :: Printable(str[j])
      invariant lower <==> exists j | 0 <= j < i :: IsLower(str[j])
      invariant upper <==> exists j | 0 <= j < i :: IsUpper(str[j])
    {
      var c := str[i];
      if IsLower(c) {
        lower := true;
      } else if IsUpper(c) {
        upper := true;
      } else if c as int < 33 || c as int > 126 {
        return false;
      }
    }
    return !(lower && upper);
  }

  method FindLastOne(str: string) returns (pos: int)
    ensures pos == LastOne(str)
  {
    pos := |str| - 1;
    assert str[..|str|] == str;
    while pos >= 0 && str[pos] != '1'
      invariant -1 <= pos < |str| && LastOne(str[..pos + 1]) == LastOne(str)
    {
      assert str[..pos + 1][..pos] == str[..pos];
      pos := pos - 1;
    }
  }

  method ReadSymbols(s: string) returns (ok: bool, values: seq<Symbol>)
    ensures ok <==> AllSymbols(s)
    ensures ok ==> values == Symbols(s)
  {
    hide Reverse;
    values := [];
    for i := 0 to |s|
      invariant AllSymbols(s[..i]) && values == Symbols(s[..i])
    {
      var rev := Reverse(s[i]);
      ReverseRange(s[i]);
      if rev == -1 {
        return false, values;
      }
      values := values + [SymbolOf(s[i])];
      assert AllSymbols(s[..i + 1]);
      assert Symbols(s[..i + 1]) == Symbols(s[..i]) + [SymbolOf(s[i])];
    }
    assert s[..|s|] == s;
    return true, values;
  }
}
