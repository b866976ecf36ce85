/** Errors in Bech32 strings. The code of src/bech32.cpp is a BCH code: its generator has three successive powers
    of a generator of the field with 1024 elements as roots, which is why up to three wrong symbols are detected. */
module Bech32Errors {
  import opened Bech32

  // ---------------------------------------------------------------------------------------------
  // The field with 1024 elements
  // ---------------------------------------------------------------------------------------------

  predicate InField(w: bv32) { w < 0x400 }

  /** Times the generator r, a root of x^10 + x^8 + x^5 + x + 1. */
  function Next(w: bv32): bv32 { ((w & 0x1ff) << 1) ^ (if w & 0x200 != 0 then 0x123 else 0) }
  function Up(w: bv32): bv32 { (w & 0x1ff) << 1 }

  lemma NextIs(w: bv32)
    ensures Next(w) == Xor(Up(w), Part(w, 0x200, 0x123))
  {
  }

  /** Times r^n. */
  function Power(n: nat, w: bv32): bv32 { if n == 0 then w else Next(Power(n - 1, w)) }

  lemma UpLinear(a: bv32, b: bv32)
    ensures Up(Xor(a, b)) == Xor(Up(a), Up(b))
  {
  }

  lemma NextFacts(w: bv32)
    requires InField(w)
    ensures InField(Next(w)) && (Next(w) == 0 ==> w == 0)
  {
  }

  lemma NextOfZero()
    ensures Next(0) == 0
  {
  }

  lemma NextLinear(a: bv32, b: bv32)
    ensures Next(Xor(a, b)) == Xor(Next(a), Next(b))
  {
    hide Next, Xor, Up, Part;
    NextIs(a);
    NextIs(b);
    NextIs(Xor(a, b));
    UpLinear(a, b);
    PartLinear(a, b, 0x200, 0x123);
    XorSwap(Up(a), Up(b), Part(a, 0x200, 0x123), Part(b, 0x200, 0x123));
  }

  lemma {:induction false} PowerLinear(n: nat, a: bv32, b: bv32)
    ensures Power(n, Xor(a, b)) == Xor(Power(n, a), Power(n, b))
  {
    hide Next, Xor;
    if n > 0 {
      PowerLinear(n - 1, a, b);
      NextLinear(Power(n - 1, a), Power(n - 1, b));
    }
  }

  lemma {:induction false} PowerFacts(n: nat, w: bv32)
    requires InField(w)
    ensures InField(Power(n, w)) && (Power(n, w) == 0 ==> w == 0)
  {
    hide Next, InField;
    if n > 0 {
      PowerFacts(n - 1, w);
      NextFacts(Power(n - 1, w));
    }
  }

  lemma {:induction false} PowerAdd(m: nat, n: nat, w: bv32)
    ensures Power(m, Power(n, w)) == Power(m + n, w)
  {
    hide Next;
    if m > 0 { PowerAdd(m - 1, n, w); }
  }

  lemma {:induction false} PowerOfZero(n: nat)
    ensures Power(n, 0) == 0
  {
    hide Next;
    NextOfZero();
    if n > 0 { PowerOfZero(n - 1); }
  }

  ghost predicate Linear(f: bv32 -> bv32) { f(0) == 0 && forall a, b :: f(Xor(a, b)) == Xor(f(a), f(b)) }

  ghost predicate Commutes(f: bv32 -> bv32) { forall w :: f(Next(w)) == Next(f(w)) }

  lemma LinearAt(f: bv32 -> bv32, a: bv32, b: bv32)
    requires Linear(f)
    ensures f(Xor(a, b)) == Xor(f(a), f(b)) && f(0) == 0
  {
  }

  lemma CommutesAt(f: bv32 -> bv32, w: bv32)
    requires Commutes(f)
    ensures f(Next(w)) == Next(f(w))
  {
  }

  /** A linear map is given by its values on the bits. */
  lemma Lin5Map(f: bv32 -> bv32, w: bv32, k1: bv32, k2: bv32, k4: bv32, k8: bv32, k16: bv32)
    requires Linear(f)
    ensures f(Lin5(w, k1, k2, k4, k8, k16)) == Lin5(w, f(k1), f(k2), f(k4), f(k8), f(k16))
  {
    hide Xor, Linear;
    var p1, p2, p4, p8, p16 := Part(w, 1, k1), Part(w, 2, k2), Part(w, 4, k4), Part(w, 8, k8), Part(w, 16, k16);
    LinearAt(f, p1, p2);
    LinearAt(f, Xor(p1, p2), p4);
    LinearAt(f, Xor(Xor(p1, p2), p4), p8);
    LinearAt(f, Xor(Xor(Xor(p1, p2), p4), p8), p16);
  }

  /** A field element by its bits. */
  function Bits(w: bv32): bv32 { Xor(Lin5(w, 1, 2, 4, 8, 16), Lin5(Pop(w), 32, 64, 128, 256, 512)) }

  lemma LowBits(w: bv32)
    ensures Lin5(w, 1, 2, 4, 8, 16) == w & 31
  {
  }

  lemma HighBits(w: bv32)
    ensures Lin5(Pop(w), 32, 64, 128, 256, 512) == w & 0x3e0
  {
  }

  lemma BitsOf(w: bv32)
    requires InField(w)
    ensures Bits(w) == w
  {
    LowBits(w);
    HighBits(w);
    hide Lin5;
  }

  /** The bits are the first powers of r, so one value determines a map that commutes with r on them. */
  lemma SameOnBits(f: bv32 -> bv32, g: bv32 -> bv32)
    requires Commutes(f) && Commutes(g) && f(1) == g(1)
    ensures f(2) == g(2) && f(4) == g(4) && f(8) == g(8) && f(16) == g(16) && f(32) == g(32) && f(64) == g(64)
    ensures f(128) == g(128) && f(256) == g(256) && f(512) == g(512)
  {
    BitsFollow();
    hide Next, Commutes;
    CommutesAt(f, 1); CommutesAt(f, 2); CommutesAt(f, 4); CommutesAt(f, 8); CommutesAt(f, 16);
    CommutesAt(f, 32); CommutesAt(f, 64); CommutesAt(f, 128); CommutesAt(f, 256);
    CommutesAt(g, 1); CommutesAt(g, 2); CommutesAt(g, 4); CommutesAt(g, 8); CommutesAt(g, 16);
    CommutesAt(g, 32); CommutesAt(g, 64); CommutesAt(g, 128); CommutesAt(g, 256);
  }

  lemma BitsFollow()
    ensures Next(1) == 2 && Next(2) == 4 && Next(4) == 8 && Next(8) == 16 && Next(16) == 32 && Next(32) == 64
    ensures Next(64) == 128 && Next(128) == 256 && Next(256) == 512
  {
  }

  /** A linear map that commutes with r is determined by its value at one. */
  lemma Determined(f: bv32 -> bv32, g: bv32 -> bv32, w: bv32)
    requires Linear(f) && Linear(g) && Commutes(f) && Commutes(g) && InField(w) && f(1) == g(1)
    ensures f(w) == g(w)
  {
    hide Next, Xor, Lin5, Pop, Power, Linear, Commutes, InField;
    BitsOf(w);
    SameOnBits(f, g);
    LinearAt(f, Lin5(w, 1, 2, 4, 8, 16), Lin5(Pop(w), 32, 64, 128, 256, 512));
    LinearAt(g, Lin5(w, 1, 2, 4, 8, 16), Lin5(Pop(w), 32, 64, 128, 256, 512));
    Lin5Map(f, w, 1, 2, 4, 8, 16);
    Lin5Map(g, w, 1, 2, 4, 8, 16);
    Lin5Map(f, Pop(w), 32, 64, 128, 256, 512);
    Lin5Map(g, Pop(w), 32, 64, 128, 256, 512);
  }

  // ---------------------------------------------------------------------------------------------
  // Powers of the generator other than one
  // ---------------------------------------------------------------------------------------------

  /** A polynomial in r, with the bits of f as coefficients, times w. */
  function Poly(f: bv32, w: bv32): bv32 {
    Term(f, w, 1, Term(f, w, 2, Term(f, w, 4, Term(f, w, 8, Term(f, w, 16,
      Term(f, w, 32, Term(f, w, 64, Term(f, w, 128, Term(f, w, 256, Term(f, w, 512, 0))))))))))
  }

  function Term(f: bv32, w: bv32, mask: bv32, rest: bv32): bv32 { Part(f, mask, w) ^ Next(rest) }

  lemma TermIs(f: bv32, w: bv32, mask: bv32, rest: bv32)
    ensures Term(f, w, mask, rest) == Xor(Part(f, mask, w), Next(rest))
  {
    hide Next, Part;
  }

  lemma TermLinear(f: bv32, mask: bv32, a: bv32, b: bv32, r: bv32, s: bv32)
    ensures Term(f, Xor(a, b), mask, Xor(r, s)) == Xor(Term(f, a, mask, r), Term(f, b, mask, s))
  {
    hide Next, Xor, Term;
    TermIs(f, a, mask, r);
    TermIs(f, b, mask, s);
    TermIs(f, Xor(a, b), mask, Xor(r, s));
    NextLinear(r, s);
    XorFacts(0, 0);
    XorSwap(Part(f, mask, a), Part(f, mask, b), Next(r), Next(s));
  }

  lemma TermNext(f: bv32, mask: bv32, w: bv32, r: bv32)
    ensures Term(f, Next(w), mask, Next(r)) == Next(Term(f, w, mask, r))
  {
    hide Next, Xor, Term;
    TermIs(f, w, mask, r);
    TermIs(f, Next(w), mask, Next(r));
    NextOfZero();
    NextLinear(Part(f, mask, w), Next(r));
  }

  lemma PolyFacts(f: bv32, a: bv32, b: bv32)
    ensures Poly(f, Xor(a, b)) == Xor(Poly(f, a), Poly(f, b)) && Poly(f, Next(a)) == Next(Poly(f, a))
  {
    hide Term, Next, Xor;
    NextOfZero();
    XorFacts(0, 0);
    var p9, q9 := Term(f, a, 512, 0), Term(f, b, 512, 0);
    var p8, q8 := Term(f, a, 256, p9), Term(f, b, 256, q9);
    var p7, q7 := Term(f, a, 128, p8), Term(f, b, 128, q8);
    var p6, q6 := Term(f, a, 64, p7), Term(f, b, 64, q7);
    var p5, q5 := Term(f, a, 32, p6), Term(f, b, 32, q6);
    var p4, q4 := Term(f, a, 16, p5), Term(f, b, 16, q5);
    var p3, q3 := Term(f, a, 8, p4), Term(f, b, 8, q4);
    var p2, q2 := Term(f, a, 4, p3), Term(f, b, 4, q3);
    var p1, q1 := Term(f, a, 2, p2), Term(f, b, 2, q2);
    TermLinear(f, 512, a, b, 0, 0); TermLinear(f, 256, a, b, p9, q9); TermLinear(f, 128, a, b, p8, q8);
    TermLinear(f, 64, a, b, p7, q7); TermLinear(f, 32, a, b, p6, q6); TermLinear(f, 16, a, b, p5, q5);
    TermLinear(f, 8, a, b, p4, q4); TermLinear(f, 4, a, b, p3, q3); TermLinear(f, 2, a, b, p2, q2); TermLinear(f, 1, a, b, p1, q1);
    TermNext(f, 512, a, 0); TermNext(f, 256, a, p9); TermNext(f, 128, a, p8); TermNext(f, 64, a, p7); TermNext(f, 32, a, p6);
    TermNext(f, 16, a, p5); TermNext(f, 8, a, p4); TermNext(f, 4, a, p3); TermNext(f, 2, a, p2); TermNext(f, 1, a, p1);
  }

  /** r^d fixes nothing but zero. */
  ghost predicate NothingFixed(d: nat) { forall w | InField(w) && Power(d, w) == w :: w == 0 }

  function Undone(v: bv32, d: nat, w: bv32): bv32 { Poly(v, Xor(Power(d, w), w)) }

  lemma UndoneFacts(v: bv32, d: nat, a: bv32, b: bv32)
    ensures Undone(v, d, Xor(a, b)) == Xor(Undone(v, d, a), Undone(v, d, b))
    ensures Undone(v, d, Next(a)) == Next(Undone(v, d, a)) && Undone(v, d, 0) == 0 == Poly(v, 0)
  {
    hide Next, Xor, Poly, Power;
    PowerLinear(d, a, b);
    XorSwap(Power(d, a), Power(d, b), a, b);
    PolyFacts(v, Xor(Power(d, a), a), Xor(Power(d, b), b));
    PowerNext(d, a);
    NextLinear(Power(d, a), a);
    PowerOfZero(d);
    XorFacts(0, 0);
    PolyFacts(v, 0, 0);
    XorFacts(Poly(v, 0), Poly(v, 0));
  }

  lemma UndoneLinear(v: bv32, d: nat)
    ensures Linear(w => Undone(v, d, w)) && Commutes(w => Undone(v, d, w))
  {
    hide Undone, Next, Xor, Poly;
    forall a, b ensures Undone(v, d, Xor(a, b)) == Xor(Undone(v, d, a), Undone(v, d, b)) { UndoneFacts(v, d, a, b); }
    forall w ensures Undone(v, d, Next(w)) == Next(Undone(v, d, w)) { UndoneFacts(v, d, w, w); }
    UndoneFacts(v, d, 0, 0);
  }

  lemma IdentityLinear()
    ensures Linear(w => w) && Commutes(w => w)
  {
    hide Next, Xor;
  }

  /** If v is the inverse of r^d + 1, it undoes w r^d + w. */
  lemma InverseUndoes(d: nat, v: bv32)
    requires Poly(v, Xor(Power(d, 1), 1)) == 1
    ensures NothingFixed(d)
  {
    hide Next, Xor, Poly, Power, InField, Linear, Commutes;
    UndoneLinear(v, d);
    IdentityLinear();
    forall w | InField(w) && Power(d, w) == w ensures w == 0 {
      Determined(w => Undone(v, d, w), w => w, w);
      XorFacts(w, w);
      UndoneFacts(v, d, w, w);
    }
  }

  lemma PowerNext(d: nat, w: bv32)
    ensures Power(d, Next(w)) == Next(Power(d, w))
  {
    hide Next;
    PowerAdd(d, 1, w);
    assert Power(1, w) == Next(Power(0, w));
  }

  /** Inverses for x, x r^2, x r^4, x r^6 and x r^8; x r^10 is y. */
  predicate Five(x: bv32, a: bv32, b: bv32, c: bv32, d: bv32, e: bv32, y: bv32) {
    var x2 := Next(Next(x));
    var x4 := Next(Next(x2));
    var x6 := Next(Next(x4));
    var x8 := Next(Next(x6));
    && Poly(a, Xor(x, 1)) == 1 && Poly(b, Xor(x2, 1)) == 1 && Poly(c, Xor(x4, 1)) == 1
    && Poly(d, Xor(x6, 1)) == 1 && Poly(e, Xor(x8, 1)) == 1 && Next(Next(x8)) == y
  }

  lemma Inverses1()
    ensures Five(0x2c, 0x33b, 0xbe, 0x173, 0x28f, 0x2e0, 0xec)
  {
  }

  lemma Inverses2()
    ensures Five(0xec, 0x16e, 0x16d, 0x351, 0xec, 0x14e, 0x3c7)
  {
  }

  lemma Inverses3()
    ensures Five(0x3c7, 0x3ed, 0x249, 0x29a, 0x3dc, 0x320, 0x228)
  {
  }

  lemma Inverses4()
    ensures Five(0x228, 0xff, 0x2dc, 0x1a7, 0x53, 0x337, 0x3cd)
  {
  }

  lemma Inverses5()
    ensures Five(0x3cd, 0x205, 0x1fc, 0xd8, 0x2f6, 0x65, 0x330)
  {
  }

  lemma Inverses6()
    ensures Five(0x330, 0x1cb, 0x3c5, 0xdb, 0x3f1, 0x1d8, 0x24b)
  {
  }

  ghost predicate FiveOdd(n: nat) {
    NothingFixed(n) && NothingFixed(n + 2) && NothingFixed(n + 4) && NothingFixed(n + 6) && NothingFixed(n + 8)
  }

  lemma FiveFixed(x: bv32, a: bv32, b: bv32, c: bv32, d: bv32, e: bv32, y: bv32, n: nat)
    requires Five(x, a, b, c, d, e, y) && Power(n, 1) == x
    ensures FiveOdd(n) && Power(n + 10, 1) == y
  {
    hide Poly, Next, Xor, NothingFixed;
    PowerTwice(n);
    PowerTwice(n + 2);
    PowerTwice(n + 4);
    PowerTwice(n + 6);
    PowerTwice(n + 8);
    InverseUndoes(n, a);
    InverseUndoes(n + 2, b);
    InverseUndoes(n + 4, c);
    InverseUndoes(n + 6, d);
    InverseUndoes(n + 8, e);
  }

  lemma PowerTwice(n: nat)
    ensures Power(n + 2, 1) == Next(Next(Power(n, 1)))
  {
    hide Next;
    assert Power(n + 2, 1) == Next(Power(n + 1, 1));
  }

  lemma ThirtyOne()
    ensures Power(8, 1) == 0x100 && Power(16, 1) == 0x119 && Power(24, 1) == 0x3f0 && Power(31, 1) == 0x2c
  {
    assert Power(8, 1) == 0x100;
    assert Power(16, 1) == 0x119;
    assert Power(24, 1) == 0x3f0;
  }

  lemma Odd1()
    ensures FiveOdd(31) && Power(41, 1) == 0xec
  {
    hide *;
    ThirtyOne();
    Inverses1();
    FiveFixed(0x2c, 0x33b, 0xbe, 0x173, 0x28f, 0x2e0, 0xec, 31);
  }

  lemma Odd2()
    ensures FiveOdd(41) && Power(51, 1) == 0x3c7
  {
    hide *;
    Odd1();
    Inverses2();
    FiveFixed(0xec, 0x16e, 0x16d, 0x351, 0xec, 0x14e, 0x3c7, 41);
  }

  lemma Odd3()
    ensures FiveOdd(51) && Power(61, 1) == 0x228
  {
    hide *;
    Odd2();
    Inverses3();
    FiveFixed(0x3c7, 0x3ed, 0x249, 0x29a, 0x3dc, 0x320, 0x228, 51);
  }

  lemma Odd4()
    ensures FiveOdd(61) && Power(71, 1) == 0x3cd
  {
    hide *;
    Odd3();
    Inverses4();
    FiveFixed(0x228, 0xff, 0x2dc, 0x1a7, 0x53, 0x337, 0x3cd, 61);
  }

  lemma Odd5()
    ensures FiveOdd(71) && Power(81, 1) == 0x330
  {
    hide *;
    Odd4();
    Inverses5();
    FiveFixed(0x3cd, 0x205, 0x1fc, 0xd8, 0x2f6, 0x65, 0x330, 71);
  }

  lemma Odd6()
    ensures FiveOdd(81) && Power(91, 1) == 0x24b
  {
    hide *;
    Odd5();
    Inverses6();
    FiveFixed(0x330, 0x1cb, 0x3c5, 0xdb, 0x3f1, 0x1d8, 0x24b, 81);
  }

  lemma OddFixed(d: nat)
    requires 31 <= d <= 89 && d % 2 == 1
    ensures NothingFixed(d)
  {
    hide NothingFixed, Power;
    Odd1();
    Odd2();
    Odd3();
    Odd4();
    Odd5();
    Odd6();
  }

  /** Odd numbers of up to 30 have a multiple there, and even ones are reduced by taking roots. */
  lemma {:induction false} NoneFixed(d: nat)
    requires 1 <= d <= 90
    ensures NothingFixed(d)
    decreases if d % 2 == 0 then 1 else 0, if d % 2 == 0 then d else 90 - d
  {
    hide Next, Xor, InField;
    if d % 2 == 0 {
      NoneFixed(d / 2);
      forall w | InField(w) && Power(d, w) == w ensures w == 0 { RootFixed(d / 2, w); }
    } else if d < 31 {
      NoneFixed(3 * d);
      forall w | InField(w) && Power(d, w) == w ensures w == 0 {
        PowerAdd(d, d, w);
        PowerAdd(d, 2 * d, w);
      }
    } else {
      OddFixed(d);
    }
  }

  lemma RootFixed(h: nat, w: bv32)
    requires NothingFixed(h) && InField(w) && Power(2 * h, w) == w
    ensures w == 0
  {
    hide Next, Xor;
    var u := Xor(Power(h, w), w);
    PowerAdd(h, h, w);
    PowerLinear(h, Power(h, w), w);
    XorFacts(w, Power(h, w));
    PowerFacts(h, w);
    XorField(Power(h, w), w);
    XorFacts(Power(h, w), w);
  }

  lemma XorField(a: bv32, b: bv32)
    requires InField(a) && InField(b)
    ensures InField(Xor(a, b))
  {
  }

  // ---------------------------------------------------------------------------------------------
  // Remainders at the roots
  // ---------------------------------------------------------------------------------------------

  /** The field of symbols within the larger one. */
  function Embed(w: bv32): bv32 {
    (if w & 0x1 != 0 then 0x1 else 0) ^ (if w & 0x2 != 0 then 0xe else 0) ^ (if w & 0x4 != 0 then 0x54 else 0)
    ^ (if w & 0x8 != 0 then 0x358 else 0) ^ (if w & 0x10 != 0 then 0xbf else 0)
  }

  /** Times r^24. */
  function Times24(w: bv32): bv32 { Low24(w) ^ High24(w) }
  function Low24(w: bv32): bv32 {
    (if w & 0x1 != 0 then 0x3f0 else 0) ^ (if w & 0x2 != 0 then 0x2c3 else 0) ^ (if w & 0x4 != 0 then 0xa5 else 0)
    ^ (if w & 0x8 != 0 then 0x14a else 0) ^ (if w & 0x10 != 0 then 0x294 else 0)
  }
  function High24(w: bv32): bv32 {
    (if w & 0x20 != 0 then 0xb else 0) ^ (if w & 0x40 != 0 then 0x16 else 0) ^ (if w & 0x80 != 0 then 0x2c else 0)
    ^ (if w & 0x100 != 0 then 0x58 else 0) ^ (if w & 0x200 != 0 then 0xb0 else 0)
  }

  /** Times the root r^(24 + i). */
  function At(i: nat, w: bv32): bv32 { if i == 0 then Times24(w) else if i == 1 then Next(Times24(w)) else Next(Next(Times24(w))) }

  /** The polynomial of n symbols at a root. */
  function Value(i: nat, n: nat, c: bv32): bv32 { if n == 0 then 0 else Horner(i, c, Value(i, n - 1, Pop(c))) }

  function Horner(i: nat, c: bv32, rest: bv32): bv32 { Embed(c) ^ At(i, rest) }

  /** The symbols of a remainder, and those above each. */
  predicate Parts(g: bv32, g1: bv32, g2: bv32, g3: bv32, g4: bv32, g5: bv32) {
    Pop(g) == g1 && Pop(g1) == g2 && Pop(g2) == g3 && Pop(g3) == g4 && Pop(g4) == g5
  }

  /** x^6 and its remainder g agree there, times the symbol e; the steps of both evaluations are written out. */
  predicate Rooted(i: nat, g: bv32, g1: bv32, g2: bv32, g3: bv32, g4: bv32, g5: bv32, e: bv32,
                   h5: bv32, h4: bv32, h3: bv32, h2: bv32, h1: bv32, a1: bv32, a2: bv32, a3: bv32, a4: bv32, a5: bv32, a6: bv32) {
    && Horner(i, g5, 0) == h5 && Horner(i, g4, h5) == h4 && Horner(i, g3, h4) == h3
    && Horner(i, g2, h3) == h2 && Horner(i, g1, h2) == h1 && Horner(i, g, h1) == a6
    && At(i, Embed(e)) == a1 && At(i, a1) == a2 && At(i, a2) == a3 && At(i, a3) == a4 && At(i, a4) == a5 && At(i, a5) == a6
  }

  lemma Root0()
    ensures Parts(0x3b6a57b2, 0x1db52bd, 0xeda95, 0x76d4, 0x3b6, 0x1d)
    ensures Rooted(0, 0x3b6a57b2, 0x1db52bd, 0xeda95, 0x76d4, 0x3b6, 0x1d, 0x1, 0x3b2, 0x7d, 0x7d, 0x7c, 0xd4, 0x3f0, 0x24d, 0x2b9, 0xb9, 0x9, 0x2ba)
    ensures Rooted(1, 0x3b6a57b2, 0x1db52bd, 0xeda95, 0x76d4, 0x3b6, 0x1d, 0x1, 0x3b2, 0x1d5, 0x3ad, 0x69, 0x3df, 0x2c3, 0x372, 0x144, 0x1d6, 0x120, 0xa6)
    ensures Rooted(2, 0x3b6a57b2, 0x1db52bd, 0xeda95, 0x76d4, 0x3b6, 0x1d, 0x1, 0x3b2, 0x285, 0xaa, 0x137, 0x193, 0xa5, 0x2ad, 0x66, 0x3aa, 0x27d, 0x98)
  {
  }

  lemma Root1()
    ensures Parts(0x26508e6d, 0x1328473, 0x99423, 0x4ca1, 0x265, 0x13)
    ensures Rooted(0, 0x26508e6d, 0x1328473, 0x99423, 0x4ca1, 0x265, 0x13, 0x2, 0xb0, 0x2e6, 0x2e6, 0x2e8, 0x17b, 0x32c, 0x10c, 0x1b7, 0x37d, 0x7e, 0x1a5)
    ensures Rooted(1, 0x26508e6d, 0x1328473, 0x99423, 0x4ca1, 0x265, 0x13, 0x2, 0xb0, 0x10, 0xa, 0x23e, 0x2b6, 0x37b, 0x113, 0x2dd, 0x2, 0xa5, 0x3c7)
    ensures Rooted(2, 0x26508e6d, 0x1328473, 0x99423, 0x4ca1, 0x265, 0x13, 0x2, 0xb0, 0xdf, 0x38f, 0x6f, 0x3b4, 0x3d5, 0x16f, 0x264, 0x20, 0x2c, 0x2b3)
  {
  }

  lemma Root2()
    ensures Parts(0x1ea119fa, 0xf508cf, 0x7a846, 0x3d42, 0x1ea, 0xf)
    ensures Rooted(0, 0x1ea119fa, 0xf508cf, 0x7a846, 0x3d42, 0x1ea, 0xf, 0x4, 0x303, 0x28d, 0x28d, 0x2d9, 0x3a7, 0x227, 0x12d, 0x24c, 0x149, 0x2f4, 0x2b0)
    ensures Rooted(1, 0x1ea119fa, 0xf508cf, 0x7a846, 0x3d42, 0x1ea, 0xf, 0x4, 0x303, 0xe0, 0x6c, 0x3be, 0x1ed, 0x16d, 0x197, 0x3cf, 0x1c, 0x3d5, 0x226)
    ensures Rooted(2, 0x1ea119fa, 0xf508cf, 0x7a846, 0x3d42, 0x1ea, 0xf, 0x4, 0x303, 0x119, 0x1d6, 0x21a, 0x94, 0x2da, 0x37f, 0xb2, 0x1c0, 0x188, 0x1db)
  {
  }

  lemma Root3()
    ensures Parts(0x3d4233dd, 0x1ea119e, 0xf508c, 0x7a84, 0x3d4, 0x1e)
    ensures Rooted(0, 0x3d4233dd, 0x1ea119e, 0xf508c, 0x7a84, 0x3d4, 0x1e, 0x8, 0x3bd, 0xaf, 0xaf, 0x3f7, 0x66, 0x320, 0xe3, 0x102, 0x29b, 0x271, 0x1c9)
    ensures Rooted(1, 0x3d4233dd, 0x1ea119e, 0xf508c, 0x7a84, 0x3d4, 0x1e, 0x8, 0x3bd, 0x63, 0x208, 0xf8, 0x140, 0x363, 0x38c, 0x256, 0xa8, 0x2da, 0x32e)
    ensures Rooted(2, 0x3d4233dd, 0x1ea119e, 0xf508c, 0x7a84, 0x3d4, 0x1e, 0x8, 0x3bd, 0x1fb, 0x2, 0x246, 0x2fb, 0x3e5, 0x155, 0x31f, 0xc6, 0x336, 0x44)
  {
  }

  lemma Root4()
    ensures Parts(0x2a1462b3, 0x150a315, 0xa8518, 0x5428, 0x2a1, 0x15)
    ensures Rooted(0, 0x2a1462b3, 0x150a315, 0xa8518, 0x5428, 0x2a1, 0x15, 0x10, 0xea, 0x3b9, 0x3b9, 0x306, 0x264, 0x26f, 0x71, 0x179, 0x6b, 0x64, 0xb8)
    ensures Rooted(1, 0x2a1462b3, 0x150a315, 0xa8518, 0x5428, 0x2a1, 0x15, 0x10, 0xea, 0x252, 0x2ba, 0xf3, 0x2e5, 0x1fd, 0x1c4, 0x18e, 0x393, 0x3e5, 0x23b)
    ensures Rooted(2, 0x2a1462b3, 0x150a315, 0xa8518, 0x5428, 0x2a1, 0x15, 0x10, 0xea, 0x184, 0x1c, 0x16e, 0x22b, 0x3fa, 0x233, 0x315, 0x187, 0x2ab, 0x3b8)
  {
  }

  function At6(i: nat, w: bv32): bv32 { At(i, At(i, At(i, At(i, At(i, At(i, w)))))) }

  lemma RootedValue(i: nat, g: bv32, g1: bv32, g2: bv32, g3: bv32, g4: bv32, g5: bv32, e: bv32,
                    h5: bv32, h4: bv32, h3: bv32, h2: bv32, h1: bv32, a1: bv32, a2: bv32, a3: bv32, a4: bv32, a5: bv32, a6: bv32)
    requires Parts(g, g1, g2, g3, g4, g5) && Rooted(i, g, g1, g2, g3, g4, g5, e, h5, h4, h3, h2, h1, a1, a2, a3, a4, a5, a6)
    ensures Value(i, 6, g) == At6(i, Embed(e))
  {
    hide Horner, At, Embed, Pop, Value;
    ValueStep(i, 6, g); ValueStep(i, 5, g1); ValueStep(i, 4, g2); ValueStep(i, 3, g3); ValueStep(i, 2, g4); ValueStep(i, 1, g5);
    ValueNone(i, Pop(g5));
  }

  lemma EmbedIs(w: bv32)
    ensures Embed(w) == Lin5(w, 0x1, 0xe, 0x54, 0x358, 0xbf)
  {
  }

  lemma Low24Is(w: bv32)
    ensures Low24(w) == Lin5(w, 0x3f0, 0x2c3, 0xa5, 0x14a, 0x294)
  {
  }

  lemma High24Is(w: bv32)
    ensures High24(w) == Lin5(Pop(w), 0xb, 0x16, 0x2c, 0x58, 0xb0)
  {
  }

  lemma Times24Is(w: bv32)
    ensures Times24(w) == Xor(Low24(w), High24(w))
  {
    hide Low24, High24;
  }

  lemma PopLinear(a: bv32, b: bv32)
    ensures Pop(Xor(a, b)) == Xor(Pop(a), Pop(b))
  {
  }

  lemma EmbedLinear(a: bv32, b: bv32)
    ensures Embed(Xor(a, b)) == Xor(Embed(a), Embed(b))
  {
    hide Embed, Lin5, Xor;
    EmbedIs(a);
    EmbedIs(b);
    EmbedIs(Xor(a, b));
    Lin5Linear(a, b, 0x1, 0xe, 0x54, 0x358, 0xbf);
  }

  lemma Times24Linear(a: bv32, b: bv32)
    ensures Times24(Xor(a, b)) == Xor(Times24(a), Times24(b))
  {
    hide Times24, Low24, High24, Lin5, Xor, Pop;
    Times24Is(a); Times24Is(b); Times24Is(Xor(a, b));
    Low24Is(a); Low24Is(b); Low24Is(Xor(a, b));
    High24Is(a); High24Is(b); High24Is(Xor(a, b));
    PopLinear(a, b);
    Lin5Linear(a, b, 0x3f0, 0x2c3, 0xa5, 0x14a, 0x294);
    Lin5Linear(Pop(a), Pop(b), 0xb, 0x16, 0x2c, 0x58, 0xb0);
    XorSwap(Low24(a), Low24(b), High24(a), High24(b));
  }

  lemma AtLinear(i: nat, a: bv32, b: bv32)
    ensures At(i, Xor(a, b)) == Xor(At(i, a), At(i, b)) && At(i, 0) == 0
  {
    hide Times24, Next, Xor;
    Times24Linear(a, b);
    NextLinear(Times24(a), Times24(b));
    NextLinear(Next(Times24(a)), Next(Times24(b)));
    NextOfZero();
    TimesZero();
  }

  lemma TimesZero()
    ensures Times24(0) == 0 && Embed(0) == 0
  {
  }

  /** The columns are the powers from r^24 on. */
  lemma Times24Power(w: bv32)
    requires InField(w)
    ensures Times24(w) == Power(24, w)
  {
    hide Next, Xor, Power, Lin5, Times24, Low24, High24, Pop, InField, Linear;
    PowerIsLinear(24);
    var f: bv32 -> bv32 := x => Power(24, x);
    Columns();
    BitsOf(w);
    Times24Is(w);
    Low24Is(w);
    High24Is(w);
    LinearAt(f, Lin5(w, 1, 2, 4, 8, 16), Lin5(Pop(w), 32, 64, 128, 256, 512));
    Lin5Map(f, w, 1, 2, 4, 8, 16);
    Lin5Map(f, Pop(w), 32, 64, 128, 256, 512);
  }

  lemma PowerIsLinear(n: nat)
    ensures Linear(x => Power(n, x))
  {
    hide Power, Xor;
    PowerOfZero(n);
    forall a, b ensures Power(n, Xor(a, b)) == Xor(Power(n, a), Power(n, b)) { PowerLinear(n, a, b); }
  }

  lemma Columns()
    ensures Power(24, 1) == 0x3f0 && Power(24, 2) == 0x2c3 && Power(24, 4) == 0xa5 && Power(24, 8) == 0x14a
    ensures Power(24, 16) == 0x294 && Power(24, 32) == 0xb && Power(24, 64) == 0x16 && Power(24, 128) == 0x2c
    ensures Power(24, 256) == 0x58 && Power(24, 512) == 0xb0
  {
    hide Power;
    ThirtyOne();
    BitsFollow();
    PowerNext(24, 1); PowerNext(24, 2); PowerNext(24, 4); PowerNext(24, 8); PowerNext(24, 16);
    PowerNext(24, 32); PowerNext(24, 64); PowerNext(24, 128); PowerNext(24, 256);
    ColumnsFollow();
    hide Next;
  }

  lemma ColumnsFollow()
    ensures Next(0x3f0) == 0x2c3 && Next(0x2c3) == 0xa5 && Next(0xa5) == 0x14a && Next(0x14a) == 0x294
    ensures Next(0x294) == 0xb && Next(0xb) == 0x16 && Next(0x16) == 0x2c && Next(0x2c) == 0x58
    ensures Next(0x58) == 0xb0
  {
  }

  lemma AtPower(i: nat, w: bv32)
    requires i <= 2 && InField(w)
    ensures At(i, w) == Power(24 + i, w) && InField(At(i, w))
  {
    hide Next, Times24, InField;
    Times24Power(w);
    PowerFacts(24 + i, w);
    assert Power(25, w) == Next(Power(24, w)) && Power(26, w) == Next(Power(25, w));
  }

  lemma HornerLinear(i: nat, c: bv32, d: bv32, r: bv32, s: bv32)
    ensures Horner(i, Xor(c, d), Xor(r, s)) == Xor(Horner(i, c, r), Horner(i, d, s))
  {
    hide Embed, At, Xor, Horner;
    HornerIs(i, c, r);
    HornerIs(i, d, s);
    HornerIs(i, Xor(c, d), Xor(r, s));
    EmbedLinear(c, d);
    AtLinear(i, r, s);
    XorSwap(Embed(c), Embed(d), At(i, r), At(i, s));
  }

  lemma HornerIs(i: nat, c: bv32, rest: bv32)
    ensures Horner(i, c, rest) == Xor(Embed(c), At(i, rest))
  {
    hide Embed, At;
  }

  lemma {:induction false} ValueLinear(i: nat, n: nat, a: bv32, b: bv32)
    ensures Value(i, n, Xor(a, b)) == Xor(Value(i, n, a), Value(i, n, b)) && Value(i, n, 0) == 0
    decreases n
  {
    hide Horner, Pop, Xor, At, Embed;
    XorFacts(0, 0);
    if n > 0 {
      PopLinear(a, b);
      ValueLinear(i, n - 1, Pop(a), Pop(b));
      HornerLinear(i, a, b, Value(i, n - 1, Pop(a)), Value(i, n - 1, Pop(b)));
      PopZero();
      HornerIs(i, 0, 0);
      AtLinear(i, 0, 0);
      TimesZero();
    }
  }

  lemma PopZero()
    ensures Pop(0) == 0
  {
  }

  lemma EmbedField(w: bv32)
    ensures InField(Embed(w)) && (0 < w < 32 ==> Embed(w) != 0) && Embed(w) == Embed(w & 31)
  {
  }

  lemma {:induction false} ValueField(i: nat, n: nat, c: bv32)
    requires i <= 2
    ensures InField(Value(i, n, c))
  {
    hide Horner, Pop, At, Embed, InField, Xor;
    if n == 0 {
      ZeroField();
    } else {
      ValueField(i, n - 1, Pop(c));
      EmbedField(c);
      AtPower(i, Value(i, n - 1, Pop(c)));
      HornerIs(i, c, Value(i, n - 1, Pop(c)));
      XorField(Embed(c), At(i, Value(i, n - 1, Pop(c))));
    }
  }

  lemma ZeroField()
    ensures InField(0)
  {
  }

  /** Leading zeros do not matter. */
  lemma {:induction false} ValueShort(i: nat, n: nat, c: bv32)
    requires n <= 5 && Fits(c, n)
    ensures Value(i, n + 1, c) == Value(i, n, c)
    decreases n
  {
    hide Horner, Pop, Fits, At;
    if n == 0 {
      OnlyZeroFits(c);
      ValueLinear(i, 1, 0, 0);
    } else {
      PopFits(c, n);
      ValueShort(i, n - 1, Pop(c));
    }
  }

  lemma PushValue(i: nat, c: bv32, v: Symbol)
    requires Small(c)
    ensures Value(i, 6, Push(c, v)) == Xor(Embed(v as bv32), At(i, Value(i, 6, c)))
  {
    hide Horner, Pop, At, Embed, Push, Small, Xor, Value;
    PopPush(c, v);
    LowPush(c, v);
    SmallFits(c);
    ValueShort(i, 5, c);
    ValueStep(i, 6, Push(c, v));
    HornerIs(i, Push(c, v), Value(i, 5, c));
    EmbedField(Push(c, v));
    EmbedField(v as bv32);
  }

  lemma ValueStep(i: nat, n: nat, c: bv32)
    requires n > 0
    ensures Value(i, n, c) == Horner(i, c, Value(i, n - 1, Pop(c)))
  {
  }

  lemma LowPush(c: bv32, v: Symbol)
    ensures Push(c, v) & 31 == (v as bv32) & 31
  {
  }

  lemma SmallFits(c: bv32)
    requires Small(c)
    ensures Fits(c, 5)
  {
  }

  function Low25(c: bv32): bv32 { c & 0x1ff_ffff }
  function Top(c: bv32): bv32 { c & 0x3e00_0000 }

  lemma Halves(c: bv32)
    requires Reduced(c)
    ensures Xor(Low25(c), Top(c)) == c && Small(Low25(c)) && Leading(c) < 32
    ensures Leading(Top(c)) == Leading(c) && Shifted(Top(c), 0) == 0
  {
  }

  lemma TopSteps(c: bv32)
    requires Reduced(c)
    ensures Top(c) & 31 == 0 && Pop(Top(c)) & 31 == 0 && Pop(Pop(Top(c))) & 31 == 0
    ensures Pop(Pop(Pop(Top(c)))) & 31 == 0 && Pop(Pop(Pop(Pop(Top(c))))) & 31 == 0
    ensures Pop(Pop(Pop(Pop(Pop(Top(c)))))) == Leading(c)
  {
  }

  lemma HornerZero(i: nat, c: bv32, rest: bv32)
    requires c & 31 == 0
    ensures Horner(i, c, rest) == At(i, rest)
  {
    hide Horner, At, Embed, Xor;
    EmbedField(c);
    TimesZero();
    HornerIs(i, c, rest);
    XorFacts(At(i, rest), 0);
    XorFacts(0, At(i, rest));
  }

  lemma TopValue(i: nat, c: bv32)
    requires Reduced(c)
    ensures At(i, Value(i, 6, Top(c))) == At6(i, Embed(Leading(c)))
  {
    hide Horner, At, Embed, Pop, Top, Leading, Value, Xor;
    TopSteps(c);
    var t := Top(c);
    var t1 := Pop(t);
    var t2 := Pop(t1);
    var t3 := Pop(t2);
    var t4 := Pop(t3);
    var l := Leading(c);
    ValueStep(i, 6, t); ValueStep(i, 5, t1); ValueStep(i, 4, t2); ValueStep(i, 3, t3); ValueStep(i, 2, t4); ValueStep(i, 1, l);
    HornerZero(i, t, Value(i, 5, t1));
    HornerZero(i, t1, Value(i, 4, t2));
    HornerZero(i, t2, Value(i, 3, t3));
    HornerZero(i, t3, Value(i, 2, t4));
    HornerZero(i, t4, Value(i, 1, l));
    ValueNone(i, Pop(l));
    HornerIs(i, l, 0);
    AtLinear(i, 0, 0);
    XorFacts(Embed(l), 0);
  }

  lemma ValueNone(i: nat, c: bv32)
    ensures Value(i, 0, c) == 0
  {
  }

  /** What reduction takes away is zero at the roots. */
  lemma TailValue(i: nat, l: bv32)
    requires i <= 2
    ensures Value(i, 6, Tail(l)) == At6(i, Embed(l))
  {
    hide Value, At, Embed, Lin5, Xor, Linear, At6;
    ValueIsLinear(i);
    At6IsLinear(i);
    EmbedIs(l);
    Roots(i);
    EmbedBits();
    Lin5Map(x => Value(i, 6, x), l, 0x3b6a57b2, 0x26508e6d, 0x1ea119fa, 0x3d4233dd, 0x2a1462b3);
    Lin5Map(x => At6(i, x), l, 0x1, 0xe, 0x54, 0x358, 0xbf);
  }

  lemma EmbedBits()
    ensures Embed(1) == 0x1 && Embed(2) == 0xe && Embed(4) == 0x54 && Embed(8) == 0x358 && Embed(16) == 0xbf
  {
  }

  lemma Roots(i: nat)
    requires i <= 2
    ensures Value(i, 6, 0x3b6a57b2) == At6(i, Embed(1)) && Value(i, 6, 0x26508e6d) == At6(i, Embed(2))
    ensures Value(i, 6, 0x1ea119fa) == At6(i, Embed(4)) && Value(i, 6, 0x3d4233dd) == At6(i, Embed(8))
    ensures Value(i, 6, 0x2a1462b3) == At6(i, Embed(16))
  {
    hide Value, At, Embed, At6, Rooted, Parts;
    Root0();
    Root1();
    Root2();
    Root3();
    Root4();
    if i == 0 {
      RootedValue(0, 0x3b6a57b2, 0x1db52bd, 0xeda95, 0x76d4, 0x3b6, 0x1d, 0x1, 0x3b2, 0x7d, 0x7d, 0x7c, 0xd4, 0x3f0, 0x24d, 0x2b9, 0xb9, 0x9, 0x2ba);
      RootedValue(0, 0x26508e6d, 0x1328473, 0x99423, 0x4ca1, 0x265, 0x13, 0x2, 0xb0, 0x2e6, 0x2e6, 0x2e8, 0x17b, 0x32c, 0x10c, 0x1b7, 0x37d, 0x7e, 0x1a5);
      RootedValue(0, 0x1ea119fa, 0xf508cf, 0x7a846, 0x3d42, 0x1ea, 0xf, 0x4, 0x303, 0x28d, 0x28d, 0x2d9, 0x3a7, 0x227, 0x12d, 0x24c, 0x149, 0x2f4, 0x2b0);
      RootedValue(0, 0x3d4233dd, 0x1ea119e, 0xf508c, 0x7a84, 0x3d4, 0x1e, 0x8, 0x3bd, 0xaf, 0xaf, 0x3f7, 0x66, 0x320, 0xe3, 0x102, 0x29b, 0x271, 0x1c9);
      RootedValue(0, 0x2a1462b3, 0x150a315, 0xa8518, 0x5428, 0x2a1, 0x15, 0x10, 0xea, 0x3b9, 0x3b9, 0x306, 0x264, 0x26f, 0x71, 0x179, 0x6b, 0x64, 0xb8);
    } else if i == 1 {
      RootedValue(1, 0x3b6a57b2, 0x1db52bd, 0xeda95, 0x76d4, 0x3b6, 0x1d, 0x1, 0x3b2, 0x1d5, 0x3ad, 0x69, 0x3df, 0x2c3, 0x372, 0x144, 0x1d6, 0x120, 0xa6);
      RootedValue(1, 0x26508e6d, 0x1328473, 0x99423, 0x4ca1, 0x265, 0x13, 0x2, 0xb0, 0x10, 0xa, 0x23e, 0x2b6, 0x37b, 0x113, 0x2dd, 0x2, 0xa5, 0x3c7);
      RootedValue(1, 0x1ea119fa, 0xf508cf, 0x7a846, 0x3d42, 0x1ea, 0xf, 0x4, 0x303, 0xe0, 0x6c, 0x3be, 0x1ed, 0x16d, 0x197, 0x3cf, 0x1c, 0x3d5, 0x226);
      RootedValue(1, 0x3d4233dd, 0x1ea119e, 0xf508c, 0x7a84, 0x3d4, 0x1e, 0x8, 0x3bd, 0x63, 0x208, 0xf8, 0x140, 0x363, 0x38c, 0x256, 0xa8, 0x2da, 0x32e);
      RootedValue(1, 0x2a1462b3, 0x150a315, 0xa8518, 0x5428, 0x2a1, 0x15, 0x10, 0xea, 0x252, 0x2ba, 0xf3, 0x2e5, 0x1fd, 0x1c4, 0x18e, 0x393, 0x3e5, 0x23b);
    } else {
      RootedValue(2, 0x3b6a57b2, 0x1db52bd, 0xeda95, 0x76d4, 0x3b6, 0x1d, 0x1, 0x3b2, 0x285, 0xaa, 0x137, 0x193, 0xa5, 0x2ad, 0x66, 0x3aa, 0x27d, 0x98);
      RootedValue(2, 0x26508e6d, 0x1328473, 0x99423, 0x4ca1, 0x265, 0x13, 0x2, 0xb0, 0xdf, 0x38f, 0x6f, 0x3b4, 0x3d5, 0x16f, 0x264, 0x20, 0x2c, 0x2b3);
      RootedValue(2, 0x1ea119fa, 0xf508cf, 0x7a846, 0x3d42, 0x1ea, 0xf, 0x4, 0x303, 0x119, 0x1d6, 0x21a, 0x94, 0x2da, 0x37f, 0xb2, 0x1c0, 0x188, 0x1db);
      RootedValue(2, 0x3d4233dd, 0x1ea119e, 0xf508c, 0x7a84, 0x3d4, 0x1e, 0x8, 0x3bd, 0x1fb, 0x2, 0x246, 0x2fb, 0x3e5, 0x155, 0x31f, 0xc6, 0x336, 0x44);
      RootedValue(2, 0x2a1462b3, 0x150a315, 0xa8518, 0x5428, 0x2a1, 0x15, 0x10, 0xea, 0x184, 0x1c, 0x16e, 0x22b, 0x3fa, 0x233, 0x315, 0x187, 0x2ab, 0x3b8);
    }
  }

  lemma ValueIsLinear(i: nat)
    ensures Linear(x => Value(i, 6, x))
  {
    hide Value, Xor;
    forall a, b ensures Value(i, 6, Xor(a, b)) == Xor(Value(i, 6, a), Value(i, 6, b)) { ValueLinear(i, 6, a, b); }
    ValueLinear(i, 6, 0, 0);
  }

  lemma At6Linear(i: nat, a: bv32, b: bv32)
    ensures At6(i, Xor(a, b)) == Xor(At6(i, a), At6(i, b)) && At6(i, 0) == 0
  {
    hide At, Xor;
    var a1, b1 := At(i, a), At(i, b);
    var a2, b2 := At(i, a1), At(i, b1);
    var a3, b3 := At(i, a2), At(i, b2);
    var a4, b4 := At(i, a3), At(i, b3);
    AtLinear(i, a, b); AtLinear(i, a1, b1); AtLinear(i, a2, b2); AtLinear(i, a3, b3); AtLinear(i, a4, b4);
    AtLinear(i, At(i, a4), At(i, b4));
  }

  lemma At6IsLinear(i: nat)
    ensures Linear(x => At6(i, x))
  {
    hide At6, Xor;
    forall a, b ensures At6(i, Xor(a, b)) == Xor(At6(i, a), At6(i, b)) { At6Linear(i, a, b); }
    At6Linear(i, 0, 0);
  }

  /** Appending a symbol at a root: times the root, plus the symbol. */
  lemma StepValue(i: nat, c: bv32, v: Symbol)
    requires i <= 2 && Reduced(c)
    ensures Value(i, 6, Step(c, v)) == Xor(Embed(v as bv32), At(i, Value(i, 6, c)))
  {
    hide Value, At, Embed, Xor, Low25, Top, Small, Step, Push, Tail, At6, Leading, Reduced;
    var lo, hi := Low25(c), Top(c);
    Halves(c);
    StepTop(c);
    StepLinear(lo, v, hi, 0);
    NoChange(v);
    StepSmall(lo, v);
    PushValue(i, lo, v);
    TailValue(i, Leading(c));
    TopValue(i, c);
    ValueLinear(i, 6, Push(lo, v), Tail(Leading(c)));
    ValueLinear(i, 6, lo, hi);
    AtLinear(i, Value(i, 6, lo), Value(i, 6, hi));
    XorAssociative(Embed(v as bv32), At(i, Value(i, 6, lo)), At6(i, Embed(Leading(c))));
  }

  lemma StepTop(c: bv32)
    requires Reduced(c)
    ensures Step(Top(c), 0) == Tail(Leading(c))
  {
    hide Tail, Top, Leading, Shifted, Xor;
    Halves(c);
    StepIs(Top(c), 0);
    XorFacts(Tail(Leading(c)), 0);
  }

  lemma NoChange(v: Symbol)
    ensures v ^ 0 == v
  {
  }

  /** The exponent after n steps at each root. */
  function Exponent(i: nat, n: nat): nat { if i == 0 then 24 * n else if i == 1 then 25 * n else 26 * n }

  lemma {:induction false} RunValue(i: nat, c: bv32, n: nat)
    requires i <= 2 && Reduced(c)
    ensures Value(i, 6, Run(c, Zeros(n))) == Power(Exponent(i, n), Value(i, 6, c))
  {
    hide Value, Step, Reduced, Power, Embed, At, Xor;
    PowerNone(Value(i, 6, c));
    if n == 0 {
      assert Zeros(0) == [];
    } else {
      assert Zeros(n)[..n - 1] == Zeros(n - 1);
      RunReduced(c, Zeros(n - 1));
      RunValue(i, c, n - 1);
      ZeroStepValue(i, Run(c, Zeros(n - 1)));
      PowerAdd(24 + i, Exponent(i, n - 1), Value(i, 6, c));
    }
  }

  lemma PowerNone(w: bv32)
    ensures Power(0, w) == w
  {
  }

  lemma ZeroStepValue(i: nat, c: bv32)
    requires i <= 2 && Reduced(c)
    ensures Value(i, 6, Step(c, 0)) == Power(24 + i, Value(i, 6, c))
  {
    hide Value, Step, Reduced, Power, Embed, At, Xor, InField;
    StepValue(i, c, 0);
    TimesZero();
    ValueField(i, 6, c);
    AtPower(i, Value(i, 6, c));
    XorFacts(At(i, Value(i, 6, c)), 0);
    XorFacts(0, At(i, Value(i, 6, c)));
  }

  /** A symbol, moved on by n places, and another one. */
  lemma MovedValue(i: nat, c: bv32, n: nat, v: Symbol)
    requires i <= 2 && Reduced(c)
    ensures Value(i, 6, Step(Run(c, Zeros(n)), v)) == Xor(Power(Exponent(i, n + 1), Value(i, 6, c)), Embed(v as bv32))
  {
    hide Value, Step, Reduced, Power, Embed, At, Xor, InField;
    var d := Run(c, Zeros(n));
    RunReduced(c, Zeros(n));
    RunValue(i, c, n);
    StepValue(i, d, v);
    ValueField(i, 6, d);
    AtPower(i, Value(i, 6, d));
    PowerAdd(24 + i, Exponent(i, n), Value(i, 6, c));
    XorFacts(Embed(v as bv32), At(i, Value(i, 6, d)));
  }

  lemma SymbolValue(i: nat, e: Symbol)
    requires i <= 2
    ensures Value(i, 6, e as bv32) == Embed(e as bv32) && Reduced(e as bv32) && InField(Embed(e as bv32))
    ensures e != 0 ==> Embed(e as bv32) != 0
  {
    hide Value, Step, Embed, At, Xor, InField;
    ZeroReduced(e);
    StepValue(i, 0, e);
    StepNothing(e);
    ValueLinear(i, 6, 0, 0);
    AtLinear(i, 0, 0);
    XorFacts(Embed(e as bv32), 0);
    EmbedField(e as bv32);
  }

  lemma ZeroReduced(e: Symbol)
    ensures Reduced(0) && Reduced(e as bv32) && (e != 0 ==> 0 < e as bv32 < 32)
  {
  }

  lemma StepNothing(v: Symbol)
    ensures Step(0, v) == v as bv32
  {
  }

  // ---------------------------------------------------------------------------------------------
  // Few errors are no multiple of the generator
  // ---------------------------------------------------------------------------------------------

  function Less(p: nat, y: bv32): bv32 { Xor(Power(p, y), y) }

  lemma LessTwice(p: nat, y: bv32)
    ensures Less(p, Less(p, y)) == Less(2 * p, y)
  {
    hide Power, Xor;
    PowerLinear(p, Power(p, y), y);
    PowerAdd(p, p, y);
    var z := Power(p, y);
    XorSwap(Power(2 * p, y), z, z, y);
    XorFacts(z, y);
    XorSwap(Power(2 * p, y), z, y, z);
    XorFacts(z, z);
    XorFacts(Xor(Power(2 * p, y), y), 0);
  }

  lemma LessZero(p: nat, y: bv32)
    requires 1 <= p <= 90 && InField(y) && Less(p, y) == 0
    ensures y == 0
  {
    hide Power, Xor, InField;
    NoneFixed(p);
    XorFacts(Power(p, y), y);
  }

  lemma PowerInjective(n: nat, a: bv32, b: bv32)
    requires InField(a) && InField(b) && Power(n, a) == Power(n, b)
    ensures a == b
  {
    hide Power, Xor, InField;
    PowerLinear(n, a, b);
    XorFacts(Power(n, a), Power(n, b));
    XorField(a, b);
    PowerFacts(n, Xor(a, b));
    XorFacts(a, b);
  }

  predicate Cancel(a: bv32, b: bv32, c: bv32) { Xor(Xor(a, b), c) == 0 }

  /** If a sum of three terms vanishes at three successive roots, the first term is zero. */
  lemma ThreeTerms(p: nat, q: nat, y1: bv32, y2: bv32, y3: bv32)
    requires 0 < q < p <= 90 && InField(y1) && InField(y2)
    requires Cancel(y1, y2, y3) && Cancel(Power(p, y1), Power(q, y2), y3) && Cancel(Power(2 * p, y1), Power(2 * q, y2), y3)
    ensures y1 == 0
  {
    hide Power, InField, Less, Cancel;
    LessEqual(p, q, y1, y2, y3);
    LessEqual(2 * p, 2 * q, y1, y2, y3);
    FirstZero(p, q, y1, y2);
  }

  lemma FirstZero(p: nat, q: nat, y1: bv32, y2: bv32)
    requires 0 < q < p <= 90 && InField(y1) && Less(p, y1) == Less(q, y2) && Less(2 * p, y1) == Less(2 * q, y2)
    ensures y1 == 0
  {
    hide Power, Xor, InField, Less;
    LessTwice(p, y1);
    LessTwice(q, y2);
    LessField(p, y1);
    SameLess(p, q, Less(p, y1));
    LessZero(p, y1);
  }

  lemma SameLess(p: nat, q: nat, w: bv32)
    requires 0 < q < p <= 90 && InField(w) && Less(p, w) == Less(q, w)
    ensures w == 0
  {
    hide Power, Xor, InField, Less;
    LessSame(p, q, w);
    PowerAdd(q, p - q, w);
    PowerFacts(p - q, w);
    PowerInjective(q, Power(p - q, w), w);
    LessFixed(p - q, w);
    LessZero(p - q, w);
  }

  lemma LessField(p: nat, y: bv32)
    requires InField(y)
    ensures InField(Less(p, y))
  {
    hide Power, Xor, InField;
    PowerFacts(p, y);
    XorField(Power(p, y), y);
  }

  lemma LessFixed(d: nat, w: bv32)
    requires Power(d, w) == w
    ensures Less(d, w) == 0
  {
    hide Power, Xor;
    XorFacts(w, w);
  }

  lemma LessSame(p: nat, q: nat, w: bv32)
    requires Less(p, w) == Less(q, w)
    ensures Power(p, w) == Power(q, w)
  {
    hide Power, Xor;
    XorFacts(Power(p, w), w);
    XorFacts(Power(q, w), w);
  }

  lemma LessEqual(p: nat, q: nat, y1: bv32, y2: bv32, y3: bv32)
    requires Cancel(y1, y2, y3) && Cancel(Power(p, y1), Power(q, y2), y3)
    ensures Less(p, y1) == Less(q, y2)
  {
    hide Power, Xor;
    var a, b := Power(p, y1), Power(q, y2);
    XorFacts(Xor(y1, y2), y3);
    XorFacts(Xor(a, b), y3);
    XorSwap(a, y1, b, y2);
    XorFacts(Xor(a, b), Xor(y1, y2));
    XorFacts(Less(p, y1), Less(q, y2));
    XorSwap(a, b, y1, y2);
  }

  /** Three symbols, the first not zero, are no multiple of the generator. */
  lemma ThreeNonzero(x: Symbol, a: nat, y: Symbol, b: nat, z: Symbol)
    requires x != 0 && a + b + 2 <= 90
    ensures Step(Run(Step(Run(x as bv32, Zeros(a)), y), Zeros(b)), z) != 0
  {
    hide Value, Step, Reduced, Power, Embed, Xor, InField, Run;
    var s := Step(Run(x as bv32, Zeros(a)), y);
    var t := Step(Run(s, Zeros(b)), z);
    var p, q := a + b + 2, b + 1;
    if t == 0 {
      ThreeValue(0, x, a, y, b, z);
      ThreeValue(1, x, a, y, b, z);
      ThreeValue(2, x, a, y, b, z);
      ValueLinear(0, 6, 0, 0);
      ValueLinear(1, 6, 0, 0);
      ValueLinear(2, 6, 0, 0);
      SymbolValue(0, x);
      SymbolValue(0, y);
      var y1, y2 := Power(24 * p, Embed(x as bv32)), Power(24 * q, Embed(y as bv32));
      PowerFacts(24 * p, Embed(x as bv32));
      PowerFacts(24 * q, Embed(y as bv32));
      PowerAdd(p, 24 * p, Embed(x as bv32));
      PowerAdd(2 * p, 24 * p, Embed(x as bv32));
      PowerAdd(q, 24 * q, Embed(y as bv32));
      PowerAdd(2 * q, 24 * q, Embed(y as bv32));
      ThreeTerms(p, q, y1, y2, Embed(z as bv32));
    }
  }

  lemma ThreeValue(i: nat, x: Symbol, a: nat, y: Symbol, b: nat, z: Symbol)
    requires i <= 2
    ensures Value(i, 6, Step(Run(Step(Run(x as bv32, Zeros(a)), y), Zeros(b)), z))
         == Xor(Xor(Power(Exponent(i, a + b + 2), Embed(x as bv32)), Power(Exponent(i, b + 1), Embed(y as bv32))), Embed(z as bv32))
  {
    hide Value, Step, Reduced, Power, Embed, Xor, InField, Run;
    var s := Step(Run(x as bv32, Zeros(a)), y);
    SymbolValue(i, x);
    StepReduced(Run(x as bv32, Zeros(a)), y);
    MovedValue(i, x as bv32, a, y);
    MovedValue(i, s, b, z);
    PowerLinear(Exponent(i, b + 1), Power(Exponent(i, a + 1), Embed(x as bv32)), Embed(y as bv32));
    PowerAdd(Exponent(i, b + 1), Exponent(i, a + 1), Embed(x as bv32));
  }

  lemma TwoNonzero(x: Symbol, a: nat, y: Symbol)
    requires x != 0 && a < 90
    ensures Step(Run(x as bv32, Zeros(a)), y) != 0
  {
    hide Value, Step, Reduced, Power, Embed, Xor, InField, Run;
    if Step(Run(x as bv32, Zeros(a)), y) == 0 {
      var p, e, f := a + 1, Embed(x as bv32), Embed(y as bv32);
      SymbolValue(0, x);
      SymbolValue(1, x);
      MovedValue(0, x as bv32, a, y);
      MovedValue(1, x as bv32, a, y);
      ValueLinear(0, 6, 0, 0);
      ValueLinear(1, 6, 0, 0);
      XorFacts(Power(24 * p, e), f);
      XorFacts(Power(25 * p, e), f);
      PowerAdd(p, 24 * p, e);
      PowerFacts(24 * p, e);
      NoneFixed(p);
    }
  }

  // ---------------------------------------------------------------------------------------------
  // Detected errors
  // ---------------------------------------------------------------------------------------------

  ghost predicate DifferAtMost(v: seq<Symbol>, w: seq<Symbol>, i: nat, j: nat, k: nat) {
    |v| == |w| && i < j < k < |v| && forall p | 0 <= p < |v| && p != i && p != j && p != k :: v[p] == w[p]
  }

  /** Symbols that differ in one, two or three places of a window of 91 have different remainders. */
  lemma ThreeSymbolsDetected(v: seq<Symbol>, w: seq<Symbol>, i: nat, j: nat, k: nat)
    requires DifferAtMost(v, w, i, j, k) && k - i <= 90 && v != w
    ensures Run(1, v) != Run(1, w)
  {
    hide Run, Step, Reduced, Xor;
    var d := XorAll(v, w);
    RunLinear(1, v, 1, w);
    XorFacts(1, 1);
    XorFacts(Run(1, v), Run(1, w));
    SymbolDifference(v, w, i, j, k);
    var a, b := j - i - 1, k - j - 1;
    RunZeroStart(d[i], i);
    RunParts(i, d[i], a, d[j], b, d[k], |v| - k - 1);
    var t := Step(Run(Step(Run(d[i] as bv32, Zeros(a)), d[j]), Zeros(b)), d[k]);
    StepReduced(Run(Step(Run(d[i] as bv32, Zeros(a)), d[j]), Zeros(b)), d[k]);
    SomeNonzero(d[i], a, d[j], b, d[k]);
    RunNonzero(t, |v| - k - 1);
  }

  lemma SomeNonzero(x: Symbol, a: nat, y: Symbol, b: nat, z: Symbol)
    requires (x != 0 || y != 0 || z != 0) && a + b + 2 <= 90
    ensures Step(Run(Step(Run(x as bv32, Zeros(a)), y), Zeros(b)), z) != 0
  {
    hide Run, Step, Reduced;
    if x != 0 {
      ThreeNonzero(x, a, y, b, z);
    } else {
      RunZeros(a);
      StepNothing(y);
      SymbolZero(x);
      if y != 0 {
        TwoNonzero(y, b, z);
      } else {
        SymbolZero(y);
        RunZeros(b);
        StepNothing(z);
        ZeroReduced(z);
      }
    }
  }

  lemma SymbolZero(x: Symbol)
    requires x == 0
    ensures x as bv32 == 0
  {
  }

  lemma {:induction false} RunZeros(n: nat)
    ensures Run(0, Zeros(n)) == 0
  {
    hide Step;
    if n > 0 {
      assert Zeros(n)[..n - 1] == Zeros(n - 1);
      RunZeros(n - 1);
      StepNothing(0);
    }
  }

  lemma RunZeroStart(x: Symbol, n: nat)
    ensures Step(Run(0, Zeros(n)), x) == x as bv32
  {
    hide Run, Step;
    RunZeros(n);
    StepNothing(x);
  }

  /** The three symbols with zeros around them. */
  function Sparse(n: nat, x: Symbol, a: nat, y: Symbol, b: nat, z: Symbol, m: nat): seq<Symbol> {
    Zeros(n) + [x] + Zeros(a) + [y] + Zeros(b) + [z] + Zeros(m)
  }

  lemma RunParts(n: nat, x: Symbol, a: nat, y: Symbol, b: nat, z: Symbol, m: nat)
    ensures Run(0, Sparse(n, x, a, y, b, z, m))
         == Run(Step(Run(Step(Run(Step(Run(0, Zeros(n)), x), Zeros(a)), y), Zeros(b)), z), Zeros(m))
  {
    hide Run, Step;
    var s1 := Zeros(n) + [x];
    var s2 := s1 + Zeros(a) + [y];
    var s3 := s2 + Zeros(b) + [z];
    RunSnoc(0, Zeros(n), x);
    RunCat(0, s1, Zeros(a));
    RunSnoc(0, s1 + Zeros(a), y);
    RunCat(0, s2, Zeros(b));
    RunSnoc(0, s2 + Zeros(b), z);
    RunCat(0, s3, Zeros(m));
  }

  lemma SymbolDifference(v: seq<Symbol>, w: seq<Symbol>, i: nat, j: nat, k: nat)
    requires DifferAtMost(v, w, i, j, k) && v != w
    ensures |XorAll(v, w)| == |v|
    ensures var d := XorAll(v, w);
      && (d[i] != 0 || d[j] != 0 || d[k] != 0)
      && d == Sparse(i, d[i], j - i - 1, d[j], k - j - 1, d[k], |v| - k - 1)
  {
    var d := XorAll(v, w);
    forall p | 0 <= p < |v| ensures d[p] == 0 <==> v[p] == w[p] { SymbolsEqual(v[p], w[p]); }
    assert exists p | 0 <= p < |v| :: v[p] != w[p];
  }

  lemma SymbolsEqual(x: Symbol, y: Symbol)
    ensures x ^ y == 0 <==> x == y
  {
  }

  /** Replacing up to three characters of the data part, not all by ones for the same symbol, makes the string
      invalid. */
  lemma ThreeErrorsDetected(str: string, t: string, i: nat, j: nat, k: nat)
    requires DecodedString(str).Valid? && |t| == |str| && LastOne(str) < i < j < k < |str|
    requires forall p | 0 <= p < |str| && p != i && p != j && p != k :: t[p] == str[p]
    requires t[i] != '1' && t[j] != '1' && t[k] != '1'
    requires Reverse(t[i]) != Reverse(str[i]) || Reverse(t[j]) != Reverse(str[j]) || Reverse(t[k]) != Reverse(str[k])
    ensures DecodedString(t) == Invalid
  {
    hide Run, Expand, Symbols, AllSymbols, Acceptable, LastOne, Reverse, DecodedString, Lower, DifferAtMost;
    var pos := LastOne(str);
    ValidParts(str);
    SameSeparator(str, t, i, j, k);
    var enc, s, s' := Expand(Lower(str[..pos])), str[pos + 1..], t[pos + 1..];
    if AllSymbols(s') {
      var n := |enc|;
      DataDiffer(enc, s, s', i - pos - 1, j - pos - 1, k - pos - 1);
      ThreeSymbolsDetected(enc + Symbols(s), enc + Symbols(s'), n + i - pos - 1, n + j - pos - 1, n + k - pos - 1);
    }
    Rejected(str, t, pos);
  }

  lemma SameSeparator(str: string, t: string, i: nat, j: nat, k: nat)
    requires |t| == |str| && 0 <= LastOne(str) < i < j < k < |str|
    requires forall p | 0 <= p < |str| && p != i && p != j && p != k :: t[p] == str[p]
    requires t[i] != '1' && t[j] != '1' && t[k] != '1'
    ensures LastOne(t) == LastOne(str) && t[..LastOne(str)] == str[..LastOne(str)]
  {
    hide LastOne;
    var t1 := str[i := t[i]];
    var t2 := t1[j := t[j]];
    assert t == t2[k := t[k]];
    LastOneKept(str, i, t[i]);
    LastOneKept(t1, j, t[j]);
    LastOneKept(t2, k, t[k]);
  }

  lemma ValidParts(str: string)
    requires DecodedString(str).Valid?
    ensures 0 < LastOne(str) && LastOne(str) + 7 <= |str| <= 90 && AllSymbols(str[LastOne(str) + 1..])
  {
    hide Run, Expand, Symbols, AllSymbols, Acceptable, LastOne;
  }

  lemma Rejected(str: string, t: string, pos: nat)
    requires DecodedString(str).Valid? && LastOne(t) == LastOne(str) == pos && |t| == |str| && pos + 7 <= |str|
    requires t[..pos] == str[..pos] && AllSymbols(str[pos + 1..])
    requires AllSymbols(t[pos + 1..]) ==>
      Run(1, Expand(Lower(str[..pos])) + Symbols(str[pos + 1..])) != Run(1, Expand(Lower(str[..pos])) + Symbols(t[pos + 1..]))
    ensures DecodedString(t) == Invalid
  {
    hide Run, Expand, Symbols, AllSymbols, Acceptable, LastOne;
  }

  lemma DataDiffer(enc: seq<Symbol>, s: string, s': string, i: nat, j: nat, k: nat)
    requires AllSymbols(s) && AllSymbols(s') && |s| == |s'| && i < j < k < |s|
    requires forall p | 0 <= p < |s| && p != i && p != j && p != k :: s[p] == s'[p]
    requires Reverse(s[i]) != Reverse(s'[i]) || Reverse(s[j]) != Reverse(s'[j]) || Reverse(s[k]) != Reverse(s'[k])
    ensures enc + Symbols(s) != enc + Symbols(s')
    ensures DifferAtMost(enc + Symbols(s), enc + Symbols(s'), |enc| + i, |enc| + j, |enc| + k)
  {
    hide Reverse, SymbolOf;
    var v, w := enc + Symbols(s), enc + Symbols(s');
    forall p | 0 <= p < |s| && Reverse(s[p]) != Reverse(s'[p]) ensures v[|enc| + p] != w[|enc| + p] {
      SymbolsDiffer(s[p], s'[p]);
    }
  }

  /** Replacing one character of the human-readable part by another letter makes the string invalid. */
  lemma HrpErrorDetected(str: string, i: nat, c: char)
    requires DecodedString(str).Valid? && i < LastOne(str) && LowerCase(c) != LowerCase(str[i])
    ensures DecodedString(str[i := c]) == Invalid
  {
    hide Run, Checksum, Expand, Symbols, AllSymbols, Printable, IsUpper, LowerCase;
    var pos, t := LastOne(str), str[i := c];
    LastOneAt(str);
    LastOneBefore(str, i, c);
    assert t[pos + 1..] == str[pos + 1..] && t[..pos] == str[..pos][i := c];
    if Acceptable(t) {
      var hrp, v := Lower(str[..pos]), Symbols(str[pos + 1..]);
      LowerChange(str[..pos], i, c);
      assert Printable(t[i]) && Printable(str[i]);
      LowerPrintable(c);
      LowerPrintable(str[i]);
      HrpDiffer(hrp, i, LowerCase(c), v);
      ThreeSymbolsDetected(Expand(hrp) + v, Expand(hrp[i := LowerCase(c)]) + v, i, i + 1, |hrp| + 1 + i);
    }
  }

  /** Two characters differ in their high or their low bits. */
  lemma HrpDiffer(hrp: string, i: nat, c: char, v: seq<Symbol>)
    requires i < |hrp| && c != hrp[i] && Printable(c) && Printable(hrp[i])
    ensures Expand(hrp) + v != Expand(hrp[i := c]) + v
    ensures DifferAtMost(Expand(hrp) + v, Expand(hrp[i := c]) + v, i, i + 1, |hrp| + 1 + i)
  {
    hide Expand, High, Lower5, Printable;
    ExpandAt(hrp);
    ExpandTwo(hrp, i, c);
    CharBits(hrp[i], c);
    var e := Expand(hrp);
    var e' := e[i := High(c)][|hrp| + 1 + i := Lower5(c)];
    assert e + v != e' + v by {
      assert (e + v)[i] == e[i] && (e' + v)[i] == e'[i];
      assert (e + v)[|hrp| + 1 + i] == e[|hrp| + 1 + i] && (e' + v)[|hrp| + 1 + i] == e'[|hrp| + 1 + i];
    }
  }

  lemma LowerChange(s: string, i: nat, c: char)
    requires i < |s|
    ensures |Lower(s)| == |s| && Lower(s)[i] == LowerCase(s[i]) && Lower(s[i := c]) == Lower(s)[i := LowerCase(c)]
  {
    hide LowerCase;
  }

  lemma LowerPrintable(c: char)
    requires Printable(c)
    ensures Printable(LowerCase(c))
  {
  }

  lemma ExpandTwo(hrp: string, i: nat, c: char)
    requires i < |hrp|
    ensures |Expand(hrp)| == 2 * |hrp| + 1
    ensures Expand(hrp[i := c]) == Expand(hrp)[i := High(c)][|hrp| + 1 + i := Lower5(c)]
  {
    hide High, Lower5;
  }

  lemma CharBits(a: char, b: char)
    requires Printable(a) && Printable(b) && a != b
    ensures High(a) != High(b) || Lower5(a) != Lower5(b)
  {
    var m, n := a as int, b as int;
    if High(a) == High(b) && Lower5(a) == Lower5(b) {
      SameNumber(m / 32 % 32, n / 32 % 32);
      SameNumber(m % 32, n % 32);
      SmallQuotients(m, n);
    }
  }

  lemma SmallQuotients(m: int, n: int)
    requires 0 <= m < 128 && 0 <= n < 128 && m / 32 % 32 == n / 32 % 32 && m % 32 == n % 32
    ensures m == n
  {
  }

  lemma SameNumber(k: int, l: int)
    requires 0 <= k < 32 && 0 <= l < 32 && k as bv5 == l as bv5
    ensures k == l
  {
    assert (k as bv5) as int == k && (l as bv5) as int == l;
  }

  lemma {:induction false} LastOneBefore(str: string, i: nat, c: char)
    requires i < LastOne(str)
    ensures LastOne(str[i := c]) == LastOne(str)
    decreases |str|
  {
    var n := |str| - 1;
    if str[n] != '1' {
      assert str[i := c][..n] == str[..n][i := c];
      LastOneBefore(str[..n], i, c);
    }
  }
}
