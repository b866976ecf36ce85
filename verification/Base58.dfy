/** Base 58 strings (src/base58.h, src/base58.cpp). Bytes are numbers below 256. The Check variants take the hash
    as a parameter. */
module Base58 {
  import opened Arithmetic
  import opened Digits

  // ---------------------------------------------------------------------------------------------
  // The buffer
  // ---------------------------------------------------------------------------------------------

  /** Only the last n digits may be nonzero. */
  ghost predicate Within(d: seq<nat>, n: nat) { n <= |d| && forall i | 0 <= i < |d| - n :: d[i] == 0 }

  lemma {:induction false} WithinValue(d: seq<nat>, n: nat, base: nat)
    requires Within(d, n)
    ensures Value(d, base) == Value(d[|d| - n..], base)
    decreases |d|
  {
    if n < |d| {
      assert d == [0] + d[1..];
      ValueCons(0, d[1..], base);
      ProductZero(Pow(base, |d| - 1));
      WithinValue(d[1..], n, base);
      assert d[1..][|d| - 1 - n..] == d[|d| - n..];
    } else {
      assert d[0..] == d;
    }
  }

  /** The last i digits, already multiplied, and the carry above them, against the last i digits before. */
  ghost predicate Carrying(d: seq<nat>, s: seq<nat>, i: nat, carry: nat, factor: nat, add: nat, base: nat)
    requires i <= |d| == |s|
  {
    Value(d[|d| - i..], base) + Product(carry, Pow(base, i)) == Product(Value(s[|s| - i..], base), factor) + add
  }

  lemma CarryStart(s: seq<nat>, factor: nat, add: nat, base: nat)
    ensures Carrying(s, s, 0, add, factor, add, base)
  {
    assert s[|s|..] == [];
    ProductOne(add);
    ProductZero(factor);
  }

  lemma CarryStep(d: seq<nat>, s: seq<nat>, i: nat, carry: nat, factor: nat, add: nat, base: nat)
    requires base > 0 && i < |d| == |s| && d[|d| - 1 - i] == s[|d| - 1 - i] && Carrying(d, s, i, carry, factor, add, base)
    ensures var n := carry + Product(factor, d[|d| - 1 - i]);
      n / base >= 0 && Carrying(d[|d| - 1 - i := n % base], s, i + 1, n / base, factor, add, base)
  {
    hide Product, Value;
    var k, x := |d| - 1 - i, s[|d| - 1 - i];
    var n := carry + Product(factor, x);
    var d' := d[k := n % base];
    assert s[k..] == [x] + s[k + 1..];
    assert d'[k..] == [n % base] + d[k + 1..];
    ValueCons(x, s[k + 1..], base);
    ValueCons(n % base, d[k + 1..], base);
    CarryArithmetic(carry, factor, x, base, Pow(base, i), Value(d[k + 1..], base), Value(s[k + 1..], base), add);
    PowNext(base, i);
  }

  lemma PowNext(base: nat, i: nat)
    ensures Pow(base, i + 1) == Product(base, Pow(base, i))
  {
  }

  lemma CarryArithmetic(carry: nat, factor: nat, x: nat, base: nat, w: nat, v: nat, u: nat, add: nat)
    requires base > 0 && v + Product(carry, w) == Product(u, factor) + add
    ensures var n := carry + Product(factor, x);
      && n / base >= 0
      && Product(n % base, w) + v + Product(n / base, Product(base, w)) == Product(Product(x, w) + u, factor) + add
  {
    var n := carry + factor * x;
    assert n / base * (base * w) + n % base * w == (n / base * base + n % base) * w == n * w;
    assert n * w == carry * w + factor * x * w;
    assert (x * w + u) * factor == factor * x * w + u * factor;
  }

  /** Multiplies the number in the buffer and adds to it, in place. */
  method MultiplyAdd(b: array<nat>, base: nat, factor: nat, add: nat, length: nat) returns (length': nat)
    requires base > 1 && AreDigits(b[..], base) && Within(b[..], length)
    requires Product(Value(b[..], base), factor) + add < Pow(base, b.Length)
    modifies b
    ensures AreDigits(b[..], base) && Within(b[..], length')
    ensures Value(b[..], base) == Product(old(Value(b[..], base)), factor) + add
  {
    hide Value, Product, Carrying, Pow;
    ghost var s := b[..];
    var carry, i: nat := add, 0;
    CarryStart(s, factor, add, base);
    while (carry != 0 || i < length) && i < b.Length
      invariant i <= b.Length && carry >= 0 && Carrying(b[..], s, i, carry, factor, add, base)
      invariant AreDigits(b[..], base) && forall j | 0 <= j < b.Length - i :: b[j] == s[j]
      decreases b.Length - i
    {
      CarryStep(b[..], s, i, carry, factor, add, base);
      var k := b.Length - 1 - i;
      var n := carry + Product(factor, b[k]);
      b[k] := n % base;
      carry := n / base;
      i := i + 1;
    }
    CarryEnd(b[..], s, i, carry, factor, add, base, length);
    assert carry == 0;
    length' := i;
  }

  lemma CarryEnd(d: seq<nat>, s: seq<nat>, i: nat, carry: nat, factor: nat, add: nat, base: nat, length: nat)
    requires i <= |d| == |s| && Carrying(d, s, i, carry, factor, add, base) && Within(s, length)
    requires (carry == 0 && i >= length) || i == |d|
    requires forall j | 0 <= j < |d| - i :: d[j] == s[j]
    requires Product(Value(s, base), factor) + add < Pow(base, |s|)
    ensures carry == 0 && Within(d, i) && Value(d, base) == Product(Value(s, base), factor) + add
  {
    hide Value, Product, Pow;
    if i == |d| {
      assert d[0..] == d && s[0..] == s;
      if carry > 0 { AtLeastOne(carry, Pow(base, i)); }
    } else {
      assert Within(s, i) && Within(d, i);
      WithinValue(s, i, base);
      WithinValue(d, i, base);
    }
    ProductZero(Pow(base, i));
  }

  lemma AtLeastOne(c: nat, w: nat)
    requires c > 0
    ensures Product(c, w) >= w
  {
    LessProduct(1, c, w);
  }

  /** The place of the first nonzero digit, from where the digits in use start. */
  method SkipZeros(b: array<nat>, length: nat) returns (it: nat)
    requires Within(b[..], length)
    ensures it <= b.Length && b[it..] == Strip(b[..])
  {
    it := b.Length - length;
    while it != b.Length && b[it] == 0
      invariant it <= b.Length && forall j | 0 <= j < it :: b[j] == 0
    {
      it := it + 1;
    }
    StripAt(b[..], it);
  }

  lemma {:induction false} StripAt(d: seq<nat>, it: nat)
    requires it <= |d| && (forall j | 0 <= j < it :: d[j] == 0) && (it < |d| ==> d[it] != 0)
    ensures Strip(d) == d[it..]
    decreases it
  {
    if it > 0 {
      StripAt(d[1..], it - 1);
      assert d[1..][it - 1..] == d[it..];
    }
  }

  // ---------------------------------------------------------------------------------------------
  // Buffer sizes
  // ---------------------------------------------------------------------------------------------

  lemma PowersOf58()
    ensures Pow(2, 41) <= Pow(58, 7) && Pow(2, 29) <= Pow(58, 5)
    ensures Pow(58, 22) <= Pow(2, 129) && Pow(58, 10) <= Pow(2, 59)
  {
    PowTable2();
    PowTable58();
    hide Pow;
    PowAdd(2, 29, 12);
    PowAdd(2, 59, 59);
    PowAdd(2, 118, 11);
    PowAdd(58, 5, 2);
    PowAdd(58, 5, 5);
    PowAdd(58, 10, 10);
    PowAdd(58, 20, 2);
  }

  lemma PowTable2()
    ensures Pow(2, 11) == 0x800 && Pow(2, 12) == 0x1000 && Pow(2, 29) == 0x2000_0000
    ensures Pow(2, 59) == 0x800_0000_0000_0000 && Pow(2, 8) == 256
  {
    assert Pow(2, 4) == 16;
    PowAdd(2, 4, 4);
    PowAdd(2, 8, 3);
    PowAdd(2, 8, 4);
    PowAdd(2, 12, 12);
    PowAdd(2, 24, 5);
    PowAdd(2, 29, 29);
    PowAdd(2, 58, 1);
  }

  lemma PowTable58()
    ensures Pow(58, 2) == 3364 && Pow(58, 5) == 656356768
  {
    PowAdd(58, 2, 2);
    PowAdd(58, 4, 1);
  }

  /** 138 digits of base 58 hold a hundred bytes. */
  lemma HundredBytes()
    ensures Pow(256, 100) <= Pow(58, 138)
  {
    hide Pow;
    PowersOf58();
    PowTable2();
    PowPow(2, 8, 100);
    PowPow(58, 7, 19);
    PowPow(2, 41, 19);
    PowGrowsBase(Pow(2, 41), Pow(58, 7), 19);
    PowAdd(58, 133, 5);
    PowAdd(2, 779, 29);
    ProductGrows(Pow(2, 779), Pow(2, 29), Pow(58, 133), Pow(58, 5));
    PowGrowsExponent(2, 800, 808);
  }

  /** 733 bytes hold a thousand digits of base 58. */
  lemma ThousandDigits()
    ensures Pow(58, 1000) <= Pow(256, 733)
  {
    hide Pow;
    PowersOf58();
    PowTable2();
    PowPow(2, 8, 733);
    PowPow(58, 22, 45);
    PowPow(2, 129, 45);
    PowGrowsBase(Pow(58, 22), Pow(2, 129), 45);
    PowAdd(58, 990, 10);
    PowAdd(2, 5805, 59);
    ProductGrows(Pow(58, 990), Pow(58, 10), Pow(2, 5805), Pow(2, 59));
  }

  /** The buffer for encoding is large enough for every number of bytes. */
  lemma EncodeSizeSuffices(n: nat)
    ensures Pow(256, n) <= Pow(58, n * 138 / 100 + 1)
  {
    hide Pow;
    HundredBytes();
    PowerBound(256, 58, 100, 138, n, n * 138 / 100 + 1);
  }

  /** The buffer for decoding is large enough for every number of characters. */
  lemma DecodeSizeSuffices(n: nat)
    ensures Pow(58, n) <= Pow(256, n * 733 / 1000 + 1)
  {
    hide Pow;
    ThousandDigits();
    PowerBound(58, 256, 1000, 733, n, n * 733 / 1000 + 1);
  }

  // ---------------------------------------------------------------------------------------------
  // Characters
  // ---------------------------------------------------------------------------------------------

  /** pszBase58: the alphanumeric characters except for '0', 'I', 'O' and 'l', one piece for each row below. */
  const ALPHABET3: string := "123456789"
  const ALPHABET4: string := "ABCDEFGHJKLMN"
  const ALPHABET5: string := "PQRSTUVWXYZ"
  const ALPHABET6: string := "abcdefghijkmno"
  const ALPHABET7: string := "pqrstuvwxyz"

  function CharFor(k: nat): char
    requires k < 58
  {
    if k < 9 then ALPHABET3[k]
    else if k < 22 then ALPHABET4[k - 9]
    else if k < 33 then ALPHABET5[k - 22]
    else if k < 47 then ALPHABET6[k - 33]
    else ALPHABET7[k - 47]
  }

  /** mapBase58, in rows of sixteen from '0' on; the other rows hold no digits. */
  const ROW3: seq<int> := [-1, 0, 1, 2, 3, 4, 5, 6, 7, 8, -1, -1, -1, -1, -1, -1]
  const ROW4: seq<int> := [-1, 9, 10, 11, 12, 13, 14, 15, 16, -1, 17, 18, 19, 20, 21, -1]
  const ROW5: seq<int> := [22, 23, 24, 25, 26, 27, 28, 29, 30, 31, 32, -1, -1, -1, -1, -1]
  const ROW6: seq<int> := [-1, 33, 34, 35, 36, 37, 38, 39, 40, 41, 42, 43, -1, 44, 45, 46]
  const ROW7: seq<int> := [47, 48, 49, 50, 51, 52, 53, 54, 55, 56, 57, -1, -1, -1, -1, -1]

  function DigitFor(c: char): int {
    var i := c as int;
    if 48 <= i < 64 then ROW3[i - 48]
    else if 64 <= i < 80 then ROW4[i - 64]
    else if 80 <= i < 96 then ROW5[i - 80]
    else if 96 <= i < 112 then ROW6[i - 96]
    else if 112 <= i < 128 then ROW7[i - 112]
    else -1
  }

  lemma DigitRange(c: char)
    ensures -1 <= DigitFor(c) < 58
  {
  }

  predicate IsSpace(c: char) {
    c == ' ' || c == 12 as char || c == '\n' || c == '\r' || c == '\t' || c == 11 as char
  }

  ghost predicate Inverse(k: nat)
    requires k < 58
  {
    var c := CharFor(k);
    DigitFor(c) == k && !IsSpace(c) && c != '\0' && (c == '1' <==> k == 0)
  }

  lemma AlphabetInverse(k: nat)
    requires k < 58
    ensures Inverse(k)
  {
    hide Inverse;
    if k < 9 { Inverse3(k); } else if k < 22 { Inverse4(k); } else if k < 33 { Inverse5(k); }
    else if k < 47 { Inverse6(k); } else { Inverse7(k); }
  }

  lemma Inverse3(k: nat)
    requires k < 9
    ensures Inverse(k)
  {
  }

  lemma Inverse4(k: nat)
    requires 9 <= k < 22
    ensures Inverse(k)
  {
  }

  lemma Inverse5(k: nat)
    requires 22 <= k < 33
    ensures Inverse(k)
  {
  }

  lemma Inverse6(k: nat)
    requires 33 <= k < 47
    ensures Inverse(k)
  {
  }

  lemma Inverse7(k: nat)
    requires 47 <= k < 58
    ensures Inverse(k)
  {
  }

  lemma RowsInverse(c: char)
    requires DigitFor(c) >= 0
    ensures DigitFor(c) < 58 && CharFor(DigitFor(c)) == c
  {
    hide CharFor, ROW3, ROW4, ROW5, ROW6, ROW7;
    var i := c as int;
    if i < 64 { Row3(i - 48); } else if i < 80 { Row4(i - 64); } else if i < 96 { Row5(i - 80); }
    else if i < 112 { Row6(i - 96); } else { Row7(i - 112); }
  }

  lemma Row3(i: nat)
    requires i < 16 && ROW3[i] >= 0
    ensures ROW3[i] < 58 && CharFor(ROW3[i]) == (48 + i) as char
  {
  }

  lemma Row4(i: nat)
    requires i < 16 && ROW4[i] >= 0
    ensures ROW4[i] < 58 && CharFor(ROW4[i]) == (64 + i) as char
  {
  }

  lemma Row5(i: nat)
    requires i < 16 && ROW5[i] >= 0
    ensures ROW5[i] < 58 && CharFor(ROW5[i]) == (80 + i) as char
  {
  }

  lemma Row6(i: nat)
    requires i < 16 && ROW6[i] >= 0
    ensures ROW6[i] < 58 && CharFor(ROW6[i]) == (96 + i) as char
  {
  }

  lemma Row7(i: nat)
    requires i < 16 && ROW7[i] >= 0
    ensures ROW7[i] < 58 && CharFor(ROW7[i]) == (112 + i) as char
  {
  }

  // ---------------------------------------------------------------------------------------------
  // What the strings stand for
  // ---------------------------------------------------------------------------------------------

  /** How many copies of x a list starts with. */
  function Leading<T(==)>(s: seq<T>, x: T): (n: nat)
    ensures n <= |s|
  {
    if s != [] && s[0] == x then 1 + Leading(s[1..], x) else 0
  }

  lemma {:induction false} LeadingIs<T>(s: seq<T>, x: T, n: nat)
    requires n <= |s| && (forall i | 0 <= i < n :: s[i] == x) && (n < |s| ==> s[n] != x)
    ensures Leading(s, x) == n
    decreases n
  {
    if n > 0 { LeadingIs(s[1..], x, n - 1); }
  }

  lemma {:induction false} LeadingHolds<T>(s: seq<T>, x: T)
    ensures var n := Leading(s, x); (forall i | 0 <= i < n :: s[i] == x) && (n < |s| ==> s[n] != x)
  {
    if s != [] && s[0] == x {
      var n := Leading(s[1..], x);
      LeadingHolds(s[1..], x);
      forall i | 0 <= i < n + 1 ensures s[i] == x { if i > 0 { assert s[i] == s[1..][i - 1]; } }
      if n + 1 < |s| { assert s[n + 1] == s[1..][n]; }
    }
  }

  function Repeat<T>(x: T, n: nat): seq<T> { seq(n, _ => x) }

  function Chars(d: seq<nat>): string
    requires AreDigits(d, 58)
  {
    seq(|d|, i requires 0 <= i < |d| => CharFor(d[i]))
  }

  predicate AllDigits(s: string) { forall i | 0 <= i < |s| :: DigitFor(s[i]) >= 0 }

  function DigitsFor(s: string): (d: seq<nat>)
    requires AllDigits(s)
    ensures |d| == |s|
  {
    seq(|s|, i requires 0 <= i < |s| => DigitFor(s[i]))
  }

  ghost function Encoded(vch: seq<nat>): string
    requires AreDigits(vch, 256)
  {
    var zeroes := Leading(vch, 0);
    var d := DigitsOf(Value(vch[zeroes..], 256), 58);
    DigitsValue(Value(vch[zeroes..], 256), 58);
    Repeat('1', zeroes) + Chars(d)
  }

  /** A C string ends at its first zero character. */
  function CString(str: string): string {
    if str == [] || str[0] == '\0' then [] else [str[0]] + CString(str[1..])
  }

  function SkipSpaces(s: string): string { if s != [] && IsSpace(s[0]) then SkipSpaces(s[1..]) else s }

  /** The length of the part before the first space. */
  function WordLength(s: string): (n: nat)
    ensures n <= |s|
  {
    if s == [] || IsSpace(s[0]) then 0 else 1 + WordLength(s[1..])
  }

  datatype Option<T> = None | Some(value: T)

  ghost function DecodedString(str: string): Option<seq<nat>> {
    var s := SkipSpaces(CString(str));
    var zeroes := Leading(s, '1');
    var t := s[zeroes..];
    var n := WordLength(t);
    if !AllDigits(t[..n]) || SkipSpaces(t[n..]) != [] then None
    else Some(Repeat(0, zeroes) + DigitsOf(Value(DigitsFor(t[..n]), 58), 256))
  }

  // ---------------------------------------------------------------------------------------------
  // Round trips
  // ---------------------------------------------------------------------------------------------

  lemma DigitsOfChars(d: seq<nat>)
    requires AreDigits(d, 58)
    ensures AllDigits(Chars(d)) && DigitsFor(Chars(d)) == d
    ensures forall i | 0 <= i < |d| :: !IsSpace(Chars(d)[i]) && Chars(d)[i] != '\0' && (Chars(d)[i] == '1' <==> d[i] == 0)
  {
    hide CharFor, DigitFor, IsSpace;
    forall i | 0 <= i < |d|
      ensures DigitFor(Chars(d)[i]) == d[i] && !IsSpace(Chars(d)[i]) && Chars(d)[i] != '\0'
      ensures Chars(d)[i] == '1' <==> d[i] == 0
    {
      AlphabetInverse(d[i]);
    }
  }

  lemma CharsOfDigits(s: string)
    requires AllDigits(s)
    ensures AreDigits(DigitsFor(s), 58) && Chars(DigitsFor(s)) == s
  {
    hide CharFor, DigitFor;
    forall i | 0 <= i < |s| ensures DigitFor(s[i]) < 58 && CharFor(DigitFor(s[i])) == s[i] { RowsInverse(s[i]); }
  }

  /** A string of characters that are neither spaces nor zero is read as a whole. */
  ghost predicate Plain(s: string) { forall i | 0 <= i < |s| :: !IsSpace(s[i]) && s[i] != '\0' }

  lemma {:induction false} PlainWhole(s: string)
    requires Plain(s)
    ensures CString(s) == s && SkipSpaces(s) == s && WordLength(s) == |s|
    decreases |s|
  {
    hide IsSpace;
    if s != [] {
      PlainWhole(s[1..]);
      assert s == [s[0]] + s[1..];
    }
  }

  lemma DecodedPlain(s: string)
    requires Plain(s)
    ensures var zeroes := Leading(s, '1');
      DecodedString(s) == if AllDigits(s[zeroes..])
                          then Some(Repeat(0, zeroes) + DigitsOf(Value(DigitsFor(s[zeroes..]), 58), 256)) else None
  {
    hide CString, WordLength, IsSpace, Value, DigitsOf, DigitsFor, AllDigits;
    PlainWhole(s);
    var t := s[Leading(s, '1')..];
    PlainWhole(t);
    assert t[..|t|] == t && t[|t|..] == [];
  }

  /** Decoding inverts encoding. */
  lemma DecodeEncoded(vch: seq<nat>)
    requires AreDigits(vch, 256)
    ensures DecodedString(Encoded(vch)) == Some(vch)
  {
    hide Value, DigitsOf, DigitsFor, Chars, AllDigits, DecodedString, CharFor, IsSpace;
    var zeroes := Leading(vch, 0);
    LeadingHolds(vch, 0);
    var rest := vch[zeroes..];
    var v := Value(rest, 256);
    var d := DigitsOf(v, 58);
    DigitsValue(v, 58);
    DigitsOfChars(d);
    ValueNone(256, 58);
    var s := Encoded(vch);
    CharsLength(d);
    OneIsPlain();
    assert Plain(s);
    LeadingIs(s, '1', zeroes);
    assert s[zeroes..] == Chars(d);
    DecodedPlain(s);
    ValueDigits(rest, 256);
    assert vch == Repeat(0, zeroes) + rest;
  }

  lemma OneIsPlain()
    ensures !IsSpace('1')
  {
  }

  lemma CharsLength(d: seq<nat>)
    requires AreDigits(d, 58)
    ensures |Chars(d)| == |d|
  {
  }

  lemma ValueNone(base: nat, base': nat)
    requires base' > 1
    ensures Value([], base) == 0 && DigitsOf(0, base') == []
  {
  }

  /** Encoding inverts decoding on accepted strings without spaces. */
  lemma EncodeDecoded(s: string)
    requires Plain(s) && DecodedString(s).Some?
    ensures AreDigits(DecodedString(s).value, 256) && Encoded(DecodedString(s).value) == s
  {
    hide Value, DigitsOf, DigitsFor, Chars, AllDigits, DecodedString, CharFor, IsSpace, DigitFor;
    var zeroes := Leading(s, '1');
    LeadingHolds(s, '1');
    DecodedPlain(s);
    var t := s[zeroes..];
    var d := DigitsFor(t);
    CharsOfDigits(t);
    DigitsOfChars(d);
    var v := Value(d, 58);
    var bytes := DigitsOf(v, 256);
    DigitsValue(v, 256);
    ValueDigits(d, 58);
    ValueNone(58, 256);
    var vch := Repeat(0, zeroes) + bytes;
    LeadingIs(vch, 0, zeroes);
    assert vch[zeroes..] == bytes;
    assert s == Repeat('1', zeroes) + t;
  }

  // ---------------------------------------------------------------------------------------------
  // The operations
  // ---------------------------------------------------------------------------------------------

  method EncodeBase58(vch: seq<nat>) returns (str: string)
    requires AreDigits(vch, 256)
    ensures str == Encoded(vch)
  {
    hide Value, Pow, Strip, Product, DigitsOf;
    var zeroes := 0;
    while zeroes != |vch| && vch[zeroes] == 0
      invariant zeroes <= |vch| && forall i | 0 <= i < zeroes :: vch[i] == 0
    {
      zeroes := zeroes + 1;
    }
    LeadingIs(vch, 0, zeroes);
    ghost var rest := vch[zeroes..];
    var digits := Convert(vch[zeroes..], |vch[zeroes..]| * 138 / 100 + 1, 256, 58);
    DigitsValue(Value(rest, 256), 58);
    str := Repeat('1', zeroes);
    for i := 0 to |digits|
      invariant str == Repeat('1', zeroes) + Chars(digits[..i])
    {
      str := str + [CharFor(digits[i])];
      assert Chars(digits[..i + 1]) == Chars(digits[..i]) + [CharFor(digits[i])];
    }
    assert digits[..|digits|] == digits;
  }

  /** Rewrites digits of one base as digits of another, in a buffer of the given size. */
  method Convert(d: seq<nat>, size: nat, from: nat, to: nat) returns (r: seq<nat>)
    requires from > 1 && to > 1 && AreDigits(d, from)
    requires (from == 256 && to == 58 && size == |d| * 138 / 100 + 1)
          || (from == 58 && to == 256 && exists n: nat :: |d| <= n && size == n * 733 / 1000 + 1)
    ensures r == DigitsOf(Value(d, from), to)
  {
    hide Value, Pow, Strip, Product, DigitsOf;
    SizeSuffices(d, size, from, to);
    var b := new nat[size](_ => 0);
    var length := 0;
    ZeroBuffer(b[..], from, to);
    for k := 0 to |d|
      invariant AreDigits(b[..], to) && Within(b[..], length) && Value(b[..], to) == Value(d[..k], from)
    {
      NextDigit(d, k, size, from, to);
      length := MultiplyAdd(b, to, from, d[k], length);
    }
    assert d[..|d|] == d;
    var it := SkipZeros(b, length);
    StripValue(b[..], to);
    r := b[it..];
  }

  lemma ZeroBuffer(b: seq<nat>, from: nat, to: nat)
    requires forall i | 0 <= i < |b| :: b[i] == 0
    ensures Value(b, to) == 0 == Value([], from)
  {
    WithinValue(b, 0, to);
    assert b[|b|..] == [];
  }

  lemma SizeSuffices(d: seq<nat>, size: nat, from: nat, to: nat)
    requires (from == 256 && to == 58 && size == |d| * 138 / 100 + 1)
          || (from == 58 && to == 256 && exists n: nat :: |d| <= n && size == n * 733 / 1000 + 1)
    ensures Pow(from, |d|) <= Pow(to, size)
  {
    hide Pow;
    if from == 256 {
      EncodeSizeSuffices(|d|);
    } else {
      var n: nat :| |d| <= n && size == n * 733 / 1000 + 1;
      PowGrowsExponent(58, |d|, n);
      DecodeSizeSuffices(n);
    }
  }

  /** The number after the next digit still fits the buffer. */
  lemma NextDigit(d: seq<nat>, k: nat, size: nat, from: nat, to: nat)
    requires from > 1 && AreDigits(d, from) && k < |d| && Pow(from, |d|) <= Pow(to, size)
    ensures Value(d[..k + 1], from) == Product(Value(d[..k], from), from) + d[k] < Pow(to, size)
  {
    hide Pow, Product;
    assert d[..k + 1][..k] == d[..k];
    ValueBound(d[..k + 1], from);
    PowGrowsExponent(from, k + 1, |d|);
  }

  method DecodeBase58(str: string) returns (ok: bool, vch: seq<nat>)
    ensures DecodedString(str) == if ok then Some(vch) else None
  {
    hide Value, DigitsOf, AllDigits, DigitsFor, CString, SkipSpaces, WordLength, IsSpace;
    var s := ToCString(str);
    s := DropSpaces(s);
    var zeroes := 0;
    while zeroes < |s| && s[zeroes] == '1'
      invariant zeroes <= |s| && forall i | 0 <= i < zeroes :: s[i] == '1'
    {
      zeroes := zeroes + 1;
    }
    LeadingIs(s, '1', zeroes);
    var t := s[zeroes..];
    var n, digits;
    ok, n, digits := ReadWord(t);
    if !ok {
      return false, [];
    }
    var after := DropSpaces(t[n..]);
    if after != [] {
      return false, [];
    }
    AreDigitsFor(t[..n]);
    var bytes := Convert(digits, |t| * 733 / 1000 + 1, 58, 256);
    return true, Repeat(0, zeroes) + bytes;
  }

  lemma AreDigitsFor(s: string)
    requires AllDigits(s)
    ensures AreDigits(DigitsFor(s), 58)
  {
    hide DigitFor;
    forall i | 0 <= i < |s| ensures DigitFor(s[i]) < 58 { DigitRange(s[i]); }
  }

  method ToCString(str: string) returns (s: string)
    ensures s == CString(str)
  {
    var n := 0;
    while n < |str| && str[n] != '\0'
      invariant n <= |str| && CString(str) == str[..n] + CString(str[n..])
    {
      assert str[n..][1..] == str[n + 1..];
      n := n + 1;
    }
    s := str[..n];
  }

  method DropSpaces(s: string) returns (t: string)
    ensures t == SkipSpaces(s)
  {
    t := s;
    while t != [] && IsSpace(t[0])
      invariant SkipSpaces(t) == SkipSpaces(s)
      decreases |t|
    {
      t := t[1..];
    }
  }

  /** The digits before the first space, or failure at a character that is no digit. */
  method ReadWord(t: string) returns (ok: bool, n: nat, digits: seq<nat>)
    ensures ok <==> AllDigits(t[..WordLength(t)])
    ensures ok ==> n == WordLength(t) && digits == DigitsFor(t[..n])
  {
    hide DigitFor, IsSpace;
    n, digits := 0, [];
    while n < |t| && !IsSpace(t[n])
      invariant n <= |t| && WordLength(t) == n + WordLength(t[n..])
      invariant AllDigits(t[..n]) && digits == DigitsFor(t[..n])
    {
      var d := DigitFor(t[n]);
      DigitRange(t[n]);
      assert t[n..][1..] == t[n + 1..];
      if d == -1 {
        assert t[..WordLength(t)][n] == t[n];
        return false, n, digits;
      }
      assert AllDigits(t[..n + 1]);
      digits := digits + [d];
      n := n + 1;
    }
    return true, n, digits;
  }

  // ---------------------------------------------------------------------------------------------
  // Checksums
  // ---------------------------------------------------------------------------------------------

  /** The first four bytes of a hash. */
  ghost predicate IsHash(hash: seq<nat> -> seq<nat>) { forall v :: |hash(v)| == 4 && AreDigits(hash(v), 256) }

  method EncodeBase58Check(vchIn: seq<nat>, hash: seq<nat> -> seq<nat>) returns (str: string)
    requires AreDigits(vchIn, 256) && IsHash(hash)
    ensures str == Encoded(vchIn + hash(vchIn))
  {
    hide Encoded;
    var vch := vchIn + hash(vchIn);
    str := EncodeBase58(vch);
  }

  /** What DecodeBase58Check accepts: a string for some bytes followed by their hash. */
  ghost function CheckedString(str: string, hash: seq<nat> -> seq<nat>): Option<seq<nat>> {
    match DecodedString(str)
    case None => None
    case Some(v) => if |v| >= 4 && v[|v| - 4..] == hash(v[..|v| - 4]) then Some(v[..|v| - 4]) else None
  }

  method DecodeBase58Check(str: string, hash: seq<nat> -> seq<nat>) returns (ok: bool, vch: seq<nat>)
    ensures CheckedString(str, hash) == if ok then Some(vch) else None
    ensures !ok ==> vch == []
  {
    hide DecodedString;
    ok, vch := DecodeBase58(str);
    if !ok || |vch| < 4 {
      return false, [];
    }
    if vch[|vch| - 4..] != hash(vch[..|vch| - 4]) {
      return false, [];
    }
    vch := vch[..|vch| - 4];
  }

  /** Encoding with a checksum and decoding gives the bytes back. */
  lemma CheckRoundTrip(vch: seq<nat>, hash: seq<nat> -> seq<nat>)
    requires AreDigits(vch, 256) && IsHash(hash)
    ensures CheckedString(Encoded(vch + hash(vch)), hash) == Some(vch)
  {
    hide Encoded, DecodedString;
    var v := vch + hash(vch);
    DecodeEncoded(v);
    assert v[..|v| - 4] == vch && v[|v| - 4..] == hash(vch);
  }

  /** A string without spaces is accepted with a checksum only if it encodes bytes and their hash. */
  lemma CheckOnlyEncoded(str: string, hash: seq<nat> -> seq<nat>)
    requires Plain(str) && CheckedString(str, hash).Some?
    ensures var v := CheckedString(str, hash).value; AreDigits(v + hash(v), 256) && Encoded(v + hash(v)) == str
  {
    hide Encoded, DecodedString;
    EncodeDecoded(str);
    var w := DecodedString(str).value;
    assert w == w[..|w| - 4] + w[|w| - 4..];
  }
}
