/** Golomb-coded sets, GCSFilter (src/blockfilter.h, src/blockfilter.cpp), over bit streams. SipHash is a
    parameter. */
module BlockFilter {
  import opened Arithmetic
  import opened BitStream
  import opened Serialize

  // ---------------------------------------------------------------------------------------------
  // MapIntoRange
  // ---------------------------------------------------------------------------------------------

  const HALF: nat := 0x1_0000_0000

  type Word = x: int | 0 <= x < WORD

  /** The multiplication in 32-bit pieces gives the upper half of the product, and no 64-bit step overflows. */
  method MapIntoRange(x: Word, n: Word) returns (r: nat)
    ensures r == x * n / WORD && (n > 0 ==> r < n)
  {
    var x_hi, x_lo := x / HALF, x % HALF;
    var n_hi, n_lo := n / HALF, n % HALF;
    Pieces(x_hi, x_lo, n_hi, n_lo);
    var ac, ad, bc, bd := x_hi * n_hi, x_hi * n_lo, x_lo * n_hi, x_lo * n_lo;
    assert ac < WORD && ad < WORD && bc < WORD && bd < WORD;
    var mid34 := bd / HALF + bc % HALF + ad % HALF;
    var upper64 := ac + bc / HALF + ad / HALF + mid34 / HALF;
    UpperHalf(x, n, ac, ad, bc, bd);
    assert mid34 < WORD && upper64 < WORD;
    return upper64;
  }

  lemma Pieces(a: nat, b: nat, c: nat, d: nat)
    requires a < HALF && b < HALF && c < HALF && d < HALF
    ensures 0 <= a * c < WORD && 0 <= a * d < WORD && 0 <= b * c < WORD && 0 <= b * d < WORD
    ensures (HALF * a + b) * (HALF * c + d) == a * c * WORD + (a * d + b * c) * HALF + b * d
  {
    SmallProduct(a, c);
    SmallProduct(a, d);
    SmallProduct(b, c);
    SmallProduct(b, d);
  }

  lemma SmallProduct(a: nat, b: nat)
    requires a < HALF && b < HALF
    ensures 0 <= a * b < WORD
  {
    LessProduct(0, a, b);
    LessProduct(a, HALF - 1, b);
  }

  lemma UpperHalf(x: Word, n: Word, ac: nat, ad: nat, bc: nat, bd: nat)
    requires x * n == ac * WORD + (ad + bc) * HALF + bd && bd < WORD
    ensures var mid34 := bd / HALF + bc % HALF + ad % HALF;
      var upper64 := ac + bc / HALF + ad / HALF + mid34 / HALF;
      upper64 == x * n / WORD && (n > 0 ==> upper64 < n) && upper64 < WORD
  {
    var mid34 := bd / HALF + bc % HALF + ad % HALF;
    var upper64 := ac + bc / HALF + ad / HALF + mid34 / HALF;
    var p := x * n;
    assert p == upper64 * WORD + (mid34 % HALF * HALF + bd % HALF);
    DivisionUnique(p, WORD, upper64, mid34 % HALF * HALF + bd % HALF);
    ProductBelow(x, n);
  }

  lemma ProductBelow(x: Word, n: Word)
    ensures n > 0 ==> x * n / WORD < n
    ensures x * n / WORD < WORD
  {
    LessProduct(x, WORD - 1, n);
    QuotientGrows(x * n, (WORD - 1) * n, WORD);
    if n > 0 {
      DivisionUnique((WORD - 1) * n, WORD, n - 1, WORD - n);
    }
  }

  // ---------------------------------------------------------------------------------------------
  // Golomb-Rice codes
  // ---------------------------------------------------------------------------------------------

  function Ones(n: nat): seq<bool> { seq(n, _ => true) }

  /** The quotient by 2^P in ones, a zero, and the remainder in P bits. */
  function Code(x: nat, P: nat): seq<bool> { Ones(Shr(x, P)) + [false] + BitsOf(x, P) }

  function LeadingOnes(b: seq<bool>): (n: nat)
    ensures n <= |b|
  {
    if b != [] && b[0] then 1 + LeadingOnes(b[1..]) else 0
  }

  /** The next number of a bit stream, in 64-bit arithmetic, and the bits after it. */
  function Decoded(b: seq<bool>, P: nat): Option<(nat, seq<bool>)> {
    var q := LeadingOnes(b);
    if q + 1 + P > |b| then None
    else Some(((Scale(q, P) + NumberOf(b[q + 1..q + 1 + P])) % WORD, b[q + 1 + P..]))
  }

  lemma {:induction false} LeadingOnesOf(n: nat, rest: seq<bool>)
    ensures LeadingOnes(Ones(n) + [false] + rest) == n
  {
    var b := Ones(n) + [false] + rest;
    if n > 0 {
      assert b[1..] == Ones(n - 1) + [false] + rest;
      LeadingOnesOf(n - 1, rest);
    }
  }

  lemma CodeRoundTrip(x: nat, P: nat, rest: seq<bool>)
    requires x < WORD
    ensures Decoded(Code(x, P) + rest, P) == Some((x, rest))
  {
    hide Scale, Shr, BitsOf, NumberOf, Pow2, LeadingOnes;
    var q, b := Shr(x, P), Code(x, P) + rest;
    assert b == Ones(q) + [false] + (BitsOf(x, P) + rest);
    LeadingOnesOf(q, BitsOf(x, P) + rest);
    assert b[q + 1..q + 1 + P] == BitsOf(x, P);
    assert b[q + 1 + P..] == rest;
    BitsModulo(x, P);
    QuotientRemainder(x, P);
  }

  lemma QuotientRemainder(x: nat, P: nat)
    ensures Scale(Shr(x, P), P) + x % Pow2(P) == x
  {
    hide Pow2;
  }

  lemma {:induction false} AllOnes(n: nat, k: nat)
    requires n <= k
    ensures BitsOf(Pow2(k) - 1, n) == Ones(n)
  {
    if n > 0 {
      AllOnes(n - 1, k - 1);
      assert Ones(n) == Ones(n - 1) + [true];
    }
  }

  method GolombRiceEncode(w: BitStreamWriter, P: nat, x: nat)
    requires w.Valid() && P < 64 && x < WORD
    modifies w
    ensures w.Valid() && w.Written() == old(w.Written()) + Code(x, P)
    ensures AreBytes(old(w.out)) ==> AreBytes(w.out)
  {
    hide Shr, BitsOf, Pow2, StreamBits, AreBytes;
    var q := Shr(x, P);
    ghost var total, before := q, w.Written();
    assert Ones(0) == [];
    while q > 0
      invariant q <= total && w.Valid() && w.Written() == before + Ones(total - q)
      invariant AreBytes(old(w.out)) ==> AreBytes(w.out)
    {
      var nbits := if q <= 64 then q else 64;
      WordIsPower();
      AllOnes(nbits, 64);
      assert Ones(total - q) + Ones(nbits) == Ones(total - q + nbits);
      w.Write(WORD - 1, nbits);
      q := q - nbits;
    }
    w.Write(0, 1);
    ZeroBits(1);
    assert Zeros(1) == [false];
    w.Write(x, P);
  }

  method GolombRiceDecode(r: BitStreamReader, P: nat) returns (ok: bool, x: nat)
    requires r.Valid() && AreBytes(r.bytes) && P < 64
    modifies r
    ensures r.Valid() && AreBytes(r.bytes)
    ensures match Decoded(old(r.Remaining()), P)
      case None => !ok
      case Some(d) => ok && x == d.0 && r.Remaining() == d.1
  {
    hide Scale, NumberOf, StreamBits, Pow2, AreBytes, LeadingOnes;
    ghost var b := r.Remaining();
    var q: nat := 0;
    x := 0;
    UnaryStart(b);
    while true
      invariant r.Valid() && AreBytes(r.bytes) && q <= |b| && r.Remaining() == b[q..]
      invariant LeadingOnes(b) == q + LeadingOnes(b[q..])
      decreases |b| - q
    {
      var bit;
      UnaryStep(b, q);
      ok, bit := r.Read(1);
      if !ok {
        return;
      }
      FirstBit(b, q);
      if bit != 1 {
        break;
      }
      q := q + 1;
    }
    var rest;
    ok, rest := r.Read(P);
    if ok {
      assert b[q + 1..][..P] == b[q + 1..q + 1 + P] && b[q + 1..][P..] == b[q + 1 + P..];
      x := (Scale(q, P) + rest) % WORD;
    }
  }

  lemma UnaryStart(b: seq<bool>)
    ensures b[0..] == b
  {
  }

  lemma UnaryStep(b: seq<bool>, q: nat)
    requires q <= |b|
    ensures q == |b| ==> LeadingOnes(b[q..]) == 0
    ensures q < |b| && b[q] ==> LeadingOnes(b[q..]) == 1 + LeadingOnes(b[q + 1..])
    ensures q < |b| && !b[q] ==> LeadingOnes(b[q..]) == 0
  {
    if q < |b| { assert b[q..][1..] == b[q + 1..]; }
  }

  lemma FirstBit(b: seq<bool>, q: nat)
    requires q < |b|
    ensures NumberOf(b[q..][..1]) == (if b[q] then 1 else 0) && b[q..][1..] == b[q + 1..]
  {
    assert b[q..][..1] == [b[q]];
    assert [b[q]][..0] == [];
  }

  // ---------------------------------------------------------------------------------------------
  // Filters
  // ---------------------------------------------------------------------------------------------

  type Element = seq<bv8>

  /** The Golomb-Rice parameter and the inverse false positive rate. */
  datatype Params = Params(P: nat, M: nat) {
    predicate Valid() { P < 64 && M < 0x1_0000_0000 }
  }

  /** m_N, m_F and m_encoded. */
  datatype Filter = Filter(params: Params, N: nat, F: nat, encoded: seq<nat>)

  ghost predicate Sorted(s: seq<nat>) { forall i, j | 0 <= i < j < |s| :: s[i] <= s[j] }

  /** The codes of the differences of a list, from a last value on. */
  function DeltaBits(values: seq<nat>, last: nat, P: nat): seq<bool>
    requires values != [] ==> last <= values[0]
    requires forall i | 0 <= i < |values| - 1 :: values[i] <= values[i + 1]
  {
    if values == [] then [] else Code(values[0] - last, P) + DeltaBits(values[1..], values[0], P)
  }

  /** The filter holds these hashes, in order. */
  ghost predicate Holds(f: Filter, values: seq<nat>, body: seq<nat>) {
    && f.params.Valid() && f.N == |values| < 0x1_0000_0000 && f.F == f.N * f.params.M
    && Sorted(values) && (forall i | 0 <= i < |values| :: values[i] < WORD)
    && f.encoded == SizeBytes(f.N) + body && AreBytes(body)
    && exists pad | 0 <= pad < 8 :: StreamBits(body) == Deltas(values, f.params.P) + Zeros(pad)
  }

  ghost function Deltas(values: seq<nat>, P: nat): seq<bool>
    requires Sorted(values)
  {
    DeltaBits(values, 0, P)
  }

  /** The values that n codes of a bit stream stand for, from a last value on, and the bits after them. */
  function ReadValues(b: seq<bool>, n: nat, last: nat, P: nat): Option<(seq<nat>, seq<bool>)>
    decreases n
  {
    if n == 0 then Some(([], b))
    else
      match Decoded(b, P)
      case None => None
      case Some(d) =>
        var value := (last + d.0) % WORD;
        match ReadValues(d.1, n - 1, value, P)
        case None => None
        case Some(r) => Some(([value] + r.0, r.1))
  }

  lemma {:induction false} DeltasRoundTrip(values: seq<nat>, last: nat, P: nat, rest: seq<bool>)
    requires Sorted(values) && (values != [] ==> last <= values[0]) && forall i | 0 <= i < |values| :: values[i] < WORD
    ensures ReadValues(DeltaBits(values, last, P) + rest, |values|, last, P) == Some((values, rest))
    decreases |values|
  {
    hide Code, Decoded;
    var b := DeltaBits(values, last, P) + rest;
    if values == [] {
      assert b == rest;
    } else {
      var x, tail := values[0], DeltaBits(values[1..], values[0], P) + rest;
      assert b == Code(x - last, P) + tail;
      CodeRoundTrip(x - last, P, tail);
      SmallWord(x);
      DeltasRoundTrip(values[1..], x, P, rest);
      assert values == [x] + values[1..];
    }
  }

  lemma SmallWord(x: nat)
    requires x < WORD
    ensures x % WORD == x
  {
  }

  // ---------------------------------------------------------------------------------------------
  // Building a filter
  // ---------------------------------------------------------------------------------------------

  function Ranged(h: Word, F: nat): nat {
    LessProduct(0, h, F);
    QuotientBound(h * F, WORD);
    h * F / WORD
  }

  function Hashes(hash: Element -> Word, F: nat, elements: seq<Element>): seq<nat> {
    seq(|elements|, i requires 0 <= i < |elements| => Ranged(hash(elements[i]), F))
  }

  /** Puts a number in its place. */
  function Insert(s: seq<nat>, x: nat): seq<nat> {
    if s == [] || s[|s| - 1] <= x then s + [x] else Insert(s[..|s| - 1], x) + [s[|s| - 1]]
  }

  lemma {:induction false} InsertSorted(s: seq<nat>, x: nat)
    requires Sorted(s)
    ensures Sorted(Insert(s, x))
    decreases |s|
  {
    if s != [] && s[|s| - 1] > x {
      var n := |s| - 1;
      InsertSorted(s[..n], x);
      InsertBound(s[..n], x, s[n]);
    }
  }

  lemma {:induction false} InsertBound(s: seq<nat>, x: nat, y: nat)
    requires x <= y && forall i | 0 <= i < |s| :: s[i] <= y
    ensures forall i | 0 <= i < |Insert(s, x)| :: Insert(s, x)[i] <= y
    decreases |s|
  {
    if s != [] && s[|s| - 1] > x { InsertBound(s[..|s| - 1], x, y); }
  }

  lemma {:induction false} InsertMembers(s: seq<nat>, x: nat)
    ensures multiset(Insert(s, x)) == multiset(s) + multiset{x}
    decreases |s|
  {
    if s != [] && s[|s| - 1] > x {
      InsertMembers(s[..|s| - 1], x);
      assert s == s[..|s| - 1] + [s[|s| - 1]];
    }
  }

  /** The elements, in whatever order the set gives them, hashed into the range and sorted. */
  method BuildHashedSet(hash: Element -> Word, F: nat, elements: seq<Element>) returns (r: seq<nat>)
    requires F < WORD
    ensures Sorted(r) && |r| == |elements| && multiset(r) == multiset(Hashes(hash, F, elements))
    ensures forall i | 0 <= i < |r| :: r[i] < WORD
  {
    r := [];
    ghost var h := Hashes(hash, F, elements);
    for i := 0 to |elements|
      invariant Sorted(r) && |r| == i && multiset(r) == multiset(h[..i])
    {
      var x := MapIntoRange(hash(elements[i]), F);
      InsertSorted(r, x);
      InsertMembers(r, x);
      InsertLength(r, x);
      assert h[..i + 1] == h[..i] + [h[i]];
      r := Insert(r, x);
    }
    assert h[..|h|] == h;
    forall i | 0 <= i < |r| ensures r[i] < WORD {
      assert r[i] in multiset(h);
      var j :| 0 <= j < |h| && h[j] == r[i];
      ProductBelow(hash(elements[j]), F);
    }
  }

  lemma {:induction false} InsertLength(s: seq<nat>, x: nat)
    ensures |Insert(s, x)| == |s| + 1
    decreases |s|
  {
    if s != [] && s[|s| - 1] > x { InsertLength(s[..|s| - 1], x); }
  }

  lemma {:induction false} DeltaAppend(values: seq<nat>, last: nat, P: nat, i: nat)
    requires Sorted(values) && i < |values| && last <= values[0]
    ensures DeltaBits(values[..i + 1], last, P)
         == DeltaBits(values[..i], last, P) + Code(values[i] - (if i == 0 then last else values[i - 1]), P)
    decreases i
  {
    hide Code;
    var a, b := values[..i + 1], values[..i];
    if i == 0 {
      assert a == [values[0]] && a[1..] == [] && b == [];
    } else {
      DeltaAppend(values[1..], values[0], P, i - 1);
      assert a[1..] == values[1..][..i] && b[1..] == values[1..][..i - 1];
    }
  }

  /** Builds the filter of a set of elements, given that there are fewer than 2^32 of them. */
  method Build(params: Params, hash: Element -> Word, elements: seq<Element>)
    returns (r: Option<Filter>, ghost values: seq<nat>, ghost body: seq<nat>)
    requires params.Valid()
    ensures r.Some? <==> |elements| < 0x1_0000_0000
    ensures r.Some? ==> Holds(r.value, values, body) && r.value.params == params
    ensures r.Some? ==> multiset(values) == multiset(Hashes(hash, r.value.F, elements))
  {
    hide Hashes, DeltaBits, SizeBytes, StreamBits, Code, Ranged;
    values, body := [], [];
    var N := |elements|;
    if N >= 0x1_0000_0000 {
      return None, values, body;
    }
    RangeFits(N, params.M);
    var F := N * params.M;
    var hashed := BuildHashedSet(hash, F, elements);
    var bytes := EncodeValues(hashed, params.P);
    values, body := hashed, bytes;
    r := Some(Filter(params, N, F, SizeBytes(N) + bytes));
  }

  lemma RangeFits(n: nat, m: nat)
    requires n < HALF && m < HALF
    ensures 0 <= n * m < WORD
  {
    SmallProduct(n, m);
  }

  method EncodeValues(values: seq<nat>, P: nat) returns (bytes: seq<nat>)
    requires Sorted(values) && P < 64 && forall i | 0 <= i < |values| :: values[i] < WORD
    ensures AreBytes(bytes) && exists pad | 0 <= pad < 8 :: StreamBits(bytes) == Deltas(values, P) + Zeros(pad)
  {
    hide StreamBits, Code;
    var w := new BitStreamWriter();
    var last_value: nat := 0;
    for i := 0 to |values|
      invariant w.Valid() && AreBytes(w.out) && w.Written() == DeltaBits(values[..i], 0, P)
      invariant last_value == if i == 0 then 0 else values[i - 1]
    {
      DeltaAppend(values, 0, P, i);
      GolombRiceEncode(w, P, values[i] - last_value);
      last_value := values[i];
    }
    assert values[..|values|] == values;
    w.Flush();
    bytes := w.out;
  }

  // ---------------------------------------------------------------------------------------------
  // Reading a filter
  // ---------------------------------------------------------------------------------------------

  /** What the encoding of a filter is read as. */
  ghost function Parsed(params: Params, encoded: seq<nat>): Option<Filter> {
    match ReadSize(encoded)
    case None => None
    case Some(s) =>
      match ReadValues(StreamBits(s.1), s.0, 0, params.P)
      case None => None
      case Some(v) =>
        LessProduct(0, s.0, params.M);
        if |v.1| < 8 then Some(Filter(params, s.0, s.0 * params.M, encoded)) else None
  }

  /** A filter that was built is read back without error exactly when it is within the size limit. */
  lemma ReparseBuilt(f: Filter, values: seq<nat>, body: seq<nat>)
    requires Holds(f, values, body)
    ensures Parsed(f.params, f.encoded) == if f.N <= MAX_SIZE then Some(f) else None
  {
    hide ReadSize, SizeBytes, ReadValues, StreamBits, DeltaBits;
    SizeRoundTrip(f.N, body);
    var pad :| 0 <= pad < 8 && StreamBits(body) == Deltas(values, f.params.P) + Zeros(pad);
    DeltasRoundTrip(values, 0, f.params.P, Zeros(pad));
  }

  method Parse(params: Params, encoded: seq<nat>) returns (r: Option<Filter>)
    requires params.Valid() && AreBytes(encoded)
    ensures r == Parsed(params, encoded)
  {
    hide ReadSize, StreamBits, Decoded, AreBytes;
    var size := ReadSize(encoded);
    if size.None? {
      return None;
    }
    ReadSizeBytes(encoded);
    var N, rest := size.value.0, size.value.1;
    var reader := new BitStreamReader(rest);
    ghost var all: seq<bool>, value: nat, done: seq<nat> := StreamBits(rest), 0, [];
    PrependNone(ReadValues(all, N, 0, params.P));
    for i := 0 to N
      invariant reader.Valid() && AreBytes(reader.bytes) && fresh(reader)
      invariant ReadValues(all, N, 0, params.P)
             == Prepend(done, ReadValues(reader.Remaining(), N - i, value, params.P))
    {
      ghost var b := reader.Remaining();
      var ok, x := GolombRiceDecode(reader, params.P);
      if !ok {
        return None;
      }
      value := (value + x) % WORD;
      PrependMore(done, value, ReadValues(reader.Remaining(), N - i - 1, value, params.P));
      done := done + [value];
    }
    RemainingLength(reader);
    LessProduct(0, N, params.M);
    if reader.bytes != [] {
      return None;
    }
    return Some(Filter(params, N, N * params.M, encoded));
  }

  function Prepend(done: seq<nat>, r: Option<(seq<nat>, seq<bool>)>): Option<(seq<nat>, seq<bool>)> {
    match r
    case None => None
    case Some(v) => Some((done + v.0, v.1))
  }

  lemma PrependNone(r: Option<(seq<nat>, seq<bool>)>)
    ensures Prepend([], r) == r
  {
    if r.Some? { assert [] + r.value.0 == r.value.0; }
  }

  lemma PrependMore(done: seq<nat>, x: nat, r: Option<(seq<nat>, seq<bool>)>)
    ensures Prepend(done, Prepend([x], r)) == Prepend(done + [x], r)
  {
    if r.Some? { assert done + ([x] + r.value.0) == done + [x] + r.value.0; }
  }

  lemma RemainingLength(reader: BitStreamReader)
    requires reader.Valid()
    ensures |reader.Remaining()| < 8 <==> reader.bytes == []
  {
    StreamCat(reader.bytes, []);
    assert reader.bytes + [] == reader.bytes;
  }

  // ---------------------------------------------------------------------------------------------
  // Matching
  // ---------------------------------------------------------------------------------------------

  ghost predicate Intersect(a: seq<nat>, b: seq<nat>) { exists x :: x in a && x in b }

  /** Every query before the index is smaller than the value, and no earlier value was among the queries. */
  ghost predicate Scanned(values: seq<nat>, i: nat, queries: seq<nat>, index: nat, value: nat) {
    && i <= |values| && index <= |queries|
    && (forall k | 0 <= k < index :: queries[k] < value)
    && (forall j | 0 <= j < i :: values[j] !in queries)
  }

  datatype Scan = Found | Ended | Passed

  /** Moves on to the first query that is not smaller than the value. */
  method Advance(queries: seq<nat>, index: nat, value: nat) returns (scan: Scan, index': nat)
    requires Sorted(queries) && index <= |queries| && forall k | 0 <= k < index :: queries[k] < value
    ensures index <= index' <= |queries| && forall k | 0 <= k < index' :: queries[k] < value
    ensures scan.Found? <==> value in queries
    ensures scan.Ended? ==> index' == |queries|
  {
    index' := index;
    while true
      invariant index <= index' <= |queries| && forall k | 0 <= k < index' :: queries[k] < value
      decreases |queries| - index'
    {
      if index' == |queries| {
        return Ended, index';
      } else if queries[index'] == value {
        return Found, index';
      } else if queries[index'] > value {
        break;
      }
      index' := index' + 1;
    }
    return Passed, index';
  }

  /** Over a filter that was built, the answer is whether the two sorted lists have a member in common. */
  method MatchInternal(f: Filter, queries: seq<nat>, ghost values: seq<nat>, ghost body: seq<nat>)
    returns (r: Option<bool>)
    requires Holds(f, values, body) && Sorted(queries)
    ensures r == if f.N <= MAX_SIZE then Some(Intersect(values, queries)) else None
  {
    hide StreamBits, DeltaBits, Code, Decoded, ReadSize, SizeBytes, AreBytes, Scanned, Intersect;
    SizeRoundTrip(f.N, body);
    var size := ReadSize(f.encoded);
    if size.None? {
      return None;
    }
    assert size.value.0 == f.N;
    var reader := new BitStreamReader(size.value.1);
    ghost var pad :| 0 <= pad < 8 && StreamBits(body) == Deltas(values, f.params.P) + Zeros(pad);
    var value: nat, index: nat := 0, 0;
    assert values[0..] == values;
    ScanStart(values, queries);
    for i := 0 to f.N
      invariant reader.Valid() && AreBytes(reader.bytes) && fresh(reader) && index <= |queries|
      invariant value == (if i == 0 then 0 else values[i - 1]) && Scanned(values, i, queries, index, value)
      invariant reader.Remaining() == DeltaBits(values[i..], value, f.params.P) + Zeros(pad)
    {
      NextDelta(values, i, value, f.params.P, Zeros(pad));
      var ok, delta := GolombRiceDecode(reader, f.params.P);
      value := (value + delta) % WORD;
      ScanFurther(values, i, queries, index);
      var scan, index' := Advance(queries, index, value);
      ScanResult(values, i, queries, index, index', scan);
      match scan {
        case Ended => return Some(false);
        case Found => return Some(true);
        case Passed =>
      }
      index := index';
    }
    ScanEnd(values, queries, index, value);
    return Some(false);
  }

  lemma ScanStart(values: seq<nat>, queries: seq<nat>)
    ensures Scanned(values, 0, queries, 0, 0)
  {
  }

  /** The next code gives the next value. */
  lemma NextDelta(values: seq<nat>, i: nat, last: nat, P: nat, rest: seq<bool>)
    requires Sorted(values) && i < |values| && last == (if i == 0 then 0 else values[i - 1]) && values[i] < WORD
    ensures Decoded(DeltaBits(values[i..], last, P) + rest, P)
         == Some((values[i] - last, DeltaBits(values[i + 1..], values[i], P) + rest))
    ensures (last + (values[i] - last)) % WORD == values[i]
  {
    hide Code, Decoded;
    var x := values[i];
    assert values[i..][1..] == values[i + 1..];
    var tail := DeltaBits(values[i + 1..], x, P) + rest;
    assert DeltaBits(values[i..], last, P) + rest == Code(x - last, P) + tail;
    CodeRoundTrip(x - last, P, tail);
    SmallWord(x);
  }

  lemma ScanFurther(values: seq<nat>, i: nat, queries: seq<nat>, index: nat)
    requires Sorted(values) && i < |values| && Scanned(values, i, queries, index, if i == 0 then 0 else values[i - 1])
    ensures forall k | 0 <= k < index :: queries[k] < values[i]
  {
  }

  lemma ScanResult(values: seq<nat>, i: nat, queries: seq<nat>, before: nat, index: nat, scan: Scan)
    requires Sorted(values) && i < |values| && index <= |queries| && forall k | 0 <= k < index :: queries[k] < values[i]
    requires Scanned(values, i, queries, before, if i == 0 then 0 else values[i - 1])
    requires (scan.Found? <==> values[i] in queries) && (scan.Ended? ==> index == |queries|)
    ensures scan.Found? ==> Intersect(values, queries)
    ensures scan.Ended? ==> !Intersect(values, queries)
    ensures scan.Passed? ==> Scanned(values, i + 1, queries, index, values[i])
  {
    if scan.Found? { assert values[i] in values; }
    if scan.Ended? {
      forall j | 0 <= j < |values| ensures values[j] !in queries {
        if j >= i { assert values[i] <= values[j]; }
      }
    }
  }

  lemma ScanEnd(values: seq<nat>, queries: seq<nat>, index: nat, value: nat)
    requires Scanned(values, |values|, queries, index, value)
    ensures !Intersect(values, queries)
  {
  }

  /** Does any of the elements have the hash of a member? */
  ghost predicate HashesMeet(hash: Element -> Word, F: nat, members: seq<Element>, elements: seq<Element>) {
    Intersect(Hashes(hash, F, members), Hashes(hash, F, elements))
  }

  method MatchAny(f: Filter, hash: Element -> Word, elements: seq<Element>, ghost members: seq<Element>,
                  ghost values: seq<nat>, ghost body: seq<nat>)
    returns (r: Option<bool>)
    requires Holds(f, values, body) && multiset(values) == multiset(Hashes(hash, f.F, members))
    ensures r == if f.N <= MAX_SIZE then Some(HashesMeet(hash, f.F, members, elements)) else None
  {
    hide Hashes, Intersect;
    RangeFits(f.N, f.params.M);
    var queries := BuildHashedSet(hash, f.F, elements);
    r := MatchInternal(f, queries, values, body);
    SameMembers(values, Hashes(hash, f.F, members), queries, Hashes(hash, f.F, elements));
  }

  lemma SameMembers(a: seq<nat>, a': seq<nat>, b: seq<nat>, b': seq<nat>)
    requires multiset(a) == multiset(a') && multiset(b) == multiset(b')
    ensures Intersect(a, b) == Intersect(a', b')
  {
    if Intersect(a, b) { MeetToo(a, a', b, b'); }
    if Intersect(a', b') { MeetToo(a', a, b', b); }
  }

  lemma MeetToo(a: seq<nat>, a': seq<nat>, b: seq<nat>, b': seq<nat>)
    requires multiset(a) == multiset(a') && multiset(b) == multiset(b') && Intersect(a, b)
    ensures Intersect(a', b')
  {
    var x :| x in a && x in b;
    assert x in multiset(a) && x in multiset(b);
    assert x in a' && x in b';
  }

  method Match(f: Filter, hash: Element -> Word, element: Element, ghost members: seq<Element>,
               ghost values: seq<nat>, ghost body: seq<nat>)
    returns (r: Option<bool>)
    requires Holds(f, values, body) && multiset(values) == multiset(Hashes(hash, f.F, members))
    ensures r == if f.N <= MAX_SIZE then Some(HashesMeet(hash, f.F, members, [element])) else None
  {
    hide Intersect;
    RangeFits(f.N, f.params.M);
    var query := MapIntoRange(hash(element), f.F);
    assert Hashes(hash, f.F, [element]) == [query];
    SameMembers(values, Hashes(hash, f.F, members), [query], [query]);
    r := MatchInternal(f, [query], values, body);
  }

  /** A member is never missed. */
  lemma MembersMatch(hash: Element -> Word, F: nat, members: seq<Element>, elements: seq<Element>, e: Element)
    requires e in members && e in elements
    ensures HashesMeet(hash, F, members, elements)
  {
    var i :| 0 <= i < |members| && members[i] == e;
    var j :| 0 <= j < |elements| && elements[j] == e;
    var x := Ranged(hash(e), F);
    assert Hashes(hash, F, members)[i] == x && Hashes(hash, F, elements)[j] == x;
    assert x in Hashes(hash, F, members) && x in Hashes(hash, F, elements);
  }
}
