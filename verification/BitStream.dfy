/** Streams of bits in bytes, the most significant bit first: BitStreamWriter and BitStreamReader (src/streams.h).
    Bytes are numbers below 256; words are numbers below 2^64. */
module BitStream {
  import opened Arithmetic

  const WORD: nat := 0x1_0000_0000_0000_0000

  // ---------------------------------------------------------------------------------------------
  // Bits of numbers
  // ---------------------------------------------------------------------------------------------

  /** The n lowest bits of a number, the highest of them first. */
  function BitsOf(x: nat, n: nat): (b: seq<bool>)
    ensures |b| == n
  {
    if n == 0 then [] else BitsOf(x / 2, n - 1) + [x % 2 == 1]
  }

  function NumberOf(b: seq<bool>): nat {
    if b == [] then 0 else 2 * NumberOf(b[..|b| - 1]) + (if b[|b| - 1] then 1 else 0)
  }

  function Scale(x: nat, n: nat): nat {
    LessProduct(0, x, Pow2(n));
    x * Pow2(n)
  }

  /** Shifting right. */
  function Shr(x: nat, n: nat): nat {
    QuotientBound(x, Pow2(n));
    x / Pow2(n)
  }

  lemma {:induction false} BitsJoin(u: nat, v: nat, a: nat, b: nat)
    requires v < Pow2(b)
    ensures BitsOf(Scale(u, b) + v, a + b) == BitsOf(u, a) + BitsOf(v, b)
    decreases b
  {
    if b == 0 {
      assert BitsOf(u, a) + [] == BitsOf(u, a);
    } else {
      var x := Scale(u, b) + v;
      ScaleHalf(u, v, b);
      hide Scale;
      BitsJoin(u, v / 2, a, b - 1);
    }
  }

  lemma ScaleHalf(u: nat, v: nat, b: nat)
    requires b > 0 && v < Pow2(b)
    ensures (Scale(u, b) + v) / 2 == Scale(u, b - 1) + v / 2 && (Scale(u, b) + v) % 2 == v % 2 && v / 2 < Pow2(b - 1)
  {
    assert u * (2 * Pow2(b - 1)) == 2 * (u * Pow2(b - 1));
  }

  lemma {:induction false} NumberBits(x: nat, n: nat)
    requires x < Pow2(n)
    ensures NumberOf(BitsOf(x, n)) == x
  {
    if n > 0 {
      NumberBits(x / 2, n - 1);
      var b := BitsOf(x, n);
      assert b[..n - 1] == BitsOf(x / 2, n - 1);
    }
  }

  lemma {:induction false} BitsNumber(b: seq<bool>)
    ensures NumberOf(b) < Pow2(|b|) && BitsOf(NumberOf(b), |b|) == b
    decreases |b|
  {
    if b != [] { BitsNumber(b[..|b| - 1]); }
  }

  lemma {:induction false} NumberJoin(a: seq<bool>, b: seq<bool>)
    ensures NumberOf(a + b) == Scale(NumberOf(a), |b|) + NumberOf(b)
    decreases |b|
  {
    if b == [] {
      assert a + b == a;
    } else {
      var n := |b| - 1;
      assert (a + b)[..|a| + n] == a + b[..n];
      NumberJoin(a, b[..n]);
      ScaleDouble(NumberOf(a), n);
    }
  }

  lemma ScaleDouble(x: nat, n: nat)
    ensures Scale(x, n + 1) == 2 * Scale(x, n)
  {
    assert x * (2 * Pow2(n)) == 2 * (x * Pow2(n));
  }

  /** The bits of a list of bytes. */
  function StreamBits(bytes: seq<nat>): seq<bool> {
    if bytes == [] then [] else BitsOf(bytes[0], 8) + StreamBits(bytes[1..])
  }

  lemma {:induction false} StreamCat(a: seq<nat>, b: seq<nat>)
    ensures StreamBits(a + b) == StreamBits(a) + StreamBits(b) && |StreamBits(a)| == 8 * |a|
  {
    if a == [] {
      assert a + b == b;
    } else {
      assert (a + b)[1..] == a[1..] + b;
      StreamCat(a[1..], b);
    }
  }

  lemma StreamOne(b: nat)
    ensures StreamBits([b]) == BitsOf(b, 8)
  {
    assert [b][1..] == [];
  }

  function Zeros(n: nat): seq<bool> { seq(n, _ => false) }

  lemma {:induction false} ZeroBits(n: nat)
    ensures BitsOf(0, n) == Zeros(n) && NumberOf(Zeros(n)) == 0
  {
    if n > 0 {
      ZeroBits(n - 1);
      assert Zeros(n) == Zeros(n - 1) + [false];
    }
  }

  // ---------------------------------------------------------------------------------------------
  // Arithmetic of shifts
  // ---------------------------------------------------------------------------------------------

  lemma ScaleScale(x: nat, y: nat, a: nat, b: nat)
    ensures Scale(Scale(x, a) + y, b) == Scale(x, a + b) + Scale(y, b)
  {
    hide Pow2;
    Pow2Add(a, b);
    assert (x * Pow2(a) + y) * Pow2(b) == x * (Pow2(a) * Pow2(b)) + y * Pow2(b);
  }

  lemma ScaleBound(x: nat, a: nat, n: nat)
    requires x < Pow2(a)
    ensures Scale(x, n) + Pow2(n) <= Pow2(a + n)
  {
    Pow2Add(a, n);
    LessProduct(x + 1, Pow2(a), Pow2(n));
    assert (x + 1) * Pow2(n) == x * Pow2(n) + Pow2(n);
  }

  lemma ScaleMultiple(x: nat, n: nat)
    ensures Scale(x, n) % Pow2(n) == 0
  {
    MultiplePlus(x, Pow2(n), 0);
  }

  lemma DropLow(q: nat, p: nat, y: nat)
    requires y < p
    ensures (q * p + y) / p == q
  {
    MultiplePlus(q, p, y);
  }

  lemma ScaleShr(x: nat, y: nat, a: nat, n: nat)
    requires y < Pow2(n)
    ensures Shr(Scale(x, a + n) + y, n) == Scale(x, a)
  {
    hide Pow2;
    Pow2Add(a, n);
    assert x * (Pow2(a) * Pow2(n)) == x * Pow2(a) * Pow2(n);
    DropLow(Scale(x, a), Pow2(n), y);
  }

  /** Or-ing a number into clear low bits. */
  lemma OrLow(x: nat, n: nat, y: nat)
    requires y < Pow2(n)
    ensures BitwiseOr(Scale(x, n), y) == Scale(x, n) + y
  {
    ScaleMultiple(x, n);
    OrDisjoint(y, Scale(x, n), n);
  }

  /** A shift to the left that drops the bits above a width. */
  lemma ShlDrops(x: nat, a: nat, n: nat)
    ensures Scale(x, n) % Pow2(a + n) == Scale(x % Pow2(a), n)
  {
    hide Pow2;
    Pow2Add(a, n);
    ScaledRemainder(x, Pow2(a), Pow2(n));
  }

  lemma ScaledRemainder(x: nat, a: nat, n: nat)
    requires a > 0 && n > 0
    ensures a * n > 0 && x * n % (a * n) == x % a * n
  {
    var q, r := x / a, x % a;
    ScaleParts(q, a, r, n);
    DivisionUnique(x * n, a * n, q, r * n);
  }

  lemma ScaleParts(q: int, a: nat, r: nat, n: nat)
    requires r < a && n > 0
    ensures (q * a + r) * n == q * (a * n) + r * n && 0 <= r * n < a * n
  {
    assert r * n >= 0 by { LessProduct(0, r, n); }
    assert r * n < a * n by {
      LessProduct(r + 1, a, n);
      assert (r + 1) * n == r * n + n;
    }
  }

  lemma ModMod(x: nat, a: nat, b: nat)
    requires b <= a
    ensures x % Pow2(a) % Pow2(b) == x % Pow2(b)
  {
    hide Pow2;
    Pow2Add(a - b, b);
    FinerRemainder(x, Pow2(a - b), Pow2(b));
  }

  lemma FinerRemainder(x: nat, k: nat, b: nat)
    requires k > 0 && b > 0
    ensures k * b > 0 && x % (k * b) % b == x % b
  {
    LessProduct(1, k, b);
    var q, r := x / (k * b), x % (k * b);
    assert x == q * (k * b) + r;
    RemainderOfSum(r, q * k, b);
    assert q * k * b == q * (k * b);
  }

  lemma RemainderOfSum(r: nat, m: int, b: nat)
    requires b > 0
    ensures (m * b + r) % b == r % b
  {
    assert (m + r / b) * b == m * b + r / b * b;
    DivisionUnique(m * b + r, b, m + r / b, r % b);
  }

  lemma {:induction false} BitsModulo(x: nat, n: nat)
    ensures BitsOf(x % Pow2(n), n) == BitsOf(x, n) && NumberOf(BitsOf(x, n)) == x % Pow2(n)
  {
    if n == 0 {
    } else {
      ModuloHalf(x, n);
      BitsModulo(x / 2, n - 1);
    }
    NumberBits(x % Pow2(n), n);
  }

  lemma ModuloHalf(x: nat, n: nat)
    requires n > 0
    ensures x % Pow2(n) / 2 == x / 2 % Pow2(n - 1) && x % Pow2(n) % 2 == x % 2
  {
    var p := Pow2(n - 1);
    var q, r := x / (2 * p), x % (2 * p);
    assert x == 2 * (q * p) + r;
    assert x / 2 == q * p + r / 2;
    DivisionUnique(x / 2, p, q, r / 2);
  }

  function Min(a: nat, b: nat): nat { if a < b then a else b }

  // ---------------------------------------------------------------------------------------------
  // Writing
  // ---------------------------------------------------------------------------------------------

  /** What Write adds to the buffer: the next bits of the data, put right after the bits already there. */
  function WriteChunk(data: nat, nbits: nat, offset: nat): nat
    requires nbits <= 64 && offset < 8
  {
    Shr(Scale(data, 64 - nbits) % WORD, 56 + offset)
  }

  lemma WordIsPower()
    ensures WORD == Pow2(64) && Pow2(8) == 256
  {
    assert Pow2(4) == 16;
    Pow2Add(4, 4);
    Pow2Add(8, 8);
    Pow2Add(16, 16);
    Pow2Add(32, 32);
  }

  lemma ChunkIsNext(data: nat, nbits: nat, offset: nat, bits: nat)
    requires 0 < nbits <= 64 && offset < 8 && bits == Min(8 - offset, nbits)
    ensures WriteChunk(data, nbits, offset) == Scale(NumberOf(BitsOf(data, nbits)[..bits]), 8 - offset - bits)
  {
    hide Scale, Shr, BitsOf, NumberOf, Pow2;
    WordIsPower();
    ShlDrops(data, nbits, 64 - nbits);
    BitsModulo(data, nbits);
    var b := BitsOf(data, nbits);
    var hi, lo := NumberOf(b[..bits]), NumberOf(b[bits..]);
    assert b == b[..bits] + b[bits..];
    NumberJoin(b[..bits], b[bits..]);
    ScaleScale(hi, lo, nbits - bits, 64 - nbits);
    BitsNumber(b[bits..]);
    ScaleBound(lo, nbits - bits, 64 - nbits);
    if bits == 8 - offset {
      Positive(64 - nbits);
    } else {
      NoBits(b[bits..]);
      ScaleZero(64 - nbits);
      Positive(56 + offset);
    }
    ScaleShr(hi, Scale(lo, 64 - nbits), 8 - offset - bits, 56 + offset);
  }

  lemma Positive(n: nat)
    ensures Pow2(n) > 0
  {
  }

  lemma NoBits(b: seq<bool>)
    ensures b == [] ==> NumberOf(b) == 0
  {
  }

  lemma ScaleZero(n: nat)
    ensures Scale(0, n) == 0
  {
  }

  class BitStreamWriter {
    /** The bytes written to the stream. */
    var out: seq<nat>
    var m_buffer: nat
    var m_offset: nat
    /** The bits in the buffer. */
    ghost var pending: seq<bool>

    ghost predicate Valid()
      reads this
    {
      m_offset < 8 && Buffered()
    }

    ghost predicate Buffered()
      reads this
    {
      |pending| == m_offset <= 8 && m_buffer == Scale(NumberOf(pending), 8 - m_offset)
    }

    /** All bits written so far. */
    ghost function Written(): seq<bool>
      reads this
    {
      StreamBits(out) + pending
    }

    constructor ()
      ensures Valid() && Written() == [] && out == []
    {
      out, m_buffer, m_offset, pending := [], 0, 0, [];
    }

    /** Appends the nbits lowest bits of the data, the highest of them first. */
    method Write(data: nat, nbits: nat)
      requires Valid() && data < WORD && nbits <= 64
      modifies this
      ensures Valid() && Written() == old(Written()) + BitsOf(data, nbits)
      ensures AreBytes(old(out)) ==> AreBytes(out)
    {
      hide Scale, WriteChunk, BitsOf, NumberOf, StreamBits, BitwiseOr, Pow2;
      var n: nat := nbits;
      ghost var b := BitsOf(data, nbits);
      assert b[..0] == [];
      while n > 0
        invariant Valid() && n <= nbits && Written() == old(Written()) + b[..nbits - n]
        invariant AreBytes(old(out)) ==> AreBytes(out)
      {
        var bits := Min(8 - m_offset, n);
        BitsTail(data, n, nbits);
        PutChunk(pending, m_offset, data, n, bits, m_buffer);
        ghost var chunk := BitsOf(data, n)[..bits];
        NextBits(b, nbits - n, chunk);
        CatChunk(StreamBits(out), pending, chunk, old(Written()), b[..nbits - n]);
        m_buffer := BitwiseOr(m_buffer, WriteChunk(data, n, m_offset));
        m_offset := m_offset + bits;
        n := n - bits;
        pending := pending + chunk;
        if m_offset == 8 {
          Flush();
        }
      }
      assert b[..nbits] == b;
    }

    /** Writes the buffered bits, padded with zeros to a whole byte. */
    method Flush()
      requires Buffered()
      modifies this
      ensures Valid() && pending == []
      ensures StreamBits(out) == old(Written()) + Zeros(if old(m_offset) == 0 then 0 else 8 - old(m_offset))
      ensures old(m_offset) == 8 ==> Written() == old(Written())
      ensures |out| == old(|out|) + (if old(m_offset) == 0 then 0 else 1)
      ensures AreBytes(old(out)) ==> AreBytes(out)
    {
      hide Scale, BitsOf, NumberOf, StreamBits, Pow2;
      NoBits([]);
      ScaleZero(8);
      if m_offset == 0 {
        assert pending == [];
        assert Written() == StreamBits(out);
        return;
      }
      BufferByte(pending, m_offset);
      StreamCat(out, [m_buffer]);
      StreamOne(m_buffer);
      out := out + [m_buffer];
      m_buffer := 0;
      m_offset := 0;
      pending := [];
      assert Zeros(0) == [] && Written() == StreamBits(out);
    }
  }

  lemma NextBits(b: seq<bool>, k: nat, chunk: seq<bool>)
    requires k <= |b| && chunk <= b[k..]
    ensures b[..k] + chunk == b[..k + |chunk|]
  {
    assert b[k..][..|chunk|] == b[k..k + |chunk|];
  }

  lemma CatChunk(s: seq<bool>, pending: seq<bool>, chunk: seq<bool>, w: seq<bool>, a: seq<bool>)
    requires s + pending == w + a
    ensures s + (pending + chunk) == w + (a + chunk)
  {
    assert s + (pending + chunk) == (s + pending) + chunk;
    assert w + (a + chunk) == (w + a) + chunk;
  }

  ghost predicate AreBytes(bytes: seq<nat>) { forall i | 0 <= i < |bytes| :: bytes[i] < 256 }

  lemma BufferByte(pending: seq<bool>, offset: nat)
    requires |pending| == offset <= 8
    ensures BitsOf(Scale(NumberOf(pending), 8 - offset), 8) == pending + Zeros(8 - offset)
    ensures Scale(NumberOf(pending), 8 - offset) < 256
  {
    hide Scale, BitsOf, NumberOf, Pow2;
    BitsNumber(pending);
    Positive(8 - offset);
    BitsJoin(NumberOf(pending), 0, offset, 8 - offset);
    ZeroBits(8 - offset);
    ScaleBound(NumberOf(pending), offset, 8 - offset);
    WordIsPower();
  }

  /** The low n bits end the low m bits. */
  lemma BitsTail(x: nat, n: nat, m: nat)
    requires n <= m
    ensures BitsOf(x, m)[m - n..] == BitsOf(x, n)
  {
    hide BitsOf, Pow2;
    BitsModulo(x, n);
    Positive(n);
    BitsJoin(Shr(x, n), x % Pow2(n), m - n, n);
    assert Scale(Shr(x, n), n) + x % Pow2(n) == x;
  }

  /** The buffer with the next chunk or-ed in. */
  lemma PutChunk(pending: seq<bool>, offset: nat, data: nat, nbits: nat, bits: nat, buffer: nat)
    requires |pending| == offset < 8 && 0 < nbits <= 64 && bits == Min(8 - offset, nbits)
    requires buffer == Scale(NumberOf(pending), 8 - offset)
    ensures BitwiseOr(buffer, WriteChunk(data, nbits, offset))
         == Scale(NumberOf(pending + BitsOf(data, nbits)[..bits]), 8 - offset - bits)
  {
    hide Scale, WriteChunk, BitsOf, NumberOf, BitwiseOr, Pow2;
    var chunk := BitsOf(data, nbits)[..bits];
    var k := 8 - offset - bits;
    ChunkIsNext(data, nbits, offset, bits);
    BitsNumber(chunk);
    ScaleBound(NumberOf(chunk), bits, k);
    Positive(k);
    OrLow(NumberOf(pending), 8 - offset, Scale(NumberOf(chunk), k));
    NumberJoin(pending, chunk);
    ScaleScale(NumberOf(pending), NumberOf(chunk), bits, k);
  }

  // ---------------------------------------------------------------------------------------------
  // Reading
  // ---------------------------------------------------------------------------------------------

  /** The next bits of the buffer. */
  function ReadChunk(buffer: nat, offset: nat, bits: nat): nat
    requires offset + bits <= 8
  {
    Shr(Scale(buffer, offset) % 256, 8 - bits)
  }

  lemma ChunkRead(pending: seq<bool>, buffer: nat, offset: nat, bits: nat)
    requires offset + |pending| == 8 && bits <= |pending| && NumberOf(pending) == buffer % Pow2(8 - offset)
    ensures ReadChunk(buffer, offset, bits) == NumberOf(pending[..bits])
    ensures NumberOf(pending[bits..]) == buffer % Pow2(8 - offset - bits)
  {
    hide Scale, Shr, NumberOf, Pow2;
    var rest := pending[bits..];
    var c, r, k := NumberOf(pending[..bits]), NumberOf(rest), 8 - offset - bits;
    assert pending == pending[..bits] + rest;
    WordIsPower();
    ShlDrops(buffer, 8 - offset, offset);
    NumberJoin(pending[..bits], rest);
    ScaleScale(c, r, k, offset);
    BitsNumber(rest);
    ScaleBound(r, k, offset);
    Positive(offset);
    ScaleShr(c, Scale(r, offset), 0, 8 - bits);
    ScaleNone(c);
    ModMod(buffer, 8 - offset, k);
    LowPart(c, k, r);
  }

  lemma ScaleNone(x: nat)
    ensures Scale(x, 0) == x
  {
  }

  lemma LowPart(c: nat, k: nat, r: nat)
    requires r < Pow2(k)
    ensures (Scale(c, k) + r) % Pow2(k) == r
  {
    hide Pow2;
    MultiplePlus(c, Pow2(k), r);
  }

  class BitStreamReader {
    /** The bytes not yet read from the stream. */
    var bytes: seq<nat>
    var m_buffer: nat
    var m_offset: nat
    /** The bits of the buffer not yet returned. */
    ghost var pending: seq<bool>

    ghost predicate Valid()
      reads this
    {
      0 < m_offset && Buffered()
    }

    ghost predicate Buffered()
      reads this
    {
      m_offset + |pending| == 8 && NumberOf(pending) == m_buffer % Pow2(8 - m_offset)
    }

    /** All bits that can still be read. */
    ghost function Remaining(): seq<bool>
      reads this
    {
      pending + StreamBits(bytes)
    }

    constructor (bytes: seq<nat>)
      ensures Valid() && Remaining() == StreamBits(bytes) && this.bytes == bytes
    {
      this.bytes, m_buffer, m_offset, pending := bytes, 0, 8, [];
    }

    /** Reads a number of bits, or fails at the end of the stream. */
    method Read(nbits: nat) returns (ok: bool, data: nat)
      requires Valid() && AreBytes(bytes) && nbits <= 64
      modifies this
      ensures Valid() && AreBytes(bytes)
      ensures ok <==> nbits <= old(|Remaining()|)
      ensures ok ==> data == NumberOf(old(Remaining())[..nbits]) && Remaining() == old(Remaining())[nbits..]
    {
      hide Scale, ReadChunk, NumberOf, BitsOf, StreamBits, BitwiseOr, Pow2, AreBytes;
      var n: nat := nbits;
      data := 0;
      ghost var all := Remaining();
      NoBits([]);
      assert all[..0] == [] && all[0..] == all;
      while n > 0
        invariant Valid() && AreBytes(bytes) && n <= nbits && nbits - n <= |all|
        invariant Remaining() == all[nbits - n..] && data == NumberOf(all[..nbits - n])
      {
        if m_offset == 8 {
          if bytes == [] {
            EndOfStream();
            return false, data;
          }
          NextByte(bytes);
          m_buffer := bytes[0];
          m_offset := 0;
          pending := BitsOf(bytes[0], 8);
          bytes := bytes[1..];
        }
        var bits := Min(8 - m_offset, n);
        ChunkRead(pending, m_buffer, m_offset, bits);
        TakeChunk(all, nbits - n, bits, pending, StreamBits(bytes), data);
        data := BitwiseOr(Scale(data, bits), ReadChunk(m_buffer, m_offset, bits));
        m_offset := m_offset + bits;
        n := n - bits;
        pending := pending[bits..];
      }
      return true, data;
    }
  }

  lemma EndOfStream()
    ensures StreamBits([]) == []
  {
  }

  lemma NextByte(bytes: seq<nat>)
    requires bytes != [] && AreBytes(bytes)
    ensures StreamBits(bytes) == BitsOf(bytes[0], 8) + StreamBits(bytes[1..]) && AreBytes(bytes[1..])
    ensures NumberOf(BitsOf(bytes[0], 8)) == bytes[0] % Pow2(8)
  {
    hide Pow2, BitsOf, NumberOf;
    BitsModulo(bytes[0], 8);
  }

  lemma TakeChunk(all: seq<bool>, k: nat, bits: nat, pending: seq<bool>, rest: seq<bool>, data: nat)
    requires k <= |all| && all[k..] == pending + rest && bits <= |pending| && data == NumberOf(all[..k])
    ensures k + bits <= |all| && all[k + bits..] == pending[bits..] + rest
    ensures BitwiseOr(Scale(data, bits), NumberOf(pending[..bits])) == NumberOf(all[..k + bits])
  {
    hide Scale, NumberOf, BitwiseOr, Pow2;
    var chunk := pending[..bits];
    assert |all| - k == |pending| + |rest|;
    assert all == all[..k] + all[k..];
    assert all[..k + bits] == all[..k] + chunk;
    assert all[k + bits..] == all[k..][bits..];
    NumberJoin(all[..k], chunk);
    BitsNumber(chunk);
    OrLow(data, bits, NumberOf(chunk));
  }
}
