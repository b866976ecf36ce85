/** The rolling bloom filter, CRollingBloomFilter (src/bloom.h, src/bloom.cpp). Each filter position holds
    two bits, kept in two adjacent words: nothing, or one of three generation numbers used in turn.

    The sizing formulas are floating point; the number of hash functions and of words are parameters. */
module RollingBloomFilter {
  import opened Arithmetic

  type Key = seq<bv8>
  type Uint32 = x: int | 0 <= x < 0x1_0000_0000

  /** What decides the positions of a key. */
  datatype Layout = Layout(hash: (nat, Uint32, Key) -> Uint32, nTweak: Uint32, nHashFuncs: nat, size: nat) {
    predicate Valid() { nHashFuncs >= 1 && size >= 2 && size % 2 == 0 }
  }

  /** A position: a pair of words and a bit in both. */
  datatype Position = Position(pair: nat, bit: bv6)

  function FastMod(x: Uint32, n: nat): (r: nat)
    requires n > 0
    ensures r < n
  {
    LessProduct(x, 0xFFFF_FFFF, n);
    x * n / 0x1_0000_0000
  }

  function PositionOf(f: Layout, key: Key, n: nat): Position
    requires f.Valid()
  {
    var h := f.hash(n, f.nTweak, key);
    Position(FastMod(h, f.size) / 2, (h % 64) as bv6)
  }

  ghost predicate Touches(f: Layout, key: Key, n: nat, p: Position)
    requires f.Valid()
  {
    exists m | 0 <= m < n :: PositionOf(f, key, m) == p
  }

  // ---------------------------------------------------------------------------------------------
  // Generations
  // ---------------------------------------------------------------------------------------------

  /** The generation, counted from the last reset, of the last inserted key that touches a position;
      generation after generation holds perGeneration keys. */
  ghost function Stamp(f: Layout, perGeneration: nat, history: seq<Key>, p: Position): (g: int)
    requires f.Valid() && perGeneration > 0
    ensures -1 <= g
  {
    if history == [] then -1
    else if Touches(f, history[|history| - 1], f.nHashFuncs, p) then (|history| - 1) / perGeneration
    else Stamp(f, perGeneration, history[..|history| - 1], p)
  }

  /** The generation that the next key joins, unless it is full. */
  function Generation(perGeneration: nat, inserted: nat): nat
    requires perGeneration > 0
  {
    if inserted == 0 then 0 else (inserted - 1) / perGeneration
  }

  /** The two bits for a generation: 1, 2 and 3 in turn. */
  function Code(g: nat): (bool, bool) { (g % 3 != 1, g % 3 != 0) }

  /** nGeneration */
  function Number(g: nat): bv64 { if g % 3 == 0 then 1 else if g % 3 == 1 then 2 else 3 }

  /** A position is remembered for its own generation and the next two. */
  predicate Alive(stamp: int, current: nat) { stamp >= 0 && stamp >= current - 2 }

  function Expected(stamp: int, current: nat): (bool, bool) {
    if Alive(stamp, current) then Code(stamp) else (false, false)
  }

  function BitOf(w: bv64, b: bv6): bool { (w >> (b as bv64)) & 1 == 1 }

  function Stored(data: seq<bv64>, p: Position): (bool, bool)
    requires 2 * p.pair + 1 < |data|
  {
    (BitOf(data[2 * p.pair], p.bit), BitOf(data[2 * p.pair + 1], p.bit))
  }

  /** The words hold exactly the generations of the positions. */
  ghost predicate Holds(f: Layout, perGeneration: nat, data: seq<bv64>, history: seq<Key>, current: nat)
    requires f.Valid() && perGeneration > 0 && |data| == f.size
  {
    forall p: Position | 2 * p.pair + 1 < |data| ::
      Stored(data, p) == Expected(Stamp(f, perGeneration, history, p), current)
  }

  // ---------------------------------------------------------------------------------------------
  // Words
  // ---------------------------------------------------------------------------------------------

  function And(x: bv64, y: bv64): bv64 { x & y }
  function Or(x: bv64, y: bv64): bv64 { x | y }
  function Xor(x: bv64, y: bv64): bv64 { x ^ y }
  function Not(x: bv64): bv64 { !x }
  /** All ones for one, all zeros for zero. */
  function Flag(v: bv64): bv64 { 0 - v }
  function Shift(v: bv64, bit: bv6): bv64 { v << (bit as bv64) }

  lemma RawAnd(x: bv64, y: bv64, b: bv6)
    ensures BitOf(x & y, b) == (BitOf(x, b) && BitOf(y, b))
  {
  }

  lemma RawOr(x: bv64, y: bv64, b: bv6)
    ensures BitOf(x | y, b) == (BitOf(x, b) || BitOf(y, b))
  {
  }

  lemma RawXor(x: bv64, y: bv64, b: bv6)
    ensures BitOf(x ^ y, b) == (BitOf(x, b) != BitOf(y, b))
  {
  }

  lemma BitAnd(x: bv64, y: bv64, b: bv6)
    ensures BitOf(And(x, y), b) == (BitOf(x, b) && BitOf(y, b))
  {
    hide BitOf;
    RawAnd(x, y, b);
  }

  lemma BitOr(x: bv64, y: bv64, b: bv6)
    ensures BitOf(Or(x, y), b) == (BitOf(x, b) || BitOf(y, b))
  {
    hide BitOf;
    RawOr(x, y, b);
  }

  lemma BitXor(x: bv64, y: bv64, b: bv6)
    ensures BitOf(Xor(x, y), b) == (BitOf(x, b) != BitOf(y, b))
  {
    hide BitOf;
    RawXor(x, y, b);
  }

  lemma BitNot(x: bv64, b: bv6)
    ensures BitOf(Not(x), b) == !BitOf(x, b)
  {
  }

  lemma BitFlag(v: bv64, b: bv6)
    requires v == 0 || v == 1
    ensures BitOf(Flag(v), b) == (v == 1)
  {
  }

  lemma BitShift(v: bv64, bit: bv6, b: bv6)
    requires v == 0 || v == 1
    ensures BitOf(Shift(v, bit), b) == (v == 1 && bit == b)
  {
  }

  function Low(number: bv64): bv64 { number & 1 }
  function High(number: bv64): bv64 { number >> 1 }

  lemma NumberBits(g: nat)
    ensures var low, high := Low(Number(g)), High(Number(g));
      (low == 0 || low == 1) && (high == 0 || high == 1) && (low == 1, high == 1) == Code(g)
  {
  }

  function WipedCode(c: (bool, bool), g: nat): (bool, bool) { if c == Code(g) then (false, false) else c }

  /** What wiping keeps of a pair of words. */
  function WipeMask(p1: bv64, p2: bv64, number: bv64): bv64 {
    Or(Xor(p1, Flag(Low(number))), Xor(p2, Flag(High(number))))
  }

  /** Wiping clears exactly the positions that hold the generation number. */
  lemma WipeBits(p1: bv64, p2: bv64, g: nat, b: bv6)
    ensures var mask := WipeMask(p1, p2, Number(g));
      (BitOf(And(p1, mask), b), BitOf(And(p2, mask), b)) == WipedCode((BitOf(p1, b), BitOf(p2, b)), g)
  {
    hide BitOf, Number, And, Or, Xor, Flag, Low, High;
    var low, high := Low(Number(g)), High(Number(g));
    NumberBits(g);
    BitFlag(low, b);
    BitFlag(high, b);
    BitXor(p1, Flag(low), b);
    BitXor(p2, Flag(high), b);
    BitOr(Xor(p1, Flag(low)), Xor(p2, Flag(high)), b);
    BitAnd(p1, WipeMask(p1, p2, Number(g)), b);
    BitAnd(p2, WipeMask(p1, p2, Number(g)), b);
  }

  /** A word with one bit replaced. */
  function WithBit(w: bv64, bit: bv6, v: bv64): bv64 { Or(And(w, Not(Shift(1, bit))), Shift(v, bit)) }

  lemma WithBitOf(w: bv64, bit: bv6, v: bv64, b: bv6)
    requires v == 0 || v == 1
    ensures BitOf(WithBit(w, bit, v), b) == if b == bit then v == 1 else BitOf(w, b)
  {
    hide BitOf, Or, And, Not, Shift;
    BitShift(1, bit, b);
    BitShift(v, bit, b);
    BitNot(Shift(1, bit), b);
    BitAnd(w, Not(Shift(1, bit)), b);
    BitOr(And(w, Not(Shift(1, bit))), Shift(v, bit), b);
  }

  // ---------------------------------------------------------------------------------------------
  // Generations age
  // ---------------------------------------------------------------------------------------------

  /** When the next generation starts, the positions to forget are those that hold its number. */
  lemma ExpectedAges(stamp: int, current: nat)
    requires -1 <= stamp <= current
    ensures Expected(stamp, current + 1)
         == if Expected(stamp, current) == Code(current + 1) then (false, false) else Expected(stamp, current)
  {
  }

  lemma {:induction false} StampBound(f: Layout, perGeneration: nat, history: seq<Key>, p: Position)
    requires f.Valid() && perGeneration > 0
    ensures Stamp(f, perGeneration, history, p) <= Generation(perGeneration, |history|)
  {
    if history != [] && !Touches(f, history[|history| - 1], f.nHashFuncs, p) {
      StampBound(f, perGeneration, history[..|history| - 1], p);
      GenerationGrows(perGeneration, |history| - 1, |history|);
    }
  }

  lemma GenerationGrows(perGeneration: nat, n: nat, n': nat)
    requires perGeneration > 0 && n <= n'
    ensures Generation(perGeneration, n) <= Generation(perGeneration, n')
  {
    if n > 0 { QuotientGrows(n - 1, n' - 1, perGeneration); }
  }

  lemma {:induction false} StampLater(f: Layout, perGeneration: nat, history: seq<Key>, i: nat, p: Position)
    requires f.Valid() && perGeneration > 0 && i < |history| && Touches(f, history[i], f.nHashFuncs, p)
    ensures Stamp(f, perGeneration, history, p) >= i / perGeneration
  {
    QuotientGrows(i, |history| - 1, perGeneration);
    if !Touches(f, history[|history| - 1], f.nHashFuncs, p) {
      assert history[..|history| - 1][i] == history[i];
      StampLater(f, perGeneration, history[..|history| - 1], i, p);
    }
  }

  /** What contains answers. */
  ghost predicate Remembers(f: Layout, perGeneration: nat, history: seq<Key>, key: Key)
    requires f.Valid() && perGeneration > 0
  {
    forall n | 0 <= n < f.nHashFuncs ::
      Alive(Stamp(f, perGeneration, history, PositionOf(f, key, n)), Generation(perGeneration, |history|))
  }

  /** A key of the current generation or one of the two before it is remembered. */
  lemma RecentGenerationsRemembered(f: Layout, perGeneration: nat, history: seq<Key>, i: nat)
    requires f.Valid() && perGeneration > 0 && i < |history|
    requires i / perGeneration >= Generation(perGeneration, |history|) - 2
    ensures Remembers(f, perGeneration, history, history[i])
  {
    hide Stamp, Generation, PositionOf, Touches;
    assert i / perGeneration >= 0;
    forall n | 0 <= n < f.nHashFuncs
      ensures Alive(Stamp(f, perGeneration, history, PositionOf(f, history[i], n)), Generation(perGeneration, |history|))
    {
      TouchesOwn(f, history[i], n);
      StampLater(f, perGeneration, history, i, PositionOf(f, history[i], n));
    }
  }

  lemma TouchesOwn(f: Layout, key: Key, n: nat)
    requires f.Valid() && n < f.nHashFuncs
    ensures Touches(f, key, f.nHashFuncs, PositionOf(f, key, n))
  {
  }

  /** The promise of the filter: each of the last nElements keys inserted since the reset is remembered. */
  lemma LastElementsRemembered(f: Layout, nElements: nat, history: seq<Key>, i: nat)
    requires f.Valid() && nElements >= 1 && |history| - nElements <= i < |history|
    ensures Remembers(f, (nElements + 1) / 2, history, history[i])
  {
    var e := (nElements + 1) / 2;
    TwoGenerationsBack(i, |history| - 1, e);
    RecentGenerationsRemembered(f, e, history, i);
  }

  lemma TwoGenerationsBack(i: nat, last: nat, e: nat)
    requires e > 0 && i + 2 * e > last
    ensures i / e >= last / e - 2
  {
    DivisionUnique(i + 2 * e, e, i / e + 2, i % e);
    QuotientGrows(last, i + 2 * e, e);
  }

  // ---------------------------------------------------------------------------------------------
  // The class
  // ---------------------------------------------------------------------------------------------

  class RollingBloomFilter {
    const hash: (nat, Uint32, Key) -> Uint32
    const nHashFuncs: nat
    const nEntriesPerGeneration: nat
    const data: array<bv64>
    var nEntriesThisGeneration: nat
    var nGeneration: bv64
    var nTweak: Uint32
    /** The number of keys the filter was made for. */
    ghost const nElements: nat
    /** The keys inserted since the last reset. */
    ghost var history: seq<Key>

    ghost function Shape(): Layout
      reads this
    {
      Layout(hash, nTweak, nHashFuncs, data.Length)
    }

    ghost predicate Valid()
      reads this, data
    {
      && nElements > 0 && nEntriesPerGeneration == (nElements + 1) / 2 && Shape().Valid()
      && var g := Generation(nEntriesPerGeneration, |history|);
      && |history| == g * nEntriesPerGeneration + nEntriesThisGeneration
      && nEntriesThisGeneration <= nEntriesPerGeneration
      && (history != [] ==> nEntriesThisGeneration > 0)
      && nGeneration == Number(g)
      && Holds(Shape(), nEntriesPerGeneration, data[..], history, g)
    }

    constructor (hash: (nat, Uint32, Key) -> Uint32, nElements: nat, nHashFuncs: nat, nFilterBits: nat, tweak: Uint32)
      requires nElements >= 1 && nHashFuncs >= 1 && nFilterBits >= 1
      ensures Valid() && history == [] && this.nElements == nElements && nTweak == tweak
      ensures this.hash == hash && this.nHashFuncs == nHashFuncs
      ensures fresh(data) && data.Length == (nFilterBits + 63) / 64 * 2
    {
      this.hash, this.nHashFuncs, this.nElements := hash, nHashFuncs, nElements;
      nEntriesPerGeneration := (nElements + 1) / 2;
      data := new bv64[(nFilterBits + 63) / 64 * 2];
      new;
      Reset(tweak);
    }

    method Reset(tweak: Uint32)
      requires nElements > 0 && nEntriesPerGeneration == (nElements + 1) / 2 && Shape().Valid()
      modifies this, data
      ensures Valid() && history == [] && nTweak == tweak
    {
      nTweak := tweak;
      nEntriesThisGeneration := 0;
      nGeneration := 1;
      forall i | 0 <= i < data.Length { data[i] := 0; }
      history := [];
      forall p: Position | 2 * p.pair + 1 < data.Length ensures Stored(data[..], p) == (false, false) {
        NoBits(p.bit);
      }
    }

    /** Starts the next generation: the entries of the generation three before it are forgotten. */
    method NextGeneration()
      requires Valid() && nEntriesThisGeneration == nEntriesPerGeneration
      modifies this`nEntriesThisGeneration, this`nGeneration, data
      ensures nEntriesThisGeneration == 0
      ensures nGeneration == Number(Generation(nEntriesPerGeneration, |history|) + 1)
      ensures Holds(Shape(), nEntriesPerGeneration, data[..], history, Generation(nEntriesPerGeneration, |history|) + 1)
    {
      hide Number, Holds, Wiped, Generation, Layout.Valid;
      ghost var g := Generation(nEntriesPerGeneration, |history|);
      nEntriesThisGeneration := 0;
      nGeneration := nGeneration + 1;
      if nGeneration == 4 {
        nGeneration := 1;
      }
      NumberNext(g);
      Wipe(g + 1);
      AllAge(Shape(), nEntriesPerGeneration, old(data[..]), data[..], history);
    }

    method Wipe(ghost g: nat)
      requires Shape().Valid() && nGeneration == Number(g)
      modifies data
      ensures Wiped(old(data[..]), data[..], g)
    {
      hide WipeMask, Number, BitOf, And;
      var p := 0;
      while p < data.Length
        invariant p <= data.Length && p % 2 == 0
        invariant forall q | p <= q < data.Length :: data[q] == old(data[q])
        invariant forall r: Position | 2 * r.pair + 1 < p :: Stored(data[..], r) == WipedCode(Stored(old(data[..]), r), g)
      {
        var p1, p2 := data[p], data[p + 1];
        var mask := WipeMask(p1, p2, nGeneration);
        data[p] := And(p1, mask);
        data[p + 1] := And(p2, mask);
        forall r: Position | 2 * r.pair + 1 < p + 2
          ensures Stored(data[..], r) == WipedCode(Stored(old(data[..]), r), g)
        {
          if 2 * r.pair == p { WipeBits(p1, p2, g, r.bit); }
        }
        p := p + 2;
      }
    }

    method Insert(key: Key)
      requires Valid()
      modifies this, data
      ensures Valid() && history == old(history) + [key] && nTweak == old(nTweak)
    {
      hide Holds, Number, Layout.Valid;
      ghost var f, e := Shape(), nEntriesPerGeneration;
      if nEntriesThisGeneration == nEntriesPerGeneration {
        NextGeneration();
      }
      nEntriesThisGeneration := nEntriesThisGeneration + 1;
      ghost var g := Generation(e, |history| + 1);
      GenerationStep(e, |history|, old(nEntriesThisGeneration));
      Mark(key, g);
      MarkedHolds(f, e, data[..], history, key, g);
      history := history + [key];
    }

    /** Writes the current generation number at the positions of a key. */
    method Mark(key: Key, ghost g: nat)
      requires nEntriesPerGeneration > 0 && Shape().Valid() && nGeneration == Number(g)
      requires Holds(Shape(), nEntriesPerGeneration, data[..], history, g)
      modifies data
      ensures Marked(Shape(), nEntriesPerGeneration, data[..], history, key, nHashFuncs, g)
    {
      hide Number, BitOf, WithBit, Low, High, Expected, Stamp, PositionOf, FastMod, Marked, Holds;
      ghost var f := Shape();
      NoneMarked(f, nEntriesPerGeneration, data[..], history, key, g);
      for n := 0 to nHashFuncs
        invariant Marked(f, nEntriesPerGeneration, data[..], history, key, n, g)
      {
        ghost var before := data[..];
        var h := hash(n, nTweak, key);
        // The lowest bit of the place is ignored, and cleared for the first word and set for the second.
        var pos, bit := FastMod(h, data.Length) / 2, (h % 64) as bv6;
        PairFits(f, key, n);
        data[2 * pos] := WithBit(data[2 * pos], bit, Low(nGeneration));
        data[2 * pos + 1] := WithBit(data[2 * pos + 1], bit, High(nGeneration));
        OneMarked(f, nEntriesPerGeneration, before, data[..], history, key, n, g);
      }
    }

    /** The answer is exact about generations, and yes for each of the last nElements keys. */
    method Contains(key: Key) returns (r: bool)
      requires Valid()
      ensures r <==> Remembers(Shape(), nEntriesPerGeneration, history, key)
      ensures (exists i | 0 <= i < |history| && |history| - nElements <= i :: history[i] == key) ==> r
    {
      hide BitOf, Number, Or, Stamp, Generation, Holds, PositionOf, FastMod, Alive;
      ghost var f, e, g := Shape(), nEntriesPerGeneration, Generation(nEntriesPerGeneration, |history|);
      forall i | 0 <= i < |history| && |history| - nElements <= i ensures Remembers(f, e, history, history[i]) {
        LastElementsRemembered(f, nElements, history, i);
      }
      for n := 0 to nHashFuncs
        invariant forall m | 0 <= m < n :: Alive(Stamp(f, e, history, PositionOf(f, key, m)), g)
      {
        var h := hash(n, nTweak, key);
        // The lowest bit of the place is ignored, and cleared for the first word and set for the second.
        var pos, bit := FastMod(h, data.Length) / 2, (h % 64) as bv6;
        PairFits(f, key, n);
        HeldAt(f, e, data[..], history, g, PositionOf(f, key, n));
        BitOr(data[2 * pos], data[2 * pos + 1], bit);
        if !BitOf(Or(data[2 * pos], data[2 * pos + 1]), bit) {
          return false;
        }
      }
      return true;
    }
  }

  lemma PairFits(f: Layout, key: Key, n: nat)
    requires f.Valid()
    ensures PositionOf(f, key, n)
         == Position(FastMod(f.hash(n, f.nTweak, key), f.size) / 2, (f.hash(n, f.nTweak, key) % 64) as bv6)
    ensures 2 * PositionOf(f, key, n).pair + 1 < f.size
  {
  }

  lemma NoBits(b: bv6)
    ensures !BitOf(0, b)
  {
  }

  lemma NumberNext(g: nat)
    ensures Number(g + 1) == if Number(g) + 1 == 4 then 1 else Number(g) + 1
  {
  }

  ghost predicate Wiped(before: seq<bv64>, after: seq<bv64>, g: nat) {
    && |before| == |after|
    && forall r: Position | 2 * r.pair + 1 < |after| :: Stored(after, r) == WipedCode(Stored(before, r), g)
  }

  /** Wiping a generation number turns the words of one generation into those of the next. */
  lemma AllAge(f: Layout, perGeneration: nat, before: seq<bv64>, after: seq<bv64>, history: seq<Key>)
    requires f.Valid() && perGeneration > 0 && |before| == f.size
    requires Holds(f, perGeneration, before, history, Generation(perGeneration, |history|))
    requires Wiped(before, after, Generation(perGeneration, |history|) + 1)
    ensures Holds(f, perGeneration, after, history, Generation(perGeneration, |history|) + 1)
  {
    hide BitOf, Stamp, Generation, Expected, Code;
    var g := Generation(perGeneration, |history|);
    forall p: Position | 2 * p.pair + 1 < |after|
      ensures Stored(after, p) == Expected(Stamp(f, perGeneration, history, p), g + 1)
    {
      StampBound(f, perGeneration, history, p);
      ExpectedAges(Stamp(f, perGeneration, history, p), g);
    }
  }

  lemma HeldAt(f: Layout, perGeneration: nat, data: seq<bv64>, history: seq<Key>, current: nat, p: Position)
    requires f.Valid() && perGeneration > 0 && |data| == f.size && 2 * p.pair + 1 < |data|
    requires Holds(f, perGeneration, data, history, current)
    ensures (Stored(data, p).0 || Stored(data, p).1) == Alive(Stamp(f, perGeneration, history, p), current)
  {
  }

  /** The words while a key is being inserted: its first n positions hold the current generation. */
  ghost predicate Marked(f: Layout, perGeneration: nat, data: seq<bv64>, history: seq<Key>, key: Key, n: nat, g: nat)
    requires f.Valid() && perGeneration > 0 && |data| == f.size
  {
    forall p: Position | 2 * p.pair + 1 < |data| ::
      Stored(data, p) == if Touches(f, key, n, p) then Code(g) else Expected(Stamp(f, perGeneration, history, p), g)
  }

  lemma NoneMarked(f: Layout, perGeneration: nat, data: seq<bv64>, history: seq<Key>, key: Key, g: nat)
    requires f.Valid() && perGeneration > 0 && |data| == f.size && Holds(f, perGeneration, data, history, g)
    ensures Marked(f, perGeneration, data, history, key, 0, g)
  {
  }

  lemma OneMarked(f: Layout, perGeneration: nat, before: seq<bv64>, after: seq<bv64>, history: seq<Key>, key: Key, n: nat,
                  g: nat)
    requires f.Valid() && perGeneration > 0 && |before| == f.size && Marked(f, perGeneration, before, history, key, n, g)
    requires var p := PositionOf(f, key, n);
      && 2 * p.pair + 1 < |before|
      && after == before[2 * p.pair := WithBit(before[2 * p.pair], p.bit, Low(Number(g)))]
                        [2 * p.pair + 1 := WithBit(before[2 * p.pair + 1], p.bit, High(Number(g)))]
    ensures Marked(f, perGeneration, after, history, key, n + 1, g)
  {
    hide BitOf, WithBit, Number, Low, High, Stamp, PositionOf, Expected;
    var p := PositionOf(f, key, n);
    NumberBits(g);
    forall q: Position | 2 * q.pair + 1 < |after|
      ensures Stored(after, q)
           == if Touches(f, key, n + 1, q) then Code(g) else Expected(Stamp(f, perGeneration, history, q), g)
    {
      TouchesNext(f, key, n, q);
      if q.pair == p.pair {
        WithBitOf(before[2 * p.pair], p.bit, Low(Number(g)), q.bit);
        WithBitOf(before[2 * p.pair + 1], p.bit, High(Number(g)), q.bit);
      }
    }
  }

  lemma TouchesNext(f: Layout, key: Key, n: nat, p: Position)
    requires f.Valid()
    ensures Touches(f, key, n + 1, p) <==> Touches(f, key, n, p) || PositionOf(f, key, n) == p
  {
    if Touches(f, key, n + 1, p) {
      var m :| 0 <= m < n + 1 && PositionOf(f, key, m) == p;
    }
  }

  lemma MarkedHolds(f: Layout, perGeneration: nat, data: seq<bv64>, history: seq<Key>, key: Key, g: nat)
    requires f.Valid() && perGeneration > 0 && |data| == f.size && g == Generation(perGeneration, |history| + 1)
    requires Marked(f, perGeneration, data, history, key, f.nHashFuncs, g)
    ensures Holds(f, perGeneration, data, history + [key], g)
  {
    forall p: Position | 2 * p.pair + 1 < |data|
      ensures Stored(data, p) == Expected(Stamp(f, perGeneration, history + [key], p), g)
    {
      assert (history + [key])[..|history|] == history;
    }
  }

  /** A full generation is followed by the next one, and a partly filled one goes on. */
  lemma GenerationStep(perGeneration: nat, inserted: nat, entries: nat)
    requires perGeneration > 0 && entries <= perGeneration && (inserted > 0 ==> entries > 0)
    requires inserted == Generation(perGeneration, inserted) * perGeneration + entries
    ensures Generation(perGeneration, inserted + 1)
         == Generation(perGeneration, inserted) + (if entries == perGeneration then 1 else 0)
  {
    var g := Generation(perGeneration, inserted);
    if entries == perGeneration {
      DivisionUnique(inserted, perGeneration, g + 1, 0);
    } else {
      DivisionUnique(inserted, perGeneration, g, entries);
    }
  }
}
