/** The signature cache's container, CuckooCache::cache (src/cuckoocache.h): a lossy set in which an element
    may stand in any of eight slots, and in which erased slots are only marked, to be reused later.

    The number of displacements an insert may make comes from a floating-point logarithm and is a
    parameter. Only calls from one thread at a time are modelled. */
module CuckooCache {
  import opened Arithmetic

  type Uint32 = x: int | 0 <= x < 0x1_0000_0000

  /** No slot: where a walk begins. */
  const INVALID: nat := 0xFFFF_FFFF

  // ---------------------------------------------------------------------------------------------
  // bit_packed_atomic_flags
  // ---------------------------------------------------------------------------------------------

  function Bit(b: bv8, i: nat): bool
    requires i < 8
  {
    (1 << i) & b != 0
  }

  function WithBit(b: bv8, i: nat): bv8
    requires i < 8
  {
    b | (1 << i)
  }

  function WithoutBit(b: bv8, i: nat): bv8
    requires i < 8
  {
    b & !(1 << i)
  }

  lemma BitSetAt(b: bv8, i: nat, j: nat)
    requires i < 8 && j < 8
    ensures Bit(WithBit(b, i), j) == (i == j || Bit(b, j))
  {
    if i == 0 {} else if i == 1 {} else if i == 2 {} else if i == 3 {} else if i == 4 {} else if i == 5 {}
    else if i == 6 {} else { assert i == 7; }
    if j == 0 {} else if j == 1 {} else if j == 2 {} else if j == 3 {} else if j == 4 {} else if j == 5 {}
    else if j == 6 {} else { assert j == 7; }
  }

  lemma BitUnsetAt(b: bv8, i: nat, j: nat)
    requires i < 8 && j < 8
    ensures Bit(WithoutBit(b, i), j) == (i != j && Bit(b, j))
  {
    if i == 0 {} else if i == 1 {} else if i == 2 {} else if i == 3 {} else if i == 4 {} else if i == 5 {}
    else if i == 6 {} else { assert i == 7; }
    if j == 0 {} else if j == 1 {} else if j == 2 {} else if j == 3 {} else if j == 4 {} else if j == 5 {}
    else if j == 6 {} else { assert j == 7; }
  }

  lemma AllSet(i: nat)
    requires i < 8
    ensures Bit(0xFF, i)
  {
    if i == 0 {} else if i == 1 {} else if i == 2 {} else if i == 3 {} else if i == 4 {} else if i == 5 {}
    else if i == 6 {} else { assert i == 7; }
  }

  class BitPackedFlags {
    const mem: array<bv8>
    /** The flags that the bytes hold. */
    ghost var flags: seq<bool>

    ghost predicate Valid()
      reads this, mem
    {
      && |flags| <= 8 * mem.Length
      && forall i | 0 <= i < |flags| :: flags[i] == Bit(mem[i / 8], i % 8)
    }

    constructor (size: nat)
      ensures Valid() && fresh(mem) && flags == seq(size, _ => true)
    {
      mem := new bv8[(size + 7) / 8](_ => 0xFF);
      flags := seq(size, _ => true);
      new;
      forall i | 0 <= i < size ensures Bit(mem[i / 8], i % 8) { AllSet(i % 8); }
    }

    method BitSet(s: nat)
      requires Valid() && s < |flags|
      modifies this, mem
      ensures Valid() && flags == old(flags)[s := true]
    {
      hide Bit, WithBit, WithoutBit;
      mem[s / 8] := WithBit(mem[s / 8], s % 8);
      flags := flags[s := true];
      forall i | 0 <= i < |flags| ensures flags[i] == Bit(mem[i / 8], i % 8) {
        BitSetAt(old(mem[s / 8]), s % 8, i % 8);
        assert i / 8 == s / 8 && i % 8 == s % 8 ==> i == s;
      }
    }

    method BitUnset(s: nat)
      requires Valid() && s < |flags|
      modifies this, mem
      ensures Valid() && flags == old(flags)[s := false]
    {
      hide Bit, WithBit, WithoutBit;
      mem[s / 8] := WithoutBit(mem[s / 8], s % 8);
      flags := flags[s := false];
      forall i | 0 <= i < |flags| ensures flags[i] == Bit(mem[i / 8], i % 8) {
        BitUnsetAt(old(mem[s / 8]), s % 8, i % 8);
        assert i / 8 == s / 8 && i % 8 == s % 8 ==> i == s;
      }
    }

    method BitIsSet(s: nat) returns (r: bool)
      requires Valid() && s < |flags|
      ensures r == flags[s]
    {
      r := Bit(mem[s / 8], s % 8);
    }
  }

  // ---------------------------------------------------------------------------------------------
  // Slots as values
  // ---------------------------------------------------------------------------------------------

  /** A slot: its element, whether it may be overwritten, and whether it belongs to the current epoch. */
  datatype Slot<E> = Slot(elem: E, dead: bool, recent: bool)

  /** An element with its epoch. */
  type Entry<E> = (E, bool)

  /** How often an entry is live: in a slot that may not be overwritten. */
  ghost function Live<E>(s: seq<Slot<E>>, x: Entry<E>): nat {
    if s == [] then 0 else Live(s[..|s| - 1], x) + LiveIn(s[|s| - 1], x)
  }

  ghost function LiveIn<E>(a: Slot<E>, x: Entry<E>): nat { if !a.dead && (a.elem, a.recent) == x then 1 else 0 }

  ghost function One<E>(y: Entry<E>, x: Entry<E>): nat { if y == x then 1 else 0 }

  /** How many live elements the current epoch has. */
  ghost function Recent<E>(s: seq<Slot<E>>): nat {
    if s == [] then 0 else Recent(s[..|s| - 1]) + RecentIn(s[|s| - 1])
  }

  function RecentIn<E>(a: Slot<E>): nat { if !a.dead && a.recent then 1 else 0 }

  lemma {:induction false} LiveReplace<E>(s: seq<Slot<E>>, i: nat, a: Slot<E>, x: Entry<E>)
    requires i < |s|
    ensures Live(s[i := a], x) + LiveIn(s[i], x) == Live(s, x) + LiveIn(a, x)
  {
    hide LiveIn;
    var n, t := |s| - 1, s[i := a];
    if i == n {
      assert t[..n] == s[..n];
    } else {
      assert t[..n] == s[..n][i := a];
      LiveReplace(s[..n], i, a, x);
    }
  }

  lemma {:induction false} RecentReplace<E>(s: seq<Slot<E>>, i: nat, a: Slot<E>)
    requires i < |s|
    ensures Recent(s[i := a]) + RecentIn(s[i]) == Recent(s) + RecentIn(a)
  {
    hide RecentIn;
    var n, t := |s| - 1, s[i := a];
    if i == n {
      assert t[..n] == s[..n];
    } else {
      assert t[..n] == s[..n][i := a];
      RecentReplace(s[..n], i, a);
    }
  }

  /** What a change of epoch does to a slot: the old epoch may be overwritten, the current one grows old. */
  function Aged<E>(x: Slot<E>): Slot<E> { Slot(x.elem, x.dead || !x.recent, false) }

  ghost predicate AllAged<E>(s: seq<Slot<E>>, s': seq<Slot<E>>) {
    |s'| == |s| && forall i | 0 <= i < |s| :: s'[i] == Aged(s[i])
  }

  /** A change of epoch keeps the elements of the current epoch, now old, and gives up the others. */
  lemma {:induction false} AgedLive<E>(s: seq<Slot<E>>, s': seq<Slot<E>>, e: E)
    requires AllAged(s, s')
    ensures Live(s', (e, false)) == Live(s, (e, true)) && Live(s', (e, true)) == 0 && Recent(s') == 0
  {
    if s != [] {
      var n := |s| - 1;
      AgedLive(s[..n], s'[..n], e);
      assert s'[n] == Aged(s[n]);
    }
  }

  /** What decides the slots of an element. */
  datatype Hashing<!E> = Hashing(hash: (nat, E) -> Uint32, size: nat) {
    /** compute_hashes: the eight slots of an element, each hash scaled to the size. */
    function Locs(e: E): (locs: seq<nat>)
      requires size > 0
      ensures |locs| == 8 && forall k | 0 <= k < 8 :: locs[k] < size
    {
      [Scaled(hash(0, e), size), Scaled(hash(1, e), size), Scaled(hash(2, e), size), Scaled(hash(3, e), size),
       Scaled(hash(4, e), size), Scaled(hash(5, e), size), Scaled(hash(6, e), size), Scaled(hash(7, e), size)]
    }
  }

  function Scaled(h: Uint32, size: nat): (r: nat)
    requires size > 0
    ensures r < size
  {
    LessProduct(h, 0xFFFF_FFFF, size);
    h * size / 0x1_0000_0000
  }

  /** Every live element stands in one of its slots. */
  ghost predicate Housed<E>(h: Hashing<E>, s: seq<Slot<E>>)
    requires h.size > 0
  {
    forall i | 0 <= i < |s| :: !s[i].dead ==> i in h.Locs(s[i].elem)
  }

  lemma HousedPut<E>(h: Hashing<E>, s: seq<Slot<E>>, i: nat, x: Slot<E>)
    requires h.size > 0 && Housed(h, s) && i < |s| && i in h.Locs(x.elem)
    ensures Housed(h, s[i := x])
  {
  }

  lemma HousedAged<E>(h: Hashing<E>, s: seq<Slot<E>>, s': seq<Slot<E>>)
    requires h.size > 0 && Housed(h, s) && AllAged(s, s')
    ensures Housed(h, s')
  {
  }

  /** The most live elements that the current epoch can have. */
  function EpochBound(epochSize: nat): nat { epochSize + Max(1, epochSize / 16) }

  function Max(a: nat, b: nat): nat { if a < b then b else a }

  function Zip<E>(table: seq<E>, flags: seq<bool>, epochs: seq<bool>): (s: seq<Slot<E>>)
    requires |table| == |flags| == |epochs|
    ensures |s| == |table|
  {
    seq(|table|, i requires 0 <= i < |table| => Slot(table[i], flags[i], epochs[i]))
  }

  /** An element is somewhere in its slots, erased or not. */
  ghost predicate Present<E>(h: Hashing<E>, s: seq<Slot<E>>, e: E)
    requires h.size == |s| > 0
  {
    exists k | 0 <= k < 8 :: s[h.Locs(e)[k]].elem == e
  }

  ghost predicate HasRoom<E>(h: Hashing<E>, s: seq<Slot<E>>, e: E)
    requires h.size == |s| > 0
  {
    exists k | 0 <= k < 8 :: s[h.Locs(e)[k]].dead
  }

  /** The first of an element's slots, from the k-th on, that may be overwritten; eight if there is none. */
  ghost function FirstDead<E>(h: Hashing<E>, s: seq<Slot<E>>, e: E, k: nat): (r: nat)
    requires h.size == |s| > 0 && k <= 8
    ensures k <= r <= 8 && (forall j | k <= j < r :: !s[h.Locs(e)[j]].dead) && (r < 8 ==> s[h.Locs(e)[r]].dead)
    decreases 8 - k
  {
    if k == 8 || s[h.Locs(e)[k]].dead then k else FirstDead(h, s, e, k + 1)
  }

  /** The first of an element's slots, from the k-th on, that holds it; eight if there is none. */
  ghost function FirstHolding<E>(h: Hashing<E>, s: seq<Slot<E>>, e: E, k: nat): (r: nat)
    requires h.size == |s| > 0 && k <= 8
    ensures k <= r <= 8 && (forall j | k <= j < r :: s[h.Locs(e)[j]].elem != e) && (r < 8 ==> s[h.Locs(e)[r]].elem == e)
    decreases 8 - k
  {
    if k == 8 || s[h.Locs(e)[k]].elem == e then k else FirstHolding(h, s, e, k + 1)
  }

  lemma FirstOnes<E>(h: Hashing<E>, s: seq<Slot<E>>, e: E)
    requires h.size == |s| > 0
    ensures HasRoom(h, s, e) <==> FirstDead(h, s, e, 0) < 8
    ensures Present(h, s, e) <==> FirstHolding(h, s, e, 0) < 8
  {
    hide Hashing.Locs;
    if FirstDead(h, s, e, 0) < 8 { assert s[h.Locs(e)[FirstDead(h, s, e, 0)]].dead; }
    if FirstHolding(h, s, e, 0) < 8 { assert s[h.Locs(e)[FirstHolding(h, s, e, 0)]].elem == e; }
  }

  /** The slot an element pushes another out of: the one after the last one looked at, the second at first. */
  function NextLoc<E>(h: Hashing<E>, e: E, last: nat): nat
    requires h.size > 0
  {
    h.Locs(e)[(1 + IndexOf(h.Locs(e), last)) % 8]
  }

  /** The cuckoo walk for an element that stands nowhere, with at most `depth` displacements: the slots
      afterwards, and the element left over, if any. */
  ghost function Walk<E>(h: Hashing<E>, s: seq<Slot<E>>, x: Entry<E>, last: nat, depth: nat): (r: (seq<Slot<E>>, Option<Entry<E>>))
    requires h.size == |s| > 0
    ensures |r.0| == |s|
    decreases depth
  {
    if depth == 0 then (s, Some(x))
    else
      var k := FirstDead(h, s, x.0, 0);
      if k < 8 then (s[h.Locs(x.0)[k] := Slot(x.0, false, x.1)], None)
      else
        var loc := NextLoc(h, x.0, last);
        Walk(h, s[loc := Slot(x.0, false, x.1)], (s[loc].elem, s[loc].recent), loc, depth - 1)
  }

  lemma {:induction false} LiveHas<E>(s: seq<Slot<E>>, x: Entry<E>) returns (i: nat)
    requires Live(s, x) > 0
    ensures i < |s| && !s[i].dead && (s[i].elem, s[i].recent) == x
  {
    var n := |s| - 1;
    if LiveIn(s[n], x) > 0 {
      i := n;
    } else {
      i := LiveHas(s[..n], x);
    }
  }

  /** A live element is present. */
  lemma LivePresent<E>(h: Hashing<E>, s: seq<Slot<E>>, x: Entry<E>)
    requires h.size == |s| > 0 && Housed(h, s) && Live(s, x) > 0
    ensures Present(h, s, x.0)
  {
    var i := LiveHas(s, x);
    assert i in h.Locs(x.0);
  }

  /** The new slots hold what the old ones did and one entry more, except for the lost one, if any. */
  ghost predicate Moved<E(!new)>(s: seq<Slot<E>>, s': seq<Slot<E>>, y: Entry<E>, lost: Option<Entry<E>>) {
    forall x: Entry<E> :: Live(s', x) + (if lost.Some? then One(lost.value, x) else 0) == Live(s, x) + One(y, x)
  }

  datatype Option<T> = None | Some(value: T)

  function Content<E>(a: Slot<E>): Option<Entry<E>> { if a.dead then None else Some((a.elem, a.recent)) }

  // ---------------------------------------------------------------------------------------------
  // The cache
  // ---------------------------------------------------------------------------------------------

  class Cache<E(==, !new)> {
    const size: nat
    const epoch_size: nat
    const depth_limit: nat
    const hashing: Hashing<E>
    const collection_flags: BitPackedFlags
    var table: seq<E>
    var epoch_flags: seq<bool>
    var epoch_heuristic_counter: nat

    ghost predicate Sized()
      reads this, collection_flags, collection_flags.mem
    {
      && 2 <= size < 0xFFFF_FFFF && epoch_size >= 1 && depth_limit >= 1 && hashing.size == size
      && |table| == |epoch_flags| == |collection_flags.flags| == size
      && collection_flags.Valid()
    }

    /** The cache as a sequence of slots. */
    ghost function Slots(): (s: seq<Slot<E>>)
      requires Sized()
      reads this, collection_flags, collection_flags.mem
      ensures |s| == size
    {
      Zip(table, collection_flags.flags, epoch_flags)
    }

    /** Live elements are in place, and the current epoch cannot outgrow its bound before the next scan. */
    ghost predicate Valid()
      reads this, collection_flags, collection_flags.mem
    {
      && Sized() && Housed(hashing, Slots())
      && Recent(Slots()) + epoch_heuristic_counter <= EpochBound(epoch_size)
    }

    /** cache and setup. The slots are filled with the default element and may all be overwritten. */
    constructor (hash: (nat, E) -> Uint32, new_size: nat, depth_limit: nat, none: E)
      requires new_size < 0xFFFF_FFFF && depth_limit >= 1
      ensures Valid() && size == Max(2, new_size) && forall x :: Live(Slots(), x) == 0
      ensures hashing == Hashing(hash, size) && this.depth_limit == depth_limit
      ensures forall i | 0 <= i < size :: Slots()[i] == Slot(none, true, false)
      ensures epoch_size == epoch_heuristic_counter == Max(1, 45 * size % 0x1_0000_0000 / 100)
      ensures fresh(collection_flags) && fresh(collection_flags.mem)
    {
      var n := Max(2, new_size);
      this.depth_limit, size, hashing := depth_limit, n, Hashing(hash, n);
      var flags := new BitPackedFlags(n);
      collection_flags := flags;
      table := seq(n, _ => none);
      epoch_flags := seq(n, _ => false);
      // The product is a 32-bit one.
      epoch_size := Max(1, 45 * n % 0x1_0000_0000 / 100);
      epoch_heuristic_counter := Max(1, 45 * n % 0x1_0000_0000 / 100);
      new;
      NoneLive(Slots());
    }

    method AllowErase(n: nat)
      requires Sized() && n < size
      modifies collection_flags, collection_flags.mem
      ensures Sized() && Slots() == old(Slots())[n := old(Slots())[n].(dead := true)]
    {
      collection_flags.BitSet(n);
    }

    method PleaseKeep(n: nat)
      requires Sized() && n < size
      modifies collection_flags, collection_flags.mem
      ensures Sized() && collection_flags.flags == old(collection_flags.flags)[n := false]
    {
      collection_flags.BitUnset(n);
    }

    /** Counts the live elements of the current epoch. */
    method CountRecent() returns (n: nat)
      requires Sized()
      ensures n == Recent(Slots())
    {
      n := 0;
      for i := 0 to size
        invariant n == Recent(Slots()[..i])
      {
        var dead := collection_flags.BitIsSet(i);
        if epoch_flags[i] && !dead {
          n := n + 1;
        }
        assert Slots()[..i + 1][..i] == Slots()[..i];
      }
      assert Slots()[..size] == Slots();
    }

    /** Starts a new epoch. */
    method AgeAll()
      requires Sized()
      modifies this`epoch_flags, collection_flags, collection_flags.mem
      ensures Sized() && AllAged(old(Slots()), Slots())
    {
      ghost var before := Slots();
      for i := 0 to size
        invariant Sized()
        invariant forall j | 0 <= j < i :: Slots()[j] == Aged(before[j])
        invariant forall j | i <= j < size :: Slots()[j] == before[j]
      {
        assert Slots()[i] == before[i];
        if epoch_flags[i] {
          epoch_flags := epoch_flags[i := false];
        } else {
          AllowErase(i);
        }
      }
    }

    /** The current epoch ends when a scan is due and finds it full. */
    ghost predicate EpochEnds()
      requires Sized()
      reads this, collection_flags, collection_flags.mem
    {
      epoch_heuristic_counter == 0 && Recent(Slots()) >= epoch_size
    }

    /** Leaves room in the current epoch for one more element. */
    method EpochCheck()
      requires Valid()
      modifies this`epoch_flags, this`epoch_heuristic_counter, collection_flags, collection_flags.mem
      ensures Sized() && Housed(hashing, Slots())
      ensures if old(EpochEnds()) then AllAged(old(Slots()), Slots()) else Slots() == old(Slots())
      ensures Recent(Slots()) + 1 + epoch_heuristic_counter <= EpochBound(epoch_size)
      ensures epoch_heuristic_counter ==
        if old(epoch_heuristic_counter) != 0 then old(epoch_heuristic_counter) - 1
        else if old(EpochEnds()) then epoch_size
        else Max(1, Max(epoch_size / 16, epoch_size - old(Recent(Slots()))))
    {
      hide Zip, Housed, Recent;
      if epoch_heuristic_counter != 0 {
        epoch_heuristic_counter := epoch_heuristic_counter - 1;
        return;
      }
      var epoch_unused_count := CountRecent();
      if epoch_unused_count >= epoch_size {
        AgeAll();
        HousedAged(hashing, old(Slots()), Slots());
        AgedLive(old(Slots()), Slots(), table[0]);
        epoch_heuristic_counter := epoch_size;
      } else {
        epoch_heuristic_counter := Max(1, Max(epoch_size / 16, epoch_size - epoch_unused_count));
      }
    }

    /** Puts an element in a slot, to be kept. */
    method Put(loc: nat, e: E, recent: bool)
      requires Sized() && loc < size
      modifies this`table, this`epoch_flags, collection_flags, collection_flags.mem
      ensures Sized() && Slots() == old(Slots())[loc := Slot(e, false, recent)]
    {
      ZipPut(table, collection_flags.flags, epoch_flags, loc, e, recent);
      hide Zip;
      table := table[loc := e];
      PleaseKeep(loc);
      epoch_flags := epoch_flags[loc := recent];
    }

    method FindPresent(e: E) returns (found: bool, loc: nat)
      requires Sized()
      ensures found == Present(hashing, Slots(), e)
      ensures found ==> loc < size && loc in hashing.Locs(e) && table[loc] == e
      ensures found ==> FirstHolding(hashing, Slots(), e, 0) < 8 && loc == hashing.Locs(e)[FirstHolding(hashing, Slots(), e, 0)]
    {
      hide Hashing.Locs, Present;
      var locs := hashing.Locs(e);
      FirstOnes(hashing, Slots(), e);
      for k := 0 to 8
        invariant FirstHolding(hashing, Slots(), e, 0) == FirstHolding(hashing, Slots(), e, k)
      {
        assert Slots()[locs[k]].elem == table[locs[k]];
        if table[locs[k]] == e {
          return true, locs[k];
        }
      }
      return false, 0;
    }

    method FindRoom(e: E) returns (found: bool, loc: nat)
      requires Sized()
      ensures found == HasRoom(hashing, Slots(), e)
      ensures found ==> loc < size && loc in hashing.Locs(e) && Slots()[loc].dead
      ensures found ==> FirstDead(hashing, Slots(), e, 0) < 8 && loc == hashing.Locs(e)[FirstDead(hashing, Slots(), e, 0)]
      ensures !found ==> FirstDead(hashing, Slots(), e, 0) == 8
    {
      hide Hashing.Locs, HasRoom;
      var locs := hashing.Locs(e);
      FirstOnes(hashing, Slots(), e);
      for k := 0 to 8
        invariant FirstDead(hashing, Slots(), e, 0) == FirstDead(hashing, Slots(), e, k)
      {
        var dead := collection_flags.BitIsSet(locs[k]);
        assert Slots()[locs[k]].dead == dead;
        if dead {
          return true, locs[k];
        }
      }
      return false, 0;
    }

    /** The result lost is what was given up: at most one element, with its epoch. The slots after the
        epoch check are mid. */
    method Insert(e: E) returns (ghost mid: seq<Slot<E>>, ghost lost: Option<Entry<E>>)
      requires Valid()
      modifies this`table, this`epoch_flags, this`epoch_heuristic_counter, collection_flags, collection_flags.mem
      ensures Valid() && |mid| == size
      ensures if old(EpochEnds()) then AllAged(old(Slots()), mid) else mid == old(Slots())
      ensures var k := FirstHolding(hashing, mid, e, 0);
        if k < 8 then Slots() == mid[hashing.Locs(e)[k] := Slot(e, false, true)]
        else (Slots(), lost) == Walk(hashing, mid, (e, true), INVALID, depth_limit)
      ensures Moved(mid, Slots(), (e, true), lost)
      ensures Present(hashing, mid, e) && lost.Some? ==> lost.value.0 == e
      ensures !Present(hashing, mid, e) && HasRoom(hashing, mid, e) ==> lost.None?
      ensures lost == Some((e, true)) || Present(hashing, Slots(), e)
    {
      hide Housed, Moved, Zip, AllAged, Present, HasRoom, EpochBound, Walk, FirstHolding, Hashing.Locs, Recent;
      EpochCheck();
      mid := Slots();
      FirstOnes(hashing, mid, e);
      var found, loc := FindPresent(e);
      if found {
        lost := Content(mid[loc]);
        SlotAt(table, collection_flags.flags, epoch_flags, loc);
        PutLemma(hashing, mid, loc, Slot(e, false, true));
        Put(loc, e, true);
      } else {
        lost := Displace(e);
      }
      MovedPresent(hashing, mid, Slots(), e, lost);
    }

    /** The cuckoo walk: each displaced element moves on to another of its own slots. */
    method Displace(e: E) returns (ghost lost: Option<Entry<E>>)
      requires Sized() && Housed(hashing, Slots())
      modifies this`table, this`epoch_flags, collection_flags, collection_flags.mem
      ensures Sized() && Housed(hashing, Slots())
      ensures Moved(old(Slots()), Slots(), (e, true), lost)
      ensures Recent(Slots()) <= old(Recent(Slots())) + 1
      ensures old(HasRoom(hashing, Slots(), e)) ==> lost.None?
      ensures (Slots(), lost) == Walk(hashing, old(Slots()), (e, true), INVALID, depth_limit)
    {
      hide Housed, Moved, Zip, HasRoom, Recent, Hashing.Locs;
      var last_loc, last_epoch, cur := INVALID, true, e;
      ghost var mid := Slots();
      NoMove(mid, (e, true));
      for depth := 0 to depth_limit
        invariant Sized() && Housed(hashing, Slots())
        invariant Moved(mid, Slots(), (e, true), Some((cur, last_epoch)))
        invariant Recent(Slots()) + (if last_epoch then 1 else 0) == Recent(mid) + 1
        invariant depth == 0 ==> Slots() == mid && cur == e
        invariant depth > 0 ==> !HasRoom(hashing, mid, e)
        invariant Walk(hashing, mid, (e, true), INVALID, depth_limit)
               == Walk(hashing, Slots(), (cur, last_epoch), last_loc, depth_limit - depth)
      {
        var found, loc := FindRoom(cur);
        ghost var s := Slots();
        if found {
          PutLemma(hashing, s, loc, Slot(cur, false, last_epoch));
          MovedOn(mid, s, s[loc := Slot(cur, false, last_epoch)], (e, true), (cur, last_epoch), None);
          lost := None;
          Put(loc, cur, last_epoch);
          return;
        }
        ghost var moving := (cur, last_epoch);
        cur, last_epoch, last_loc := Swap(cur, last_epoch, last_loc);
        MovedOn(mid, s, Slots(), (e, true), moving, Some((cur, last_epoch)));
      }
      lost := Some((cur, last_epoch));
    }

    /** Swaps an element for the one in the slot after the last one looked at. */
    method Swap(e: E, epoch: bool, last: nat) returns (e': E, epoch': bool, loc: nat)
      requires Sized() && Housed(hashing, Slots()) && !HasRoom(hashing, Slots(), e)
      modifies this`table, this`epoch_flags
      ensures Sized() && Housed(hashing, Slots())
      ensures Moved(old(Slots()), Slots(), (e, epoch), Some((e', epoch')))
      ensures Recent(Slots()) + (if epoch' then 1 else 0) == old(Recent(Slots())) + (if epoch then 1 else 0)
      ensures loc == NextLoc(hashing, e, last) < size && Slots() == old(Slots())[loc := Slot(e, false, epoch)]
      ensures (e', epoch') == (old(Slots())[loc].elem, old(Slots())[loc].recent)
    {
      hide Housed, Moved, Zip, Recent, Hashing.Locs;
      var locs := hashing.Locs(e);
      ghost var s := Slots();
      var k := (1 + IndexOf(locs, last)) % 8;
      loc := locs[k];
      assert !s[hashing.Locs(e)[k]].dead;
      SlotAt(table, collection_flags.flags, epoch_flags, loc);
      PutLemma(hashing, s, loc, Slot(e, false, epoch));
      ZipPut(table, collection_flags.flags, epoch_flags, loc, e, epoch);
      e', epoch' := table[loc], epoch_flags[loc];
      table := table[loc := e];
      epoch_flags := epoch_flags[loc := epoch];
    }

    /** Garbage is found too, as long as it has not been overwritten. */
    method Contains(e: E, erase: bool) returns (r: bool)
      requires Valid()
      modifies collection_flags, collection_flags.mem
      ensures Valid()
      ensures r == old(Present(hashing, Slots(), e)) == Present(hashing, Slots(), e)
      ensures old(Live(Slots(), (e, true)) + Live(Slots(), (e, false))) > 0 ==> r
      ensures !r || !erase ==> Slots() == old(Slots())
      ensures r && erase ==>
        && old(FirstHolding(hashing, Slots(), e, 0)) < 8 && HasRoom(hashing, Slots(), e)
        && Erased(old(Slots()), Slots(), e, hashing.Locs(e)[old(FirstHolding(hashing, Slots(), e, 0))])
      ensures forall x: Entry<E> :: Live(Slots(), x) <= old(Live(Slots(), x))
      ensures forall x: Entry<E> | x.0 != e :: Live(Slots(), x) == old(Live(Slots(), x))
    {
      hide Zip, Housed, EpochBound, Hashing.Locs, Recent, Live, Present;
      var found, loc := FindPresent(e);
      r := found;
      ghost var s := Slots();
      if Live(s, (e, true)) > 0 { LivePresent(hashing, s, (e, true)); }
      if Live(s, (e, false)) > 0 { LivePresent(hashing, s, (e, false)); }
      if found && erase {
        SlotAt(table, collection_flags.flags, epoch_flags, loc);
        EraseLemma(hashing, s, loc);
        AllowErase(loc);
        assert Slots()[hashing.Locs(e)[FirstHolding(hashing, s, e, 0)]].dead;
      }
    }
  }

  /** An element just inserted, erased and looked up again before any other insert is still found. */
  method FoundAfterErase<E(==, !new)>(cache: Cache<E>, e: E) returns (found: bool, again: bool, ghost lost: Option<Entry<E>>)
    requires cache.Valid()
    modifies cache, cache.collection_flags, cache.collection_flags.mem
    ensures cache.Valid() && again == found && (found || lost == Some((e, true)))
    ensures found ==> Present(cache.hashing, cache.Slots(), e) && HasRoom(cache.hashing, cache.Slots(), e)
  {
    ghost var mid;
    mid, lost := cache.Insert(e);
    found := cache.Contains(e, true);
    again := cache.Contains(e, false);
  }

  datatype Op<E> = InsertOp(e: E) | FindOp(e: E, erase: bool)

  /** Over every run the live elements stay in their slots and the current epoch within its bound. */
  method Run<E(==, !new)>(cache: Cache<E>, ops: seq<Op<E>>)
    requires cache.Valid()
    modifies cache, cache.collection_flags, cache.collection_flags.mem
    ensures cache.Valid() && Housed(cache.hashing, cache.Slots())
    ensures Recent(cache.Slots()) <= EpochBound(cache.epoch_size)
  {
    for i := 0 to |ops|
      invariant cache.Valid()
    {
      match ops[i] {
        case InsertOp(e) => ghost var mid, lost := cache.Insert(e);
        case FindOp(e, erase) => var found := cache.Contains(e, erase);
      }
    }
  }

  /** The place of the first occurrence, or the length. */
  function IndexOf(s: seq<nat>, x: nat): nat {
    if s == [] then 0 else if s[0] == x then 0 else 1 + IndexOf(s[1..], x)
  }

  lemma NoneLive<E(!new)>(s: seq<Slot<E>>)
    requires forall i | 0 <= i < |s| :: s[i].dead
    ensures (forall x: Entry<E> :: Live(s, x) == 0) && Recent(s) == 0
  {
    if s != [] { NoneLive(s[..|s| - 1]); }
  }

  lemma SlotAt<E>(table: seq<E>, flags: seq<bool>, epochs: seq<bool>, i: nat)
    requires |table| == |flags| == |epochs| && i < |table|
    ensures Zip(table, flags, epochs)[i] == Slot(table[i], flags[i], epochs[i])
  {
  }

  lemma ZipPut<E>(table: seq<E>, flags: seq<bool>, epochs: seq<bool>, i: nat, e: E, epoch: bool)
    requires |table| == |flags| == |epochs| && i < |table|
    ensures Zip(table[i := e], flags, epochs[i := epoch])
         == Zip(table, flags, epochs)[i := Slot(e, flags[i], epoch)]
    ensures Zip(table[i := e], flags[i := false], epochs[i := epoch])
         == Zip(table, flags, epochs)[i := Slot(e, false, epoch)]
    ensures Zip(table, flags[i := true], epochs)
         == Zip(table, flags, epochs)[i := Slot(table[i], true, epochs[i])]
  {
  }

  /** Overwriting a slot: one element comes, the one that was there, if live, goes. */
  lemma PutLemma<E(!new)>(h: Hashing<E>, s: seq<Slot<E>>, i: nat, a: Slot<E>)
    requires h.size > 0 && Housed(h, s) && i < |s| && i in h.Locs(a.elem) && !a.dead
    ensures Housed(h, s[i := a])
    ensures Moved(s, s[i := a], (a.elem, a.recent), Content(s[i]))
    ensures Recent(s[i := a]) + RecentIn(s[i]) == Recent(s) + RecentIn(a)
  {
    hide Housed, Recent;
    HousedPut(h, s, i, a);
    RecentReplace(s, i, a);
    forall x: Entry<E> { LiveReplace(s, i, a, x); }
  }

  /** An element was marked in one slot: the slot keeps it but may be overwritten, all others are as before, and
      the element is live once less if it was live there. */
  ghost predicate Erased<E>(s: seq<Slot<E>>, s': seq<Slot<E>>, e: E, loc: nat) {
    && loc < |s| == |s'| && s[loc].elem == e && s' == s[loc := Slot(e, true, s[loc].recent)]
    && Live(s', (e, true)) + (if !s[loc].dead && s[loc].recent then 1 else 0) == Live(s, (e, true))
    && Live(s', (e, false)) + (if !s[loc].dead && !s[loc].recent then 1 else 0) == Live(s, (e, false))
  }

  lemma EraseLemma<E(!new)>(h: Hashing<E>, s: seq<Slot<E>>, i: nat)
    requires h.size == |s| && i < |s| && Housed(h, s)
    ensures var s' := s[i := s[i].(dead := true)];
      && Housed(h, s') && Recent(s') <= Recent(s)
      && (forall x: Entry<E> :: Live(s', x) <= Live(s, x))
      && (forall x: Entry<E> | x.0 != s[i].elem :: Live(s', x) == Live(s, x))
      && (forall e :: Present(h, s', e) == Present(h, s, e))
      && Erased(s, s', s[i].elem, i)
  {
    var a := s[i].(dead := true);
    RecentReplace(s, i, a);
    forall x: Entry<E> { LiveReplace(s, i, a, x); }
    hide Recent, Live, Hashing.Locs;
    forall e ensures Present(h, s[i := a], e) == Present(h, s, e) {
      assert forall j | 0 <= j < |s| :: s[i := a][j].elem == s[j].elem;
    }
  }

  lemma NoMove<E(!new)>(s: seq<Slot<E>>, y: Entry<E>)
    ensures Moved(s, s, y, Some(y))
  {
  }

  lemma MovedOn<E(!new)>(s: seq<Slot<E>>, s1: seq<Slot<E>>, s2: seq<Slot<E>>, y: Entry<E>, z: Entry<E>,
                         lost: Option<Entry<E>>)
    requires Moved(s, s1, y, Some(z)) && Moved(s1, s2, z, lost)
    ensures Moved(s, s2, y, lost)
  {
    hide Live;
  }

  /** An inserted element is found unless it is the one that was lost. */
  lemma MovedPresent<E(!new)>(h: Hashing<E>, s: seq<Slot<E>>, s': seq<Slot<E>>, e: E, lost: Option<Entry<E>>)
    requires h.size == |s'| > 0 && Housed(h, s') && Moved(s, s', (e, true), lost)
    ensures lost == Some((e, true)) || Present(h, s', e)
  {
    hide Live, Housed;
    if lost != Some((e, true)) {
      assert Live(s', (e, true)) > 0;
      LivePresent(h, s', (e, true));
    }
  }
}
