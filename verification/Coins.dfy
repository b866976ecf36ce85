/** The UTXO cache tower: CCoinsViewCache layers stacked on a coin database
    (src/coins.h, src/coins.cpp).

    Every layer caches coins of the layer below under two flags, DIRTY and FRESH. The module
    proves that the whole tower always behaves like one plain map from outpoint to unspent coin. */
module Coins {

  datatype OutPoint = OutPoint(hash: nat, n: nat)

  type Byte = x: int | 0 <= x < 256

  const MAX_SCRIPT_SIZE := 10000
  const OP_RETURN: Byte := 0x6a

  /** A UTXO entry. A value of -1 is the null output, which stands for "spent". */
  datatype Coin = Coin(value: int, script: seq<Byte>, height: nat, coinBase: bool, coinStake: bool) {
    predicate IsSpent() { value == -1 }

    predicate IsUnspendable() {
      (|script| > 0 && script[0] == OP_RETURN) || |script| > MAX_SCRIPT_SIZE
    }

    /** Heap bytes held by the script: none up to 28 bytes, else a malloc block of 16-byte units. */
    function DynamicMemoryUsage(): nat {
      if |script| <= 28 then 0 else (|script| + 31) / 16 * 16
    }
  }

  const NullCoin := Coin(-1, [], 0, false, false)

  datatype Entry = Entry(coin: Coin, isDirty: bool, isFresh: bool)

  type CoinMap = map<OutPoint, Coin>
  type EntryMap = map<OutPoint, Entry>

  // ---------------------------------------------------------------------------------------------
  // One layer over a plain map
  // ---------------------------------------------------------------------------------------------

  /** The coins visible through a cache on top of `base`. */
  ghost function Overlay(cache: EntryMap, base: CoinMap): CoinMap {
    map o | o in cache.Keys + base.Keys && (o in cache ==> !cache[o].coin.IsSpent())
      :: if o in cache then cache[o].coin else base[o]
  }

  ghost predicate AllUnspent(view: CoinMap) {
    forall o | o in view :: !view[o].IsSpent()
  }

  /** What the flags of one entry claim about the layer below: FRESH says that no unspent coin is
      there, and an entry that is not DIRTY says that the layer below agrees with it. */
  ghost predicate EntryConsistent(o: OutPoint, e: Entry, base: CoinMap) {
    && (e.isFresh ==> o !in base)
    && (!e.isDirty ==> (o in base <==> !e.coin.IsSpent()) && (o in base ==> base[o] == e.coin))
  }

  ghost predicate Consistent(cache: EntryMap, base: CoinMap) {
    forall o | o in cache :: EntryConsistent(o, cache[o], base)
  }

  lemma LookUp(cache: EntryMap, base: CoinMap, o: OutPoint)
    ensures o in Overlay(cache, base) <==> if o in cache then !cache[o].coin.IsSpent() else o in base
    ensures o in Overlay(cache, base) ==>
      Overlay(cache, base)[o] == if o in cache then cache[o].coin else base[o]
  {
  }

  lemma Truthful(cache: EntryMap, base: CoinMap, o: OutPoint)
    requires Consistent(cache, base) && o in cache
    ensures EntryConsistent(o, cache[o], base)
  {
  }

  lemma EmptyOverlay(base: CoinMap)
    ensures Overlay(map[], base) == base && Consistent(map[], base) && TotalUsage(map[]) == 0
  {
  }

  /** The view after one entry is put into the cache. */
  lemma PutEntry(cache: EntryMap, base: CoinMap, o: OutPoint, e: Entry)
    requires Consistent(cache, base) && EntryConsistent(o, e, base)
    ensures Consistent(cache[o := e], base)
    ensures Overlay(cache[o := e], base)
            == if e.coin.IsSpent() then Overlay(cache, base) - {o} else Overlay(cache, base)[o := e.coin]
  {
    var cache' := cache[o := e];
    forall p | p in cache' ensures EntryConsistent(p, cache'[p], base) {
      if p != o { assert EntryConsistent(p, cache[p], base); }
    }
  }

  /** The view after one entry is dropped from the cache. */
  lemma DropEntry(cache: EntryMap, base: CoinMap, o: OutPoint)
    requires Consistent(cache, base)
    ensures Consistent(cache - {o}, base)
    ensures Overlay(cache - {o}, base)
            == if o in base then Overlay(cache, base)[o := base[o]] else Overlay(cache, base) - {o}
  {
    forall p | p in cache - {o} ensures EntryConsistent(p, (cache - {o})[p], base) {
      assert EntryConsistent(p, cache[p], base);
    }
  }

  /** What BatchWrite has to make of a view: only DIRTY entries are carried over. */
  ghost function Written(cache: EntryMap, view: CoinMap): CoinMap {
    map o | o in cache.Keys + view.Keys && (o in cache && cache[o].isDirty ==> !cache[o].coin.IsSpent())
            && (o in cache && !cache[o].isDirty ==> o in view)
      :: if o in cache && cache[o].isDirty then cache[o].coin else view[o]
  }

  /** Some way through BatchWrite: the entries in `rest` are still to be carried over from `m`. */
  ghost predicate PartlyWritten(m: EntryMap, rest: EntryMap, before: CoinMap, now: CoinMap) {
    && rest.Keys <= m.Keys && (forall o | o in rest :: rest[o] == m[o])
    && (forall o | o in rest :: (o in now <==> o in before) && (o in now ==> now[o] == before[o]))
    && (forall o | o !in rest ::
          (o in now <==> o in Written(m, before)) && (o in now ==> now[o] == Written(m, before)[o]))
  }

  /** The view after one DIRTY entry is carried over. */
  ghost function WriteOne(view: CoinMap, o: OutPoint, coin: Coin): CoinMap {
    if coin.IsSpent() then view - {o} else view[o := coin]
  }

  lemma WriteStep(m: EntryMap, rest: EntryMap, before: CoinMap, now: CoinMap, o: OutPoint)
    requires PartlyWritten(m, rest, before, now) && o in rest
    ensures o in m && m[o] == rest[o] && (o in now <==> o in before)
    ensures PartlyWritten(m, rest - {o}, before, if m[o].isDirty then WriteOne(now, o, m[o].coin) else now)
  {
  }

  lemma WriteStart(m: EntryMap, before: CoinMap)
    ensures PartlyWritten(m, m, before, before)
  {
  }

  lemma WriteEnd(m: EntryMap, before: CoinMap, now: CoinMap)
    requires PartlyWritten(m, map[], before, now)
    ensures now == Written(m, before)
  {
  }

  /** Skipping the clean entries loses nothing. */
  lemma WrittenIsOverlay(cache: EntryMap, view: CoinMap)
    requires Consistent(cache, view)
    ensures Written(cache, view) == Overlay(cache, view)
  {
    forall o
      ensures o in Written(cache, view) <==> o in Overlay(cache, view)
      ensures o in Written(cache, view) ==> Written(cache, view)[o] == Overlay(cache, view)[o]
    {
      if o in cache { assert EntryConsistent(o, cache[o], view); }
    }
  }

  /** The entry AddCoin leaves behind when it does not throw. */
  function AddedEntry(cache: EntryMap, o: OutPoint, coin: Coin, possibleOverwrite: bool): Entry {
    var e := if o in cache then cache[o] else Entry(NullCoin, false, false);
    Entry(coin, true, e.isFresh || (!possibleOverwrite && !e.isDirty))
  }

  predicate AddThrows(cache: EntryMap, o: OutPoint, possibleOverwrite: bool) {
    !possibleOverwrite && o in cache && !cache[o].coin.IsSpent()
  }

  /** AddCoin keeps the flags truthful exactly when the caller either allows an overwrite, or the
      outpoint is already cached, or the layer below has no unspent coin there. */
  lemma AddPromiseIsExact(cache: EntryMap, base: CoinMap, o: OutPoint, coin: Coin, possibleOverwrite: bool)
    requires Consistent(cache, base) && !AddThrows(cache, o, possibleOverwrite)
    ensures Consistent(cache[o := AddedEntry(cache, o, coin, possibleOverwrite)], base)
            <==> possibleOverwrite || o in cache || o !in base
    ensures EntryConsistent(o, AddedEntry(cache, o, coin, possibleOverwrite), base)
            <==> possibleOverwrite || o in cache || o !in base
  {
    var cache' := cache[o := AddedEntry(cache, o, coin, possibleOverwrite)];
    if o in cache { assert EntryConsistent(o, cache[o], base); }
    if possibleOverwrite || o in cache || o !in base {
      forall p | p in cache' ensures EntryConsistent(p, cache'[p], base) {
        if p != o { assert EntryConsistent(p, cache[p], base); }
      }
    } else {
      assert !EntryConsistent(o, cache'[o], base);
    }
  }

  // ---------------------------------------------------------------------------------------------
  // Memory accounting
  // ---------------------------------------------------------------------------------------------

  ghost function TotalUsage(cache: EntryMap): nat {
    if cache == map[] then 0
    else
      var o :| o in cache;
      cache[o].coin.DynamicMemoryUsage() + TotalUsage(cache - {o})
  }

  lemma {:induction false} TotalUsageRemove(cache: EntryMap, o: OutPoint)
    requires o in cache
    ensures TotalUsage(cache) == cache[o].coin.DynamicMemoryUsage() + TotalUsage(cache - {o})
    decreases |cache|
  {
    var p :| p in cache && TotalUsage(cache) == cache[p].coin.DynamicMemoryUsage() + TotalUsage(cache - {p});
    if p != o {
      TotalUsageRemove(cache - {p}, o);
      TotalUsageRemove(cache - {o}, p);
      assert cache - {p} - {o} == cache - {o} - {p};
    }
  }

  lemma TotalUsagePut(cache: EntryMap, o: OutPoint, e: Entry)
    ensures TotalUsage(cache[o := e]) == e.coin.DynamicMemoryUsage() + TotalUsage(cache - {o})
  {
    TotalUsageRemove(cache[o := e], o);
    assert cache[o := e] - {o} == cache - {o};
  }

  /** Total usage after removing `o`, whether or not it was there. */
  lemma TotalUsageDrop(cache: EntryMap, o: OutPoint)
    ensures TotalUsage(cache - {o})
            == TotalUsage(cache) - (if o in cache then cache[o].coin.DynamicMemoryUsage() else 0)
  {
    if o in cache { TotalUsageRemove(cache, o); } else { assert cache - {o} == cache; }
  }
}
