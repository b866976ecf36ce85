/** Selecting transactions for a block, BlockAssembler::addPackageTxs (src/miner.cpp, src/miner.h). */
module BlockAssembler {
  import opened Mempool

  const MAX_BLOCK_SIGOPS_COST := 80000
  const WITNESS_SCALE_FACTOR := 4
  const MAX_CONSECUTIVE_FAILURES := 1000

  type Modified = map<Tx, Totals>

  // ---------------------------------------------------------------------------------------------
  // The index of modified entries
  // ---------------------------------------------------------------------------------------------

  /** The fees of an entry whose first ancestor to go was `first`: it lost the modified fee of that one and
      the base fee of each that followed. */
  ghost predicate FeesAfter(pool: Pool, gone: set<Tx>, t: Tx, fees: int, first: Tx) {
    && first in pool.Package(t) * gone
    && fees == FeeSum(pool.modifiedFee, pool.Package(t) - {first}) - FeeSum(pool.fee, pool.Package(t) * gone - {first})
  }

  ghost predicate FeesTracked(pool: Pool, gone: set<Tx>, t: Tx, fees: int) {
    exists first :: FeesAfter(pool, gone, t, fees, first)
  }

  lemma FeesFirst(pool: Pool, gone: set<Tx>, t: Tx, it: Tx)
    requires pool.Package(t) !! gone && it in pool.Package(t)
    ensures FeesTracked(pool, gone + {it}, t, FeeSum(pool.modifiedFee, pool.Package(t)) - pool.modifiedFee(it))
  {
    FeeSumRemove(pool.modifiedFee, pool.Package(t), it);
    assert pool.Package(t) * (gone + {it}) - {it} == {};
    assert FeesAfter(pool, gone + {it}, t, FeeSum(pool.modifiedFee, pool.Package(t)) - pool.modifiedFee(it), it);
  }

  lemma FeesNext(pool: Pool, gone: set<Tx>, t: Tx, it: Tx, fees: int)
    requires FeesTracked(pool, gone, t, fees) && it in pool.Package(t) && it !in gone
    ensures FeesTracked(pool, gone + {it}, t, fees - pool.fee(it))
  {
    var first :| FeesAfter(pool, gone, t, fees, first);
    var lost := pool.Package(t) * (gone + {it}) - {first};
    FeeSumRemove(pool.fee, lost, it);
    assert lost - {it} == pool.Package(t) * gone - {first};
    assert FeesAfter(pool, gone + {it}, t, fees - pool.fee(it), first);
  }

  /** The fees an entry should have: those of what is left of its package. */
  ghost predicate FeesExact(pool: Pool, gone: set<Tx>, t: Tx, fees: int) {
    fees == FeeSum(pool.modifiedFee, pool.Package(t) - gone)
  }

  /** They are right exactly if the ancestors that went after the first have, together, no priority delta. */
  lemma FeesExactWhen(pool: Pool, gone: set<Tx>, t: Tx, fees: int, first: Tx)
    requires FeesAfter(pool, gone, t, fees, first)
    ensures FeesExact(pool, gone, t, fees)
      <==> FeeSum(pool.modifiedFee, pool.Package(t) * gone - {first}) == FeeSum(pool.fee, pool.Package(t) * gone - {first})
  {
    var rest := pool.Package(t) - {first};
    FeeSumSplit(pool.modifiedFee, rest, pool.Package(t) * gone - {first});
    assert rest - (pool.Package(t) * gone - {first}) == pool.Package(t) - gone;
  }

  /** In particular, if no transaction was prioritised. */
  lemma FeesExactUnprioritised(pool: Pool, gone: set<Tx>, t: Tx, fees: int)
    requires FeesTracked(pool, gone, t, fees)
    requires forall a | a in pool.Package(t) * gone :: pool.modifiedFee(a) == pool.fee(a)
    ensures FeesExact(pool, gone, t, fees)
  {
    var first :| FeesAfter(pool, gone, t, fees, first);
    FeesExactWhen(pool, gone, t, fees, first);
    FeeSumSame(pool.modifiedFee, pool.fee, pool.Package(t) * gone - {first});
  }

  /** What the index knows about one transaction when the transactions in `gone` have been taken out of
      its package: sizes never too small, and exact unless the transaction failed before; fees as
      FeesAfter says. A transaction that is not in the index and never failed has lost nothing. */
  ghost predicate TracksAt(pool: Pool, gone: set<Tx>, failed: set<Tx>, m: Modified, t: Tx) {
    && (t in m ==>
          && m[t].size >= Sum(pool.size, pool.Package(t) - gone)
          && m[t].sigOps >= Sum(pool.sigOps, pool.Package(t) - gone))
    && (t in m && t !in failed ==>
          && m[t].size == Sum(pool.size, pool.Package(t) - gone)
          && m[t].sigOps == Sum(pool.sigOps, pool.Package(t) - gone)
          && FeesTracked(pool, gone, t, m[t].fees))
    && (t !in m && t !in failed ==> pool.Package(t) !! gone)
  }

  ghost predicate Tracks(pool: Pool, gone: set<Tx>, block: set<Tx>, failed: set<Tx>, m: Modified) {
    && m.Keys <= pool.txs - block
    && forall t | t in pool.txs && t !in block :: TracksAt(pool, gone, failed, m, t)
  }

  /** The entry of a descendant after one of its ancestors went into the block. */
  function Reduced(pool: Pool, m: Modified, it: Tx, desc: Tx): Totals {
    if desc in m then
      Totals(m[desc].size - pool.size(it), m[desc].fees - pool.fee(it), m[desc].sigOps - pool.sigOps(it))
    else
      var e := pool.withAncestors(desc);
      Totals(e.size - pool.size(it), e.fees - pool.modifiedFee(it), e.sigOps - pool.sigOps(it))
  }

  lemma TracksReduce(pool: Pool, gone: set<Tx>, failed: set<Tx>, m: Modified, it: Tx, t: Tx)
    requires pool.Valid() && t in pool.txs && it in pool.Package(t) && it !in gone && TracksAt(pool, gone, failed, m, t)
    ensures TracksAt(pool, gone + {it}, failed, m[t := Reduced(pool, m, it, t)], t)
    ensures Reduced(pool, m, it, t).size >= 0 && Reduced(pool, m, it, t).sigOps >= 0
  {
    hide FeesTracked, Sum, FeeSum;
    SumTake(pool.size, pool.Package(t), gone, it);
    SumTake(pool.sigOps, pool.Package(t), gone, it);
    if t !in m {
      SumSubset(pool.size, pool.Package(t) - gone, pool.Package(t));
      SumSubset(pool.sigOps, pool.Package(t) - gone, pool.Package(t));
      if t !in failed {
        assert pool.Package(t) - gone == pool.Package(t);
        FeesFirst(pool, gone, t, it);
      }
    } else if t !in failed {
      FeesNext(pool, gone, t, it, m[t].fees);
    }
  }

  lemma TracksSkip(pool: Pool, gone: set<Tx>, failed: set<Tx>, m: Modified, it: Tx, t: Tx)
    requires it !in pool.Package(t) && TracksAt(pool, gone, failed, m, t)
    ensures TracksAt(pool, gone + {it}, failed, m, t)
  {
    assert pool.Package(t) - (gone + {it}) == pool.Package(t) - gone;
    assert pool.Package(t) * (gone + {it}) == pool.Package(t) * gone;
    assert forall fees, first :: FeesAfter(pool, gone, t, fees, first) ==> FeesAfter(pool, gone + {it}, t, fees, first);
  }

  lemma TracksOther(pool: Pool, gone: set<Tx>, failed: set<Tx>, m: Modified, m': Modified, t: Tx)
    requires TracksAt(pool, gone, failed, m, t) && (t in m <==> t in m') && (t in m ==> m[t] == m'[t])
    ensures TracksAt(pool, gone, failed, m', t)
  {
  }

  /** Part of the way through the descendants of `it`: those in `todo` still have to lose it. */
  ghost predicate PartlyReduced(pool: Pool, gone: set<Tx>, block: set<Tx>, failed: set<Tx>, m: Modified, it: Tx, todo: set<Tx>) {
    && m.Keys <= pool.txs - block
    && forall t | t in pool.txs && t !in block :: TracksAt(pool, if t in todo then gone else gone + {it}, failed, m, t)
  }

  lemma ReduceStart(pool: Pool, gone: set<Tx>, block: set<Tx>, failed: set<Tx>, m: Modified, it: Tx)
    requires Tracks(pool, gone, block, failed, m)
    ensures PartlyReduced(pool, gone, block, failed, m, it, pool.Descendants(it))
  {
    hide TracksAt;
    forall t | t in pool.txs && t !in block && t !in pool.Descendants(it)
      ensures TracksAt(pool, gone + {it}, failed, m, t)
    {
      TracksSkip(pool, gone, failed, m, it, t);
    }
  }

  lemma ReduceStep(pool: Pool, gone: set<Tx>, block: set<Tx>, failed: set<Tx>, m: Modified, it: Tx, todo: set<Tx>, desc: Tx)
    requires pool.Valid() && PartlyReduced(pool, gone, block, failed, m, it, todo) && it !in gone
    requires desc in todo && desc in pool.Descendants(it)
    ensures desc in block ==> PartlyReduced(pool, gone, block, failed, m, it, todo - {desc})
    ensures desc !in block ==>
      && PartlyReduced(pool, gone, block, failed, m[desc := Reduced(pool, m, it, desc)], it, todo - {desc})
      && Reduced(pool, m, it, desc).size >= 0
  {
    hide TracksAt, Pool.Valid;
    var m' := if desc in block then m else m[desc := Reduced(pool, m, it, desc)];
    if desc !in block { TracksReduce(pool, gone, failed, m, it, desc); }
    forall t | t in pool.txs && t !in block && t != desc
      ensures TracksAt(pool, if t in todo - {desc} then gone else gone + {it}, failed, m', t)
    {
      TracksOther(pool, if t in todo then gone else gone + {it}, failed, m, m', t);
    }
  }

  lemma ReduceEnd(pool: Pool, gone: set<Tx>, block: set<Tx>, failed: set<Tx>, m: Modified, it: Tx)
    requires PartlyReduced(pool, gone, block, failed, m, it, {})
    ensures Tracks(pool, gone + {it}, block, failed, m)
  {
    hide TracksAt;
  }

  /** The block contains all ancestors of its members. */
  ghost predicate Closed(pool: Pool, block: set<Tx>) {
    block <= pool.txs && forall t | t in block :: pool.ancestors(t) <= block
  }

  /** The inner loop of UpdatePackagesForAdded: the descendants of one added transaction. */
  method UpdateDescendants(pool: Pool, it: Tx, alreadyAdded: set<Tx>, mapModified: Modified,
                           ghost gone: set<Tx>, ghost block: set<Tx>, ghost failed: set<Tx>)
    returns (m: Modified, updated: nat)
    requires pool.Valid() && Closed(pool, block) && it in alreadyAdded && it !in block && it !in gone
    requires Tracks(pool, gone, block + alreadyAdded, failed, mapModified)
    ensures Tracks(pool, gone + {it}, block + alreadyAdded, failed, m) && mapModified.Keys <= m.Keys
    ensures updated == |pool.Descendants(it) - alreadyAdded|
  {
    hide Pool.Valid, Pool.Descendants, Closed, Tracks, PartlyReduced;
    m, updated := mapModified, 0;
    var todo := pool.Descendants(it);
    ReduceStart(pool, gone, block + alreadyAdded, failed, m, it);
    while todo != {}
      invariant todo <= pool.Descendants(it) && mapModified.Keys <= m.Keys
      invariant PartlyReduced(pool, gone, block + alreadyAdded, failed, m, it, todo)
      invariant updated + |todo - alreadyAdded| == |pool.Descendants(it) - alreadyAdded|
      decreases todo
    {
      var desc :| desc in todo;
      ReduceStep(pool, gone, block + alreadyAdded, failed, m, it, todo, desc);
      OutsideBlock(pool, block, it, desc);
      OneFewer(todo, alreadyAdded, desc);
      if desc !in alreadyAdded {
        updated := updated + 1;
        m := m[desc := Reduced(pool, m, it, desc)];
      }
      todo := todo - {desc};
    }
    ReduceEnd(pool, gone, block + alreadyAdded, failed, m, it);
  }

  /** A block that contains all ancestors of its members has no descendant of an outsider. */
  lemma OutsideBlock(pool: Pool, block: set<Tx>, it: Tx, desc: Tx)
    requires Closed(pool, block) && it !in block && desc in pool.Descendants(it)
    ensures desc !in block
  {
  }

  lemma OneFewer(todo: set<Tx>, added: set<Tx>, t: Tx)
    requires t in todo
    ensures |todo - {t} - added| == |todo - added| - if t in added then 0 else 1
  {
    assert todo - {t} - added == todo - added - {t};
  }

  /** UpdatePackagesForAdded: every descendant of the added transactions gets an entry without them. */
  method UpdatePackagesForAdded(pool: Pool, alreadyAdded: set<Tx>, mapModified: Modified,
                                ghost block: set<Tx>, ghost failed: set<Tx>)
    returns (m: Modified, nDescendantsUpdated: nat)
    requires pool.Valid() && Closed(pool, block) && block !! alreadyAdded
    requires Tracks(pool, block, block + alreadyAdded, failed, mapModified)
    ensures Tracks(pool, block + alreadyAdded, block + alreadyAdded, failed, m)
    ensures mapModified.Keys <= m.Keys && (alreadyAdded == {} ==> m == mapModified)
  {
    hide Pool.Valid, Pool.Descendants, Tracks, Closed;
    m, nDescendantsUpdated := mapModified, 0;
    var rest := alreadyAdded;
    ghost var gone, all := block, block + alreadyAdded;
    assert gone == all - rest;
    while rest != {}
      invariant rest <= alreadyAdded && gone == all - rest
      invariant mapModified.Keys <= m.Keys && (alreadyAdded == {} ==> m == mapModified)
      invariant Tracks(pool, gone, all, failed, m)
      decreases rest
    {
      var it :| it in rest;
      var n;
      m, n := UpdateDescendants(pool, it, alreadyAdded, m, gone, block, failed);
      nDescendantsUpdated := nDescendantsUpdated + n;
      rest := rest - {it};
      gone := gone + {it};
      assert gone == all - rest;
    }
    assert gone == all;
  }

  // ---------------------------------------------------------------------------------------------
  // The order within a package
  // ---------------------------------------------------------------------------------------------

  function Count(pool: Pool, t: Tx): nat { |pool.ancestors(t)| + 1 }

  /** CompareTxIterByAncestorCount. */
  predicate SortsBefore(pool: Pool, t: Tx, u: Tx) {
    Count(pool, t) < Count(pool, u) || (Count(pool, t) == Count(pool, u) && t < u)
  }

  lemma {:induction false} SubsetSize(a: set<Tx>, b: set<Tx>)
    requires a <= b
    ensures |a| <= |b|
    decreases a
  {
    if a != {} {
      var x :| x in a;
      SubsetSize(a - {x}, b - {x});
    }
  }

  /** An ancestor has fewer ancestors. */
  lemma AncestorCounts(pool: Pool, t: Tx, a: Tx)
    requires pool.Valid() && t in pool.txs && a in pool.ancestors(t)
    ensures Count(pool, a) < Count(pool, t)
  {
    hide Pool.SumsExact, Pool.InOrder;
    assert a in pool.txs;
    SubsetSize(pool.ancestors(a) + {a}, pool.ancestors(t));
  }

  method First(pool: Pool, s: set<Tx>) returns (t: Tx)
    requires s != {}
    ensures t in s && forall u | u in s :: !SortsBefore(pool, u, t)
  {
    t :| t in s;
    var rest := s - {t};
    while rest != {}
      invariant rest <= s && t in s && t !in rest && forall u | u in s && u !in rest :: !SortsBefore(pool, u, t)
      decreases rest
    {
      var u :| u in rest;
      if SortsBefore(pool, u, t) {
        t := u;
      }
      rest := rest - {u};
    }
  }

  /** SortForBlock: the package, each member once, by ancestor count. */
  method SortForBlock(pool: Pool, package: set<Tx>) returns (sorted: seq<Tx>)
    ensures forall t :: t in sorted <==> t in package
    ensures forall i, j | 0 <= i < j < |sorted| :: SortsBefore(pool, sorted[i], sorted[j])
  {
    hide SortsBefore;
    sorted := [];
    var rest := package;
    while rest != {}
      invariant rest <= package && forall t :: t in sorted <==> t in package - rest
      invariant forall i, j | 0 <= i < j < |sorted| :: SortsBefore(pool, sorted[i], sorted[j])
      invariant forall i, u | 0 <= i < |sorted| && u in rest :: SortsBefore(pool, sorted[i], u)
      decreases rest
    {
      var t := First(pool, rest);
      sorted := sorted + [t];
      rest := rest - {t};
      forall u | u in rest ensures SortsBefore(pool, t, u) { SortsTotal(pool, u, t); }
    }
  }

  lemma SortsTotal(pool: Pool, t: Tx, u: Tx)
    requires t != u
    ensures SortsBefore(pool, t, u) || SortsBefore(pool, u, t)
  {
  }

  // ---------------------------------------------------------------------------------------------
  // The block under construction
  // ---------------------------------------------------------------------------------------------

  /** The block lists its transactions once each, and every transaction after all its ancestors. */
  ghost predicate Placed(pool: Pool, vtx: seq<Tx>, inBlock: set<Tx>) {
    && (forall t :: t in inBlock <==> t in vtx)
    && (forall i | 0 <= i < |vtx| ::
          && vtx[i] in pool.txs && vtx[i] !in vtx[..i]
          && forall a | a in pool.ancestors(vtx[i]) :: a in vtx[..i])
  }

  lemma PlacedClosed(pool: Pool, vtx: seq<Tx>, inBlock: set<Tx>)
    requires Placed(pool, vtx, inBlock)
    ensures Closed(pool, inBlock)
  {
    forall t, a | t in inBlock && a in pool.ancestors(t) ensures a in inBlock {
      var i :| 0 <= i < |vtx| && vtx[i] == t;
      assert a in vtx[..i];
    }
  }

  lemma PlaceOne(pool: Pool, vtx: seq<Tx>, inBlock: set<Tx>, t: Tx)
    requires Placed(pool, vtx, inBlock) && t in pool.txs && t !in inBlock && pool.ancestors(t) <= inBlock
    ensures Placed(pool, vtx + [t], inBlock + {t})
  {
    var vtx' := vtx + [t];
    forall i | 0 <= i < |vtx'|
      ensures vtx'[i] in pool.txs && vtx'[i] !in vtx'[..i] && forall a | a in pool.ancestors(vtx'[i]) :: a in vtx'[..i]
    {
      if i < |vtx| { assert vtx'[..i] == vtx[..i]; } else { assert vtx'[..i] == vtx; }
    }
  }

  function Fees(pool: Pool, vtx: seq<Tx>): int {
    if vtx == [] then 0 else Fees(pool, vtx[..|vtx| - 1]) + pool.fee(vtx[|vtx| - 1])
  }

  /** Why addPackageTxs ended: nothing left to try, the best fee rate too low, or too many failures. */
  datatype Stop = Exhausted | LowFees | GaveUp

  /** What became of a chosen package. */
  datatype Outcome = Added | TooCheap | TooLarge | Unminable

  /** One round of a selection: the modified index, how far the mempool's index has been passed, and the block
      at that time; and the entry chosen, with its totals. */
  datatype Round = Round(index: Modified, mi: nat, block: set<Tx>, tx: Tx, totals: Totals)

  class Assembler {
    const pool: Pool
    const nBlockMaxWeight: nat
    const minFee: int -> int       // blockMinFeeRate.GetFee
    const mayMine: Tx -> bool      // TestPackageTransactions, for one transaction
    var inBlock: set<Tx>
    var vtx: seq<Tx>
    var nBlockWeight: int
    var nBlockTx: int
    var nBlockSigOpsCost: int
    var nFees: int

    /** The counters are those of the listed transactions, and the limits hold: an empty template may
        reach them with the coinbase reserve alone, any other is strictly below. */
    ghost predicate Valid()
      reads this
    {
      && pool.Valid()
      && Placed(pool, vtx, inBlock)
      && nBlockWeight == 4000 + Sum(pool.weight, inBlock)
      && nBlockSigOpsCost == 400 + Sum(pool.sigOps, inBlock)
      && nBlockTx == |vtx| && nFees == Fees(pool, vtx)
    }

    ghost predicate WithinLimits()
      reads this
    {
      && (inBlock == {} || nBlockWeight < nBlockMaxWeight)
      && nBlockSigOpsCost < MAX_BLOCK_SIGOPS_COST
      && forall t | t in inBlock :: mayMine(t)
    }

    /** The constructor clamps the weight limit; resetBlock reserves room for the coinbase. */
    constructor (pool: Pool, maxWeight: nat, minFee: int -> int, mayMine: Tx -> bool)
      requires pool.Valid()
      ensures Valid() && WithinLimits() && inBlock == {} && vtx == []
      ensures this.pool == pool && this.minFee == minFee && this.mayMine == mayMine
      ensures nBlockMaxWeight == if maxWeight < 4000 then 4000 else if maxWeight > 3996000 then 3996000 else maxWeight
    {
      this.pool, this.minFee, this.mayMine := pool, minFee, mayMine;
      var m := if maxWeight < 4000000 - 4000 then maxWeight else 4000000 - 4000;
      nBlockMaxWeight := if m < 4000 then 4000 else m;
      inBlock, vtx := {}, [];
      nBlockWeight, nBlockSigOpsCost, nBlockTx, nFees := 4000, 400, 0, 0;
    }

    predicate TestPackage(packageSize: int, packageSigOpsCost: int)
      reads this
    {
      && nBlockWeight + WITNESS_SCALE_FACTOR * packageSize < nBlockMaxWeight
      && nBlockSigOpsCost + packageSigOpsCost < MAX_BLOCK_SIGOPS_COST
    }

    method AddToBlock(t: Tx)
      requires Valid() && t in pool.txs && t !in inBlock && pool.ancestors(t) <= inBlock
      modifies this
      ensures Valid() && vtx == old(vtx) + [t] && inBlock == old(inBlock) + {t}
    {
      hide Pool.Valid, Placed, Sum;
      PlaceOne(pool, vtx, inBlock, t);
      SumAdd(pool.weight, inBlock, t);
      SumAdd(pool.sigOps, inBlock, t);
      vtx := vtx + [t];
      nBlockWeight := nBlockWeight + pool.weight(t);
      nBlockTx := nBlockTx + 1;
      nBlockSigOpsCost := nBlockSigOpsCost + pool.sigOps(t);
      nFees := nFees + pool.fee(t);
      inBlock := inBlock + {t};
      assert vtx[..|vtx| - 1] == old(vtx);
    }

    /** onlyUnconfirmed: the members of a set that are not in the block. */
    method OnlyUnconfirmed(testSet: set<Tx>) returns (r: set<Tx>)
      ensures r == testSet - inBlock
    {
      r := testSet;
      var rest := testSet;
      while rest != {}
        invariant rest <= r <= testSet && forall t | t in testSet && t !in rest :: t in r <==> t !in inBlock
        decreases rest
      {
        var t :| t in rest;
        if t in inBlock {
          r := r - {t};
        }
        rest := rest - {t};
      }
    }

    /** A sorted package is entered; each of its members is dropped from the modified entries. */
    method AddSorted(sorted: seq<Tx>, ghost package: set<Tx>, mapModified: Modified) returns (m: Modified)
      requires Valid() && package !! inBlock && forall t :: t in sorted <==> t in package
      requires forall i, j | 0 <= i < j < |sorted| :: SortsBefore(pool, sorted[i], sorted[j])
      requires forall t | t in package :: t in pool.txs && pool.ancestors(t) <= inBlock + package
      modifies this
      ensures Valid() && inBlock == old(inBlock) + package && vtx == old(vtx) + sorted
      ensures m == mapModified - package
    {
      hide Pool.Valid, Placed, Sum, Fees, SortsBefore;
      m := mapModified;
      ghost var done := {};
      for i := 0 to |sorted|
        invariant Valid() && inBlock == old(inBlock) + done && vtx == old(vtx) + sorted[..i]
        invariant done <= package && m == mapModified - done
        invariant forall t :: t in done <==> t in sorted[..i]
      {
        var t := sorted[i];
        Unique(pool, sorted, i);
        forall a | a in pool.ancestors(t) ensures a in inBlock {
          if a in package {
            var j :| 0 <= j < |sorted| && sorted[j] == a;
            AncestorFirst(pool, sorted, i, j);
            assert a in sorted[..i];
          }
        }
        AddToBlock(t);
        m := m - {t};
        done := done + {t};
        assert sorted[..i + 1] == sorted[..i] + [t];
      }
      assert done == package && sorted[..|sorted|] == sorted;
    }

    /** A package that passed the tests goes into the block, and the index is brought up to date. */
    method AddPackage(iter: Tx, totals: Totals, mapModified: Modified, ghost failed: set<Tx>)
      returns (added: bool, m: Modified, updated: nat)
      requires Valid() && WithinLimits() && iter in pool.txs && iter !in inBlock
      requires totals.size >= Sum(pool.size, pool.Package(iter) - inBlock)
      requires totals.sigOps >= Sum(pool.sigOps, pool.Package(iter) - inBlock)
      requires TestPackage(totals.size, totals.sigOps)
      requires Tracks(pool, inBlock, inBlock, failed, mapModified)
      modifies this
      ensures Valid() && WithinLimits() && Tracks(pool, inBlock, inBlock, failed, m)
      ensures added <==> forall t | t in pool.Package(iter) && t !in old(inBlock) :: mayMine(t)
      ensures added ==> inBlock == old(inBlock) + pool.Package(iter) && old(vtx) <= vtx && mapModified.Keys <= m.Keys + inBlock
      ensures added ==> forall i, j | |old(vtx)| <= i < j < |vtx| :: SortsBefore(pool, vtx[i], vtx[j])
      ensures !added ==> inBlock == old(inBlock) && vtx == old(vtx) && m == mapModified
      ensures !added ==> nBlockWeight == old(nBlockWeight) && nBlockSigOpsCost == old(nBlockSigOpsCost)
    {
      hide Pool.Valid, Placed, Sum, Fees, Tracks, SortsBefore;
      m, updated := mapModified, 0;
      var ancestors := OnlyUnconfirmed(pool.ancestors(iter));
      var package := ancestors + {iter};
      assert package == pool.Package(iter) - inBlock;
      added := forall t | t in package :: mayMine(t);
      if !added {
        return;
      }
      PlacedClosed(pool, vtx, inBlock);
      PackageClosed(pool, iter, inBlock);
      PackageFits(pool, package, inBlock);
      var sorted := SortForBlock(pool, package);
      ghost var before := inBlock;
      TracksErase(pool, inBlock, package, failed, m);
      m := AddSorted(sorted, package, m);
      m, updated := UpdatePackagesForAdded(pool, package, m, before, failed);
      assert inBlock == before + pool.Package(iter);
    }

    /** SkipMapTxEntry. */
    predicate Skips(t: Tx, m: Modified, failed: set<Tx>)
      reads this
    {
      t in m || t in inBlock || t in failed
    }

    /** The best of the modified entries: the begin() of their score index. */
    method BestModified(m: Modified) returns (best: Tx)
      requires m != map[]
      ensures best in m && forall u | u in m :: !pool.Better(u, m[u], best, m[best])
    {
      hide Pool.Better;
      best :| best in m;
      var rest := m.Keys - {best};
      forall t, e ensures !pool.Better(t, e, t, e) { BetterIrreflexive(pool, t, e); }
      while rest != {}
        invariant best in m && rest <= m.Keys && forall u | u in m && u !in rest :: !pool.Better(u, m[u], best, m[best])
        decreases rest
      {
        var u :| u in rest;
        if pool.Better(u, m[u], best, m[best]) {
          forall v | v in m && v !in rest ensures !pool.Better(v, m[v], u, m[u]) {
            BetterNot(pool, u, m[u], best, m[best]);
            NotBetterTrans(pool, v, m[v], best, m[best], u, m[u]);
          }
          best := u;
        }
        rest := rest - {u};
      }
    }

    /** The next package to try, from the mempool index or from the modified entries, whichever is better:
        nothing that is still to be considered has a better score. */
    method ChooseNext(mi: nat, m: Modified) returns (iter: Tx, totals: Totals, usingModified: bool)
      requires pool.Valid() && mi <= |pool.order| && (mi < |pool.order| || m != map[])
      ensures usingModified ==> iter in m && totals == m[iter]
      ensures !usingModified ==> mi < |pool.order| && iter == pool.order[mi] && totals == pool.withAncestors(iter)
      ensures forall u | u in m :: !pool.Better(u, m[u], iter, totals)
      ensures forall j | mi <= j < |pool.order| ::
        !pool.Better(pool.order[j], pool.withAncestors(pool.order[j]), iter, totals)
    {
      hide Pool.Better;
      if m != map[] {
        var best := BestModified(m);
        usingModified := mi == |pool.order| || pool.Better(best, m[best], pool.order[mi], pool.withAncestors(pool.order[mi]));
        if usingModified {
          iter, totals := best, m[best];
          if mi < |pool.order| { RestOfIndex(pool, mi, iter, totals); }
          return;
        }
        forall u | u in m ensures !pool.Better(u, m[u], pool.order[mi], pool.withAncestors(pool.order[mi])) {
          NotBetterTrans(pool, u, m[u], best, m[best], pool.order[mi], pool.withAncestors(pool.order[mi]));
        }
      }
      usingModified := false;
      iter := pool.order[mi];
      totals := pool.withAncestors(iter);
      BetterIrreflexive(pool, iter, totals);
    }

    /** One round of the loop in addPackageTxs, once the package is chosen. A modified entry that fails is
        dropped from the index and remembered. */
    method TryPackage(iter: Tx, totals: Totals, usingModified: bool, mapModified: Modified, failed: set<Tx>)
      returns (fits: bool, added: bool, m: Modified, failed': set<Tx>, updated: nat)
      requires Valid() && WithinLimits() && iter in pool.txs && iter !in inBlock
      requires totals.size >= Sum(pool.size, pool.Package(iter) - inBlock)
      requires totals.sigOps >= Sum(pool.sigOps, pool.Package(iter) - inBlock)
      requires Tracks(pool, inBlock, inBlock, failed, mapModified) && (usingModified ==> iter in mapModified)
      modifies this
      ensures Valid() && WithinLimits() && Tracks(pool, inBlock, inBlock, failed', m)
      ensures fits == old(TestPackage(totals.size, totals.sigOps))
      ensures added <==> fits && forall t | t in pool.Package(iter) && t !in old(inBlock) :: mayMine(t)
      ensures added ==>
        && inBlock == old(inBlock) + pool.Package(iter) && old(vtx) <= vtx && mapModified.Keys <= m.Keys + inBlock
        && failed' == failed && forall i, j | |old(vtx)| <= i < j < |vtx| :: SortsBefore(pool, vtx[i], vtx[j])
      ensures !added ==>
        && inBlock == old(inBlock) && vtx == old(vtx) && m == (if usingModified then mapModified - {iter} else mapModified)
        && failed' == (if usingModified then failed + {iter} else failed)
        && nBlockWeight == old(nBlockWeight) && nBlockSigOpsCost == old(nBlockSigOpsCost)
    {
      hide Pool.Valid, Placed, Sum, Fees, Tracks, TracksAt, Pool.Better, SortsBefore;
      fits, added, m, failed', updated := TestPackage(totals.size, totals.sigOps), false, mapModified, failed, 0;
      if fits {
        added, m, updated := AddPackage(iter, totals, m, failed);
      }
      if !added && usingModified {
        TracksFail(pool, inBlock, failed, m, iter);
        m := m - {iter};
        failed' := failed + {iter};
      }
    }

    // The record of a selection: its rounds, each judged by what was in the block when its turn came.

    /** Would a package with these totals fit into a block with these transactions? */
    ghost predicate FitsIn(block: set<Tx>, totals: Totals) {
      && 4000 + Sum(pool.weight, block) + WITNESS_SCALE_FACTOR * totals.size < nBlockMaxWeight
      && 400 + Sum(pool.sigOps, block) + totals.sigOps < MAX_BLOCK_SIGOPS_COST
    }

    ghost function OutcomeOf(r: Round): Outcome {
      if r.totals.fees < minFee(r.totals.size) then TooCheap
      else if !FitsIn(r.block, r.totals) then TooLarge
      else if exists t | t in pool.Package(r.tx) && t !in r.block :: !mayMine(t) then Unminable
      else Added
    }

    /** The transactions whose round did not put them into the block. */
    ghost function Refused(rounds: seq<Round>): set<Tx> {
      set i | 0 <= i < |rounds| && OutcomeOf(rounds[i]) != Added :: rounds[i].tx
    }

    ghost function BlockAfter(start: set<Tx>, rounds: seq<Round>): set<Tx> {
      if rounds == [] then start
      else
        var n := |rounds| - 1;
        var before := BlockAfter(start, rounds[..n]);
        if OutcomeOf(rounds[n]) == Added then before + pool.Package(rounds[n].tx) else before
    }

    ghost function AddedIn(rounds: seq<Round>): nat {
      if rounds == [] then 0
      else AddedIn(rounds[..|rounds| - 1]) + if OutcomeOf(rounds[|rounds| - 1]) == Added then 1 else 0
    }

    /** The packages that did not fit since the last one that went in. */
    ghost function Misses(rounds: seq<Round>): nat {
      if rounds == [] then 0
      else
        var n := |rounds| - 1;
        match OutcomeOf(rounds[n])
        case Added => 0
        case TooLarge => Misses(rounds[..n]) + 1
        case _ => Misses(rounds[..n])
    }

    /** More than a thousand packages in a row did not fit into a block that is almost full. */
    ghost predicate GivesUp(rounds: seq<Round>) {
      && rounds != [] && OutcomeOf(rounds[|rounds| - 1]) == TooLarge && Misses(rounds) > MAX_CONSECUTIVE_FAILURES
      && 4000 + Sum(pool.weight, rounds[|rounds| - 1].block) > nBlockMaxWeight - 4000
    }

    /** A round takes the best of all candidates. These are the entries of the modified index, which holds what
        the mempool's entries are worth without their ancestors in the block, and the mempool's entries from `mi`
        on; those before are in the index, in the block, or were refused. */
    ghost predicate Greedy(tried: set<Tx>, r: Round) {
      && r.tx in pool.txs && r.tx !in r.block && r.mi <= |pool.order|
      && Tracks(pool, r.block, r.block, tried, r.index)
      && (forall j | 0 <= j < r.mi :: pool.order[j] in r.index || pool.order[j] in r.block || pool.order[j] in tried)
      && (if r.tx in r.index then r.totals == r.index[r.tx]
          else r.mi < |pool.order| && r.tx == pool.order[r.mi] && r.totals == pool.withAncestors(r.tx))
      && (forall u | u in r.index :: !pool.Better(u, r.index[u], r.tx, r.totals))
      && (forall j | r.mi <= j < |pool.order| ::
            !pool.Better(pool.order[j], pool.withAncestors(pool.order[j]), r.tx, r.totals))
    }

    /** The rounds of one selection: each greedy, with the block left by those before, and none after an end. */
    ghost predicate Selection(start: set<Tx>, rounds: seq<Round>) {
      forall i | 0 <= i < |rounds| :: InTurn(start, rounds[..i], rounds[i])
    }

    ghost predicate InTurn(start: set<Tx>, before: seq<Round>, r: Round) {
      && r.block == BlockAfter(start, before) && Greedy(Refused(before), r)
      && !GivesUp(before) && (before != [] ==> OutcomeOf(before[|before| - 1]) != TooCheap)
    }

    /** A transaction that was not refused before is judged by what its package would really add; and by its real
        fees, if none of its ancestors in the block was prioritised. */
    lemma RoundExact(start: set<Tx>, rounds: seq<Round>, i: nat)
      requires pool.Valid() && Selection(start, rounds) && i < |rounds| && rounds[i].tx !in Refused(rounds[..i])
      ensures var r := rounds[i];
        && r.totals.size == Sum(pool.size, pool.Package(r.tx) - r.block)
        && r.totals.sigOps == Sum(pool.sigOps, pool.Package(r.tx) - r.block)
        && ((forall a | a in pool.Package(r.tx) * r.block :: pool.modifiedFee(a) == pool.fee(a)) ==>
              FeesExact(pool, r.block, r.tx, r.totals.fees))
    {
      hide Sum, FeeSum, BlockAfter, Refused, GivesUp, Tracks, Pool.Better, OutcomeOf, Pool.Valid, FeesExact;
      var r := rounds[i];
      assert InTurn(start, rounds[..i], r);
      CandidateExact(pool, r.block, Refused(rounds[..i]), r.index, r.tx, r.totals, r.tx in r.index);
    }

    lemma SelectionNext(start: set<Tx>, rounds: seq<Round>, r: Round)
      requires Selection(start, rounds) && r.block == BlockAfter(start, rounds) && Greedy(Refused(rounds), r)
      requires !GivesUp(rounds) && (rounds != [] ==> OutcomeOf(rounds[|rounds| - 1]) != TooCheap)
      ensures Selection(start, rounds + [r])
    {
      hide Greedy, GivesUp, OutcomeOf, BlockAfter, Refused;
      var rounds' := rounds + [r];
      forall i | 0 <= i < |rounds'| ensures InTurn(start, rounds'[..i], rounds'[i]) {
        assert rounds'[..i] == rounds[..i];
      }
      assert rounds[..|rounds|] == rounds;
    }

    /** What one more round does to the figures. */
    lemma RoundCounts(start: set<Tx>, rounds: seq<Round>, r: Round)
      ensures var o, rounds' := OutcomeOf(r), rounds + [r];
        && BlockAfter(start, rounds') == BlockAfter(start, rounds) + (if o == Added then pool.Package(r.tx) else {})
        && Refused(rounds') == Refused(rounds) + (if o == Added then {} else {r.tx})
        && AddedIn(rounds') == AddedIn(rounds) + (if o == Added then 1 else 0)
        && Misses(rounds') == (if o == Added then 0 else if o == TooLarge then Misses(rounds) + 1 else Misses(rounds))
        && GivesUp(rounds') == (o == TooLarge && Misses(rounds') > MAX_CONSECUTIVE_FAILURES
                                && 4000 + Sum(pool.weight, r.block) > nBlockMaxWeight - 4000)
    {
      hide OutcomeOf, Sum;
      var rounds' := rounds + [r];
      assert rounds'[..|rounds|] == rounds && rounds'[|rounds|] == r;
      forall t ensures t in Refused(rounds') <==> t in Refused(rounds) || (OutcomeOf(r) != Added && t == r.tx) {
        if t in Refused(rounds) {
          var i :| 0 <= i < |rounds| && OutcomeOf(rounds[i]) != Added && rounds[i].tx == t;
          assert rounds'[i] == rounds[i];
        }
        if t in Refused(rounds') {
          var i :| 0 <= i < |rounds'| && OutcomeOf(rounds'[i]) != Added && rounds'[i].tx == t;
          assert i < |rounds| ==> rounds'[i] == rounds[i];
        }
        if OutcomeOf(r) != Added && t == r.tx { assert rounds'[|rounds|].tx == t; }
      }
    }

    /** Where a selection stands between two rounds. */
    ghost predicate Between(start: set<Tx>, rounds: seq<Round>, block: set<Tx>, mi: nat, m: Modified, failed: set<Tx>) {
      && Selection(start, rounds) && block == BlockAfter(start, rounds) && failed <= Refused(rounds)
      && mi <= |pool.order| && Tracks(pool, block, block, failed, m)
      && (forall j | 0 <= j < mi :: pool.order[j] in m || pool.order[j] in block || pool.order[j] in Refused(rounds))
      && !GivesUp(rounds) && (rounds != [] ==> OutcomeOf(rounds[|rounds| - 1]) != TooCheap)
    }

    lemma ChosenGreedy(start: set<Tx>, rounds: seq<Round>, block: set<Tx>, mi: nat, m: Modified, failed: set<Tx>,
                       iter: Tx, totals: Totals)
      requires Between(start, rounds, block, mi, m, failed) && iter in pool.txs && iter !in block
      requires if iter in m then totals == m[iter]
               else mi < |pool.order| && iter == pool.order[mi] && totals == pool.withAncestors(iter)
      requires forall u | u in m :: !pool.Better(u, m[u], iter, totals)
      requires forall j | mi <= j < |pool.order| ::
        !pool.Better(pool.order[j], pool.withAncestors(pool.order[j]), iter, totals)
      ensures Selection(start, rounds + [Round(m, mi, block, iter, totals)])
    {
      hide Pool.Better, Selection, BlockAfter, GivesUp, OutcomeOf, Refused, Tracks;
      TracksMore(pool, block, failed, Refused(rounds), m);
      SelectionNext(start, rounds, Round(m, mi, block, iter, totals));
    }

    /** After a round that put its package in, or was refused but is not the end. */
    lemma RoundDone(start: set<Tx>, rounds: seq<Round>, failed: set<Tx>, r: Round,
                    block': set<Tx>, mi': nat, m': Modified, failed': set<Tx>)
      requires Between(start, rounds, r.block, r.mi, r.index, failed) && Selection(start, rounds + [r])
      requires OutcomeOf(r) != TooCheap
      requires mi' == (if r.tx in r.index then r.mi else r.mi + 1) <= |pool.order| && (r.tx !in r.index ==> r.tx == pool.order[r.mi])
      requires Tracks(pool, block', block', failed', m')
      requires if OutcomeOf(r) == Added then
                 block' == r.block + pool.Package(r.tx) && r.index.Keys <= m'.Keys + block' && failed' == failed
               else
                 block' == r.block && m' == r.index - {r.tx} && failed' == if r.tx in r.index then failed + {r.tx} else failed
      ensures GivesUp(rounds + [r]) || Between(start, rounds + [r], block', mi', m', failed')
      ensures block' == BlockAfter(start, rounds + [r])
    {
      hide Selection, BlockAfter, GivesUp, OutcomeOf, Refused, Tracks, Misses, AddedIn, Sum;
      RoundCounts(start, rounds, r);
      forall j | 0 <= j < mi'
        ensures pool.order[j] in m' || pool.order[j] in block' || pool.order[j] in Refused(rounds + [r])
      {
        var t := pool.order[j];
        if t in r.index { assert t in r.index.Keys; }
      }
    }

    /** Chooses the next package; the assert that it is not in the block holds. */
    method Choose(mi: nat, m: Modified, ghost start: set<Tx>, ghost rounds: seq<Round>, ghost failed: set<Tx>)
      returns (iter: Tx, totals: Totals, usingModified: bool)
      requires Valid() && Between(start, rounds, inBlock, mi, m, failed) && (mi < |pool.order| || m != map[])
      requires mi < |pool.order| ==> !Skips(pool.order[mi], m, failed)
      ensures iter in pool.txs && iter !in inBlock && (usingModified <==> iter in m)
      ensures !usingModified ==> mi < |pool.order| && iter == pool.order[mi]
      ensures totals.size >= Sum(pool.size, pool.Package(iter) - inBlock)
      ensures totals.sigOps >= Sum(pool.sigOps, pool.Package(iter) - inBlock)
      ensures Selection(start, rounds + [Round(m, mi, inBlock, iter, totals)])
    {
      hide Pool.Valid, Sum, Tracks, Pool.Better, Valid, Between, Selection, BlockAfter, GivesUp, OutcomeOf, Refused;
      PoolValid();
      BetweenFacts(start, rounds, inBlock, mi, m, failed);
      iter, totals, usingModified := ChooseNext(mi, m);
      Candidate(pool, inBlock, failed, m, iter, totals, usingModified);
      assert iter !in inBlock;
      ChosenGreedy(start, rounds, inBlock, mi, m, failed, iter, totals);
    }

    /** Tries the package of a round. */
    method TryRound(iter: Tx, totals: Totals, usingModified: bool, mapModified: Modified, failed: set<Tx>,
                    ghost start: set<Tx>, ghost rounds: seq<Round>, ghost r: Round)
      returns (fits: bool, added: bool, m: Modified, failed': set<Tx>, updated: nat)
      requires Valid() && WithinLimits() && r == Round(mapModified, r.mi, inBlock, iter, totals)
      requires iter in pool.txs && iter !in inBlock && (usingModified <==> iter in mapModified)
      requires !usingModified ==> r.mi < |pool.order| && iter == pool.order[r.mi]
      requires totals.size >= Sum(pool.size, pool.Package(iter) - inBlock)
      requires totals.sigOps >= Sum(pool.sigOps, pool.Package(iter) - inBlock)
      requires Between(start, rounds, inBlock, r.mi, mapModified, failed) && Selection(start, rounds + [r])
      requires totals.fees >= minFee(totals.size)
      modifies this
      ensures Valid() && WithinLimits() && old(vtx) <= vtx && old(inBlock) <= inBlock && (added ==> iter in inBlock)
      ensures !added ==> inBlock == old(inBlock) && m == mapModified - {iter}
      ensures Figures(rounds, r, fits, added) && OutcomeOf(r) != TooCheap && Selection(start, rounds + [r])
      ensures inBlock == BlockAfter(start, rounds + [r])
      ensures var mi' := if usingModified then r.mi else r.mi + 1;
        GivesUp(rounds + [r]) || Between(start, rounds + [r], inBlock, mi', m, failed')
      ensures !fits ==> nBlockWeight == 4000 + Sum(pool.weight, r.block)
    {
      hide Pool.Valid, Sum, Tracks, Pool.Better, Valid, WithinLimits, Between, Selection, BlockAfter, AddedIn, Misses, GivesUp,
        OutcomeOf, Refused, SortsBefore;
      BetweenFacts(start, rounds, inBlock, r.mi, mapModified, failed);
      Weighed(r);
      RoundCounts(start, rounds, r);
      fits, added, m, failed', updated := TryPackage(iter, totals, usingModified, mapModified, failed);
      assert !usingModified ==> mapModified - {iter} == mapModified;
      RoundDone(start, rounds, failed, r, inBlock, if usingModified then r.mi else r.mi + 1, m, failed');
    }

    /** The figures after a round, by what was tested in it. */
    ghost predicate Figures(rounds: seq<Round>, r: Round, fits: bool, added: bool) {
      && AddedIn(rounds + [r]) == AddedIn(rounds) + (if added then 1 else 0)
      && Misses(rounds + [r]) == (if added then 0 else if fits then Misses(rounds) else Misses(rounds) + 1)
      && GivesUp(rounds + [r]) == (!fits && Misses(rounds + [r]) > MAX_CONSECUTIVE_FAILURES
                                   && 4000 + Sum(pool.weight, r.block) > nBlockMaxWeight - 4000)
      && (added ==> fits)
    }

    lemma CheapRound(start: set<Tx>, rounds: seq<Round>, r: Round, failed: set<Tx>)
      requires Between(start, rounds, r.block, r.mi, r.index, failed) && r.totals.fees < minFee(r.totals.size)
      ensures OutcomeOf(r) == TooCheap && !GivesUp(rounds + [r]) && AddedIn(rounds + [r]) == AddedIn(rounds)
      ensures r.block == BlockAfter(start, rounds + [r])
    {
      hide Selection, BlockAfter, GivesUp, Refused, Tracks, Misses, AddedIn, Sum;
      RoundCounts(start, rounds, r);
    }

    /** addPackageTxs. It terminates; the block stays closed under ancestors and in a valid order, within
        the weight and signature limits; the assert that a chosen entry is not in the block never fires. The result
        `rounds` is the record of the selection. */
    method AddPackageTxs() returns (nPackagesSelected: nat, nDescendantsUpdated: nat, stop: Stop, ghost rounds: seq<Round>)
      requires Valid() && WithinLimits()
      modifies this
      ensures Valid() && WithinLimits() && Closed(pool, inBlock) && old(vtx) <= vtx
      ensures Selection(old(inBlock), rounds) && inBlock == BlockAfter(old(inBlock), rounds)
      ensures nPackagesSelected == AddedIn(rounds)
      ensures stop.GaveUp? <==> GivesUp(rounds)
      ensures stop.LowFees? <==> rounds != [] && OutcomeOf(rounds[|rounds| - 1]) == TooCheap
      ensures stop.Exhausted? ==> pool.txs <= inBlock + Refused(rounds)
      ensures stop.Exhausted? ==> forall t | t in pool.txs && pool.Package(t) !! inBlock :: CannotStart(t)
    {
      hide Pool.Valid, Placed, Sum, Fees, Tracks, Closed, Pool.Better, Valid, WithinLimits, Between, Selection, BlockAfter,
        AddedIn, Misses, GivesUp, OutcomeOf, Refused, SortsBefore, CannotStart;
      nPackagesSelected, rounds := 0, [];
      var failed: set<Tx> := {};
      var m;
      m, nDescendantsUpdated := StartIndex();
      var mi, nConsecutiveFailed := 0, 0;
      stop := Exhausted;
      StartBetween(inBlock, m);
      while mi < |pool.order| || m != map[]
        invariant Valid() && WithinLimits() && old(vtx) <= vtx && old(inBlock) <= inBlock && stop.Exhausted?
        invariant Between(old(inBlock), rounds, inBlock, mi, m, failed) && mi <= |pool.order|
        invariant nPackagesSelected == AddedIn(rounds) && nConsecutiveFailed == Misses(rounds)
        decreases pool.txs - inBlock, |pool.order| - mi, m.Keys
      {
        if mi < |pool.order| && Skips(pool.order[mi], m, failed) {
          SkipBetween(old(inBlock), rounds, mi, m, failed);
          mi := mi + 1;
          continue;
        }
        var iter, totals, usingModified := Choose(mi, m, old(inBlock), rounds, failed);
        ghost var r := Round(m, mi, inBlock, iter, totals);
        if !usingModified {
          mi := mi + 1;
        }
        if totals.fees < minFee(totals.size) {
          stop := LowFees;  // everything else has a lower fee rate
          CheapRound(old(inBlock), rounds, r, failed);
          rounds := rounds + [r];
          break;
        }
        var fits, added, n;
        fits, added, m, failed, n := TryRound(iter, totals, usingModified, m, failed, old(inBlock), rounds, r);
        nDescendantsUpdated := nDescendantsUpdated + n;
        rounds := rounds + [r];
        if added {
          nConsecutiveFailed := 0;
          nPackagesSelected := nPackagesSelected + 1;
        } else if !fits {
          nConsecutiveFailed := nConsecutiveFailed + 1;
          if nConsecutiveFailed > MAX_CONSECUTIVE_FAILURES && nBlockWeight > nBlockMaxWeight - 4000 {
            stop := GaveUp;
            break;
          }
        }
      }
      BlockClosed();
      PoolValid();
      if stop.Exhausted? {
        BetweenFacts(old(inBlock), rounds, inBlock, mi, m, failed);
        AllTried(old(inBlock), rounds, mi, m, failed);
      }
    }

    /** The package of a transaction does not fit, or has a member that may not be mined. */
    ghost predicate CannotStart(t: Tx)
      reads this
    {
      || !TestPackage(pool.withAncestors(t).size, pool.withAncestors(t).sigOps)
      || exists u | u in pool.Package(t) :: !mayMine(u)
    }

    lemma BetweenFacts(start: set<Tx>, rounds: seq<Round>, block: set<Tx>, mi: nat, m: Modified, failed: set<Tx>)
      requires Between(start, rounds, block, mi, m, failed)
      ensures Selection(start, rounds) && block == BlockAfter(start, rounds) && failed <= Refused(rounds)
      ensures mi <= |pool.order| && Tracks(pool, block, block, failed, m)
      ensures !GivesUp(rounds) && (rounds != [] ==> OutcomeOf(rounds[|rounds| - 1]) != TooCheap)
    {
    }

    lemma StartBetween(block: set<Tx>, m: Modified)
      requires Tracks(pool, block, block, {}, m)
      ensures Between(block, [], block, 0, m, {}) && AddedIn([]) == 0 == Misses([])
    {
    }

    lemma SkipBetween(start: set<Tx>, rounds: seq<Round>, mi: nat, m: Modified, failed: set<Tx>)
      requires Between(start, rounds, inBlock, mi, m, failed) && mi < |pool.order| && Skips(pool.order[mi], m, failed)
      ensures Between(start, rounds, inBlock, mi + 1, m, failed)
    {
      hide Selection, BlockAfter, GivesUp, OutcomeOf, Refused, Tracks;
    }

    /** The outcome of a round, by the counters of the block. */
    lemma Weighed(r: Round)
      requires Valid() && r.block == inBlock
      ensures OutcomeOf(r) ==
        if r.totals.fees < minFee(r.totals.size) then TooCheap
        else if !TestPackage(r.totals.size, r.totals.sigOps) then TooLarge
        else if forall t | t in pool.Package(r.tx) && t !in inBlock :: mayMine(t) then Added
        else Unminable
      ensures nBlockWeight == 4000 + Sum(pool.weight, r.block)
    {
      hide Sum, Pool.Valid, Placed, Fees;
    }

    /** When nothing is left to try, every transaction is in the block or was refused; one without ancestors in
        the block was refused by its own whole package, which the block is too full for, or may not be mined. */
    lemma AllTried(start: set<Tx>, rounds: seq<Round>, mi: nat, m: Modified, failed: set<Tx>)
      requires Valid() && Between(start, rounds, inBlock, mi, m, failed) && mi == |pool.order| && m == map[]
      ensures pool.txs <= inBlock + Refused(rounds)
      ensures forall t | t in pool.txs && pool.Package(t) !! inBlock :: CannotStart(t)
    {
      hide Selection, BlockAfter, GivesUp, Refused, Tracks, OutcomeOf, Valid, CannotStart, Pool.Valid;
      PoolValid();
      IndexComplete(pool);
      forall t | t in pool.txs ensures t in inBlock + Refused(rounds) {
        var j :| 0 <= j < |pool.order| && pool.order[j] == t;
      }
      forall t | t in pool.txs && pool.Package(t) !! inBlock ensures CannotStart(t) {
        assert t in pool.Package(t);
        var i := FirstRefusal(rounds, t);
        RefusedWhole(start, rounds, i);
      }
    }

    lemma FirstRefusal(rounds: seq<Round>, t: Tx) returns (i: nat)
      requires t in Refused(rounds)
      ensures i < |rounds| && rounds[i].tx == t && OutcomeOf(rounds[i]) != Added && t !in Refused(rounds[..i])
    {
      hide OutcomeOf;
      i :| i < |rounds| && rounds[i].tx == t && OutcomeOf(rounds[i]) != Added;
      while t in Refused(rounds[..i])
        invariant i < |rounds| && rounds[i].tx == t && OutcomeOf(rounds[i]) != Added
        decreases i
      {
        var k :| 0 <= k < i && OutcomeOf(rounds[..i][k]) != Added && rounds[..i][k].tx == t;
        i := k;
      }
    }

    /** The block only grows. */
    lemma {:induction false} BlockGrows(start: set<Tx>, rounds: seq<Round>, i: nat)
      requires i <= |rounds|
      ensures BlockAfter(start, rounds[..i]) <= BlockAfter(start, rounds)
      decreases |rounds|
    {
      hide OutcomeOf;
      if i == |rounds| {
        assert rounds[..i] == rounds;
      } else {
        var n := |rounds| - 1;
        BlockGrows(start, rounds[..n], i);
        assert rounds[..n][..i] == rounds[..i];
      }
    }

    lemma RefusedWhole(start: set<Tx>, rounds: seq<Round>, i: nat)
      requires Valid() && Selection(start, rounds) && inBlock == BlockAfter(start, rounds) && i < |rounds|
      requires OutcomeOf(rounds[i]) != Added && rounds[i].tx !in Refused(rounds[..i])
      requires i + 1 == |rounds| ==> OutcomeOf(rounds[i]) != TooCheap
      requires pool.Package(rounds[i].tx) !! inBlock
      ensures CannotStart(rounds[i].tx)
    {
      hide Sum, Fees, Placed, BlockAfter, Refused, GivesUp, FeesTracked, Pool.Better;
      var r := rounds[i];
      BlockGrows(start, rounds, i);
      assert InTurn(start, rounds[..i], r);
      if i + 1 < |rounds| { assert InTurn(start, rounds[..i + 1], rounds[i + 1]) && rounds[..i + 1][i] == r; }
      assert pool.Package(r.tx) - r.block == pool.Package(r.tx);
      assert TracksAt(pool, r.block, Refused(rounds[..i]), r.index, r.tx);
      assert r.totals.size == pool.withAncestors(r.tx).size && r.totals.sigOps == pool.withAncestors(r.tx).sigOps;
      SumSubset(pool.weight, r.block, inBlock);
      SumSubset(pool.sigOps, r.block, inBlock);
    }

    lemma PoolValid()
      requires Valid()
      ensures pool.Valid()
    {
    }

    lemma BlockClosed()
      requires Valid()
      ensures Closed(pool, inBlock)
    {
      PlacedClosed(pool, vtx, inBlock);
    }

    /** The index starts with the descendants of what is already in the block. */
    method StartIndex() returns (m: Modified, updated: nat)
      requires Valid()
      ensures Tracks(pool, inBlock, inBlock, {}, m) && (inBlock == {} ==> m == map[])
    {
      hide Tracks, Closed, Placed, Sum, Fees;
      TracksNothing(pool, inBlock);
      m, updated := UpdatePackagesForAdded(pool, inBlock, map[], {}, {});
      assert {} + inBlock == inBlock;
    }
  }

  lemma IndexComplete(pool: Pool)
    requires pool.Valid()
    ensures forall t | t in pool.txs :: exists j :: 0 <= j < |pool.order| && pool.order[j] == t
  {
  }

  lemma BetterIrreflexive(pool: Pool, t: Tx, e: Totals)
    ensures !pool.Better(t, e, t, e)
  {
  }

  lemma BetterNot(pool: Pool, t: Tx, e: Totals, u: Tx, f: Totals)
    requires pool.Better(t, e, u, f)
    ensures !pool.Better(u, f, t, e)
  {
  }

  /** The rest of the index is no better than its next entry. */
  lemma RestOfIndex(pool: Pool, mi: nat, t: Tx, e: Totals)
    requires pool.Valid() && mi < |pool.order|
    requires pool.Better(t, e, pool.order[mi], pool.withAncestors(pool.order[mi]))
    ensures forall j | mi <= j < |pool.order| :: !pool.Better(pool.order[j], pool.withAncestors(pool.order[j]), t, e)
  {
    var next := pool.order[mi];
    BetterNot(pool, t, e, next, pool.withAncestors(next));
    forall j | mi < j < |pool.order| ensures !pool.Better(pool.order[j], pool.withAncestors(pool.order[j]), t, e) {
      NotBetterTrans(pool, pool.order[j], pool.withAncestors(pool.order[j]), next, pool.withAncestors(next), t, e);
    }
  }

  lemma TracksNothing(pool: Pool, block: set<Tx>)
    ensures Tracks(pool, {}, {} + block, {}, map[]) && Closed(pool, {})
  {
  }

  /** A chosen entry never understates what its package would add to the block. */
  lemma Candidate(pool: Pool, block: set<Tx>, failed: set<Tx>, m: Modified, iter: Tx, totals: Totals, usingModified: bool)
    requires pool.Valid() && Tracks(pool, block, block, failed, m)
    requires usingModified ==> iter in m && totals == m[iter]
    requires !usingModified ==> iter in pool.order && totals == pool.withAncestors(iter)
    ensures iter in pool.txs && (usingModified ==> iter !in block)
    ensures totals.size >= Sum(pool.size, pool.Package(iter) - block)
    ensures totals.sigOps >= Sum(pool.sigOps, pool.Package(iter) - block)
  {
    if usingModified {
      assert iter in m.Keys && TracksAt(pool, block, failed, m, iter);
    } else {
      SumSubset(pool.size, pool.Package(iter) - block, pool.Package(iter));
      SumSubset(pool.sigOps, pool.Package(iter) - block, pool.Package(iter));
    }
  }

  /** The totals of a chosen entry that never failed are those of what its package would add to the block;
      so are its fees, if none of its ancestors in the block was prioritised. */
  lemma CandidateExact(pool: Pool, block: set<Tx>, failed: set<Tx>, m: Modified, iter: Tx, totals: Totals, usingModified: bool)
    requires pool.Valid() && Tracks(pool, block, block, failed, m) && iter !in failed
    requires usingModified ==> iter in m && totals == m[iter]
    requires !usingModified ==> iter in pool.order && iter !in m && iter !in block && totals == pool.withAncestors(iter)
    ensures totals.size == Sum(pool.size, pool.Package(iter) - block)
    ensures totals.sigOps == Sum(pool.sigOps, pool.Package(iter) - block)
    ensures (forall a | a in pool.Package(iter) * block :: pool.modifiedFee(a) == pool.fee(a)) ==>
      FeesExact(pool, block, iter, totals.fees)
  {
    hide FeesTracked;
    if usingModified {
      assert iter in m.Keys && TracksAt(pool, block, failed, m, iter);
      if forall a | a in pool.Package(iter) * block :: pool.modifiedFee(a) == pool.fee(a) {
        FeesExactUnprioritised(pool, block, iter, totals.fees);
      }
    } else {
      assert TracksAt(pool, block, failed, m, iter);
      assert pool.Package(iter) - block == pool.Package(iter);
    }
  }

  /** Three transactions without fees, each prioritised by five; the last spends from the other two. */
  function PrioritisedPool(): Pool {
    Pool({0, 1, 2}, t => if t == 2 then {0, 1} else {}, t => 1, t => 4, t => 0, t => 0, t => 5,
         t => if t == 2 then Totals(3, 15, 0) else Totals(1, 5, 0), [0, 1, 2])
  }

  lemma {:induction false} SumConstant(f: Tx -> nat, c: nat, s: set<Tx>)
    requires forall t :: f(t) == c
    ensures Sum(f, s) == c * |s|
    decreases s
  {
    if s != {} {
      var x :| x in s;
      SumRemove(f, s, x);
      SumConstant(f, c, s - {x});
    }
  }

  lemma {:induction false} FeeSumConstant(f: Tx -> int, c: int, s: set<Tx>)
    requires forall t :: f(t) == c
    ensures FeeSum(f, s) == c * |s|
    decreases s
  {
    if s != {} {
      var x :| x in s;
      FeeSumRemove(f, s, x);
      FeeSumConstant(f, c, s - {x});
    }
  }

  lemma PrioritisedScore(t: Tx)
    requires t < 3
    ensures PrioritisedPool().Score(t, PrioritisedPool().withAncestors(t)) == 5.0
  {
    assert Rate(5, 1) == 5.0 && Rate(15, 3) == 5.0;
  }

  lemma PrioritisedOrder(t: Tx, u: Tx)
    requires t < u < 3
    ensures PrioritisedPool().InOrder(t, u)
  {
    hide Pool.Score;
    PrioritisedScore(t);
    PrioritisedScore(u);
  }

  lemma PrioritisedSums(t: Tx)
    requires t < 3
    ensures PrioritisedPool().SumsExact(t)
  {
    hide Sum, FeeSum, Pool.Better;
    var pool := PrioritisedPool();
    var package := if t == 2 then {0, 1, 2} else {t};
    assert |package| == if t == 2 then 3 else 1;
    SumConstant(pool.size, 1, package);
    SumConstant(pool.sigOps, 0, package);
    FeeSumConstant(pool.modifiedFee, 5, package);
    assert pool.Package(t) == package;
  }

  lemma PrioritisedShape(t: Tx)
    ensures var pool := PrioritisedPool();
      && (t in pool.txs <==> t < 3) && (t in pool.order <==> t < 3)
      && pool.ancestors(t) == (if t == 2 then {0, 1} else {})
      && pool.size(t) == 1 && pool.weight(t) == 4 && pool.order == [0, 1, 2]
  {
    var order := PrioritisedPool().order;
    assert order[0] == 0 && order[1] == 1 && order[2] == 2;
  }

  lemma PrioritisedPoolValid()
    ensures PrioritisedPool().Valid()
  {
    hide Pool.SumsExact, Pool.InOrder, PrioritisedPool;
    PrioritisedShape(0);
    forall t: Tx
      ensures t in PrioritisedPool().txs <==> t < 3
      ensures t in PrioritisedPool().order <==> t < 3
      ensures PrioritisedPool().ancestors(t) == if t == 2 then {0, 1} else {}
      ensures PrioritisedPool().size(t) == 1 && PrioritisedPool().weight(t) == 4
    {
      PrioritisedShape(t);
    }
    forall t: Tx | t < 3 ensures PrioritisedPool().SumsExact(t) { PrioritisedSums(t); }
    forall t: Tx, u: Tx | t < u < 3 ensures PrioritisedPool().InOrder(t, u) { PrioritisedOrder(t, u); }
  }

  /** Whichever of the two prioritised parents goes first, the child's entry keeps five too many. */
  lemma PrioritisedFeesDrift(a: Tx, b: Tx)
    requires (a == 0 && b == 1) || (a == 1 && b == 0)
    ensures var pool := PrioritisedPool();
      var m := map[2 := Reduced(pool, map[], a, 2)];
      pool.Valid() && !FeesExact(pool, {a, b}, 2, Reduced(pool, m, b, 2).fees)
  {
    hide Pool.Valid, FeeSum;
    var pool := PrioritisedPool();
    PrioritisedPoolValid();
    FeeSumConstant(pool.modifiedFee, 5, {2});
    assert pool.Package(2) - {a, b} == {2};
  }

  /** With more entries that count as failed, less is claimed. */
  lemma TracksMore(pool: Pool, block: set<Tx>, failed: set<Tx>, more: set<Tx>, m: Modified)
    requires Tracks(pool, block, block, failed, m) && failed <= more
    ensures Tracks(pool, block, block, more, m)
  {
    forall t | t in pool.txs && t !in block ensures TracksAt(pool, block, more, m, t) {
      assert TracksAt(pool, block, failed, m, t);
    }
  }

  lemma TracksFail(pool: Pool, block: set<Tx>, failed: set<Tx>, m: Modified, t: Tx)
    requires Tracks(pool, block, block, failed, m)
    ensures Tracks(pool, block, block, failed + {t}, m - {t})
  {
    var m' := m - {t};
    forall u | u in pool.txs && u !in block ensures TracksAt(pool, block, failed + {t}, m', u) {
      assert TracksAt(pool, block, failed, m, u);
    }
  }

  lemma Unique(pool: Pool, sorted: seq<Tx>, i: nat)
    requires i < |sorted| && forall i, j | 0 <= i < j < |sorted| :: SortsBefore(pool, sorted[i], sorted[j])
    ensures sorted[i] !in sorted[..i]
  {
  }

  lemma AncestorFirst(pool: Pool, sorted: seq<Tx>, i: nat, j: nat)
    requires pool.Valid() && i < |sorted| && j < |sorted| && sorted[i] in pool.txs && sorted[j] in pool.ancestors(sorted[i])
    requires forall i, j | 0 <= i < j < |sorted| :: SortsBefore(pool, sorted[i], sorted[j])
    ensures j < i
  {
    AncestorCounts(pool, sorted[i], sorted[j]);
  }

  lemma TracksErase(pool: Pool, block: set<Tx>, package: set<Tx>, failed: set<Tx>, m: Modified)
    requires Tracks(pool, block, block, failed, m)
    ensures Tracks(pool, block, block + package, failed, m - package)
  {
    hide TracksAt;
    forall t | t in pool.txs && t !in block + package ensures TracksAt(pool, block, failed, m - package, t) {
      TracksOther(pool, block, failed, m, m - package, t);
    }
  }

  /** The sums of a block with a package added; weight is bounded through size. */
  lemma PackageClosed(pool: Pool, iter: Tx, block: set<Tx>)
    requires pool.Valid() && iter in pool.txs
    ensures pool.Package(iter) - block <= pool.txs
    ensures forall t | t in pool.Package(iter) :: pool.ancestors(t) <= block + (pool.Package(iter) - block)
  {
    hide Pool.SumsExact, Pool.InOrder;
    forall t, a | t in pool.Package(iter) && a in pool.ancestors(t) ensures a in pool.Package(iter) {
      if t != iter { assert t in pool.ancestors(iter); }
    }
  }

  lemma PackageFits(pool: Pool, package: set<Tx>, block: set<Tx>)
    requires pool.Valid() && package <= pool.txs && package !! block
    ensures Sum(pool.weight, block + package) <= Sum(pool.weight, block) + 4 * Sum(pool.size, package)
    ensures Sum(pool.sigOps, block + package) == Sum(pool.sigOps, block) + Sum(pool.sigOps, package)
  {
    SumUnion(pool.weight, block, package);
    SumUnion(pool.sigOps, block, package);
    SumFourTimes(pool.weight, pool.size, package);
  }
}
