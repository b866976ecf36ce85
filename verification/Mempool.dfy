/** What the block assembler relies on from the mempool (src/txmempool.h): unconfirmed transactions with
    their in-mempool ancestors, and the sums each entry caches over its ancestors. */
module Mempool {

  /** A mempool entry; the number stands for its place in memory and for the order of its txid. */
  type Tx = nat

  /** The package an entry stands for: sums over the transaction and its ancestors. */
  datatype Totals = Totals(size: int, fees: int, sigOps: int)

  datatype Pool = Pool(
    txs: set<Tx>, ancestors: Tx -> set<Tx>,
    size: Tx -> nat, weight: Tx -> nat, sigOps: Tx -> nat, fee: Tx -> int, modifiedFee: Tx -> int,
    withAncestors: Tx -> Totals,  // the sums cached in the entry
    order: seq<Tx>)               // the ancestor_score index
  {
    /** Ancestry is a strict order, the cached sums are exact, no transaction weighs more than four times
        its virtual size, and the index lists every entry once, best first. */
    ghost predicate Valid() {
      && (forall t | t in txs :: ancestors(t) <= txs && t !in ancestors(t))
      && (forall t, a | t in txs && a in ancestors(t) :: ancestors(a) <= ancestors(t))
      && (forall t | t in txs :: 0 < size(t) && weight(t) <= 4 * size(t))
      && (forall t | t in txs :: SumsExact(t))
      && (forall t :: t in txs <==> t in order)
      && (forall i, j | 0 <= i < j < |order| :: order[i] != order[j] && InOrder(order[i], order[j]))
    }

    ghost predicate SumsExact(t: Tx) {
      && withAncestors(t).size == Sum(size, Package(t))
      && withAncestors(t).fees == FeeSum(modifiedFee, Package(t))
      && withAncestors(t).sigOps == Sum(sigOps, Package(t))
    }

    predicate InOrder(t: Tx, u: Tx) { !Better(u, withAncestors(u), t, withAncestors(t)) }

    /** The transaction with all its in-mempool ancestors. */
    function Package(t: Tx): set<Tx> { ancestors(t) + {t} }

    /** CalculateDescendants: the transaction with everything that spends from it, directly or not. */
    function Descendants(t: Tx): set<Tx> { set d | d in txs && (d == t || t in ancestors(d)) }

    /** The fee rate an entry is sorted by: the lower of its own and its package's. */
    function Score(t: Tx, e: Totals): real {
      var own, package := Rate(modifiedFee(t), size(t)), Rate(e.fees, e.size);
      if package < own then package else own
    }

    /** CompareTxMemPoolEntryByAncestorFee, ties broken by txid. */
    predicate Better(t: Tx, e: Totals, u: Tx, f: Totals) {
      Score(t, e) > Score(u, f) || (Score(t, e) == Score(u, f) && t < u)
    }
  }

  function Rate(fee: int, size: int): real { if size > 0 then fee as real / size as real else 0.0 }

  ghost function Sum(f: Tx -> nat, s: set<Tx>): nat {
    if s == {} then 0
    else
      var t :| t in s;
      f(t) + Sum(f, s - {t})
  }

  lemma {:induction false} SumRemove(f: Tx -> nat, s: set<Tx>, t: Tx)
    requires t in s
    ensures Sum(f, s) == f(t) + Sum(f, s - {t})
    decreases s
  {
    var x :| x in s && Sum(f, s) == f(x) + Sum(f, s - {x});
    if x != t {
      SumRemove(f, s - {x}, t);
      SumRemove(f, s - {t}, x);
      assert s - {x} - {t} == s - {t} - {x};
    }
  }

  lemma SumAdd(f: Tx -> nat, s: set<Tx>, t: Tx)
    requires t !in s
    ensures Sum(f, s + {t}) == Sum(f, s) + f(t)
  {
    SumRemove(f, s + {t}, t);
    assert s + {t} - {t} == s;
  }

  lemma {:induction false} SumSubset(f: Tx -> nat, a: set<Tx>, b: set<Tx>)
    requires a <= b
    ensures Sum(f, a) <= Sum(f, b)
    decreases b
  {
    if b != {} {
      var x :| x in b;
      SumRemove(f, b, x);
      if x in a {
        SumRemove(f, a, x);
        SumSubset(f, a - {x}, b - {x});
      } else {
        SumSubset(f, a, b - {x});
      }
    }
  }

  lemma {:induction false} SumFourTimes(f: Tx -> nat, g: Tx -> nat, s: set<Tx>)
    requires forall t | t in s :: f(t) <= 4 * g(t)
    ensures Sum(f, s) <= 4 * Sum(g, s)
    decreases s
  {
    if s != {} {
      var x :| x in s;
      SumRemove(f, s, x);
      SumRemove(g, s, x);
      SumFourTimes(f, g, s - {x});
    }
  }

  /** Removing an ancestor's share: what is left of a package when one more of it is taken. */
  lemma SumTake(f: Tx -> nat, s: set<Tx>, gone: set<Tx>, t: Tx)
    requires t in s && t !in gone
    ensures Sum(f, s - gone) == Sum(f, s - (gone + {t})) + f(t)
  {
    SumRemove(f, s - gone, t);
    assert s - gone - {t} == s - (gone + {t});
  }

  lemma {:induction false} SumUnion(f: Tx -> nat, a: set<Tx>, b: set<Tx>)
    requires a !! b
    ensures Sum(f, a + b) == Sum(f, a) + Sum(f, b)
    decreases b
  {
    if b == {} {
      assert a + b == a;
    } else {
      var x :| x in b;
      SumRemove(f, b, x);
      SumRemove(f, a + b, x);
      SumUnion(f, a, b - {x});
      assert a + b - {x} == a + (b - {x});
    }
  }

  /** Fees may be negative after prioritising, so their sum is one of integers. */
  ghost function FeeSum(f: Tx -> int, s: set<Tx>): int {
    if s == {} then 0
    else
      var t :| t in s;
      f(t) + FeeSum(f, s - {t})
  }

  lemma {:induction false} FeeSumRemove(f: Tx -> int, s: set<Tx>, t: Tx)
    requires t in s
    ensures FeeSum(f, s) == f(t) + FeeSum(f, s - {t})
    decreases s
  {
    var x :| x in s && FeeSum(f, s) == f(x) + FeeSum(f, s - {x});
    if x != t {
      FeeSumRemove(f, s - {x}, t);
      FeeSumRemove(f, s - {t}, x);
      assert s - {x} - {t} == s - {t} - {x};
    }
  }

  lemma {:induction false} FeeSumSplit(f: Tx -> int, s: set<Tx>, part: set<Tx>)
    requires part <= s
    ensures FeeSum(f, s) == FeeSum(f, part) + FeeSum(f, s - part)
    decreases part
  {
    if part == {} {
      assert s - part == s;
    } else {
      var x :| x in part;
      FeeSumRemove(f, s, x);
      FeeSumRemove(f, part, x);
      FeeSumSplit(f, s - {x}, part - {x});
      assert s - {x} - (part - {x}) == s - part;
    }
  }

  lemma {:induction false} FeeSumSame(f: Tx -> int, g: Tx -> int, s: set<Tx>)
    requires forall t | t in s :: f(t) == g(t)
    ensures FeeSum(f, s) == FeeSum(g, s)
    decreases s
  {
    if s != {} {
      var x :| x in s;
      FeeSumRemove(f, s, x);
      FeeSumRemove(g, s, x);
      FeeSumSame(f, g, s - {x});
    }
  }

  lemma NotBetterTrans(pool: Pool, t: Tx, e: Totals, u: Tx, f: Totals, v: Tx, g: Totals)
    requires !pool.Better(t, e, u, f) && !pool.Better(u, f, v, g)
    ensures !pool.Better(t, e, v, g)
  {
    hide Pool.Score;
  }
}
