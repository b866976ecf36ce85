/** The layers of the UTXO tower as objects (src/coins.cpp): each cache reads through to the layer
    below, and Flush pushes its changes down. */
module CoinsTower {
  import opened Coins

  /** The bottom of the tower: the coin database (src/txdb.cpp), a plain map. */
  class Database {
    var coins: CoinMap
    var bestBlock: nat

    constructor (coins: CoinMap, bestBlock: nat)
      ensures this.coins == coins && this.bestBlock == bestBlock
    {
      this.coins := coins;
      this.bestBlock := bestBlock;
    }

    /** Only DIRTY entries are stored, spent ones as deletions. The null block hash is refused by an
        assert in the original. */
    method BatchWrite(mapCoins: EntryMap, hash: nat)
      requires hash != 0
      modifies this
      ensures coins == Written(mapCoins, old(coins))
      ensures bestBlock == hash
    {
      var rest := mapCoins;
      while rest != map[]
        invariant PartlyWritten(mapCoins, rest, old(coins), coins)
        decreases |rest|
      {
        var o :| o in rest;
        WriteStep(mapCoins, rest, old(coins), coins, o);
        if rest[o].isDirty {
          if rest[o].coin.IsSpent() {
            coins := coins - {o};
          } else {
            coins := coins[o := rest[o].coin];
          }
        }
        rest := rest - {o};
      }
      bestBlock := hash;
    }
  }

  /** The cache after a DIRTY entry of the layer above has arrived: an entry that the layer below has never heard of
      and that is spent by now is not kept. */
  ghost function Merged(cache: EntryMap, o: OutPoint, e: Entry): EntryMap {
    var isFresh := if o in cache then cache[o].isFresh else e.isFresh;
    if isFresh && e.coin.IsSpent() then cache - {o} else cache[o := Entry(e.coin, true, isFresh)]
  }

  datatype AddResult = Added | Unspendable | Thrown

  /** One client operation on a tower. Level 0 is the top layer; additions and spends happen there,
      while reads, evictions and flushes may happen on any layer. */
  datatype Op =
    | Get(level: nat, o: OutPoint)
    | Add(o: OutPoint, coin: Coin, possibleOverwrite: bool)
    | Spend(o: OutPoint)
    | Uncache(level: nat, o: OutPoint)
    | Flush(level: nat, best: nat)  // SetBestBlock followed by Flush

  /** The same operation on a plain map. */
  ghost function Plain(view: CoinMap, op: Op): CoinMap {
    match op
    case Add(o, coin, _) => if coin.IsUnspendable() then view else view[o := coin]
    case Spend(o) => view - {o}
    case Get(_, _) | Uncache(_, _) | Flush(_, _) => view
  }

  datatype Option<T> = None | Some(value: T)

  /** The coin a plain map hands out for a read of the top layer or for a spend. */
  ghost function PlainAnswer(view: CoinMap, op: Op): Option<Coin> {
    match op
    case Get(level, o) => if level == 0 && o in view then Some(view[o]) else None
    case Spend(o) => if o in view then Some(view[o]) else None
    case Add(_, _, _) | Uncache(_, _) | Flush(_, _) => None
  }

  /** What the caller owes, in terms of the plain map alone: a coin that is added without leave to
      overwrite is new, and the database is never given a null block hash. */
  ghost predicate Promised(view: CoinMap, op: Op) {
    match op
    case Add(o, coin, possibleOverwrite) => !coin.IsSpent() && (possibleOverwrite || o !in view)
    case Flush(_, best) => best != 0
    case Get(_, _) | Spend(_) | Uncache(_, _) => true
  }

  ghost function PlainRun(view: CoinMap, ops: seq<Op>): CoinMap
    decreases |ops|
  {
    if ops == [] then view else PlainRun(Plain(view, ops[0]), ops[1..])
  }

  ghost function PlainAnswers(view: CoinMap, ops: seq<Op>): seq<Option<Coin>>
    decreases |ops|
  {
    if ops == [] then [] else [PlainAnswer(view, ops[0])] + PlainAnswers(Plain(view, ops[0]), ops[1..])
  }

  ghost predicate PromisedRun(view: CoinMap, ops: seq<Op>)
    decreases |ops|
  {
    ops != [] ==> Promised(view, ops[0]) && PromisedRun(Plain(view, ops[0]), ops[1..])
  }

  class CoinsViewCache {
    /** The layer below; null when the cache sits directly on the database. */
    const base: CoinsViewCache?
    const db: Database
    var hashBlock: nat
    var cacheCoins: EntryMap
    var cachedCoinsUsage: int

    /** The coins a client of this layer sees. */
    ghost var View: CoinMap
    /** This layer and all cache layers below it. */
    ghost const Layers: set<CoinsViewCache>
    ghost const depth: nat

    ghost predicate Stacked()
      decreases depth
    {
      && this in Layers
      && (base == null ==> Layers == {this})
      && (base != null ==>
            && base.depth < depth && base.db == db
            && Layers == {this} + base.Layers && this !in base.Layers && base.Stacked())
    }

    ghost function BaseView(): CoinMap
      reads db, base
    {
      if base == null then db.coins else base.View
    }

    /** Every flag on every layer tells the truth about the layer below, the view of every layer is
        its cache laid over the view below, and the byte counts below are right. */
    ghost predicate Valid()
      reads Layers, db
      decreases depth
    {
      && Stacked()
      && (base == null ==> AllUnspent(db.coins))
      && (base != null ==> base.Valid() && base.Accounted())
      && Consistent(cacheCoins, BaseView())
      && View == Overlay(cacheCoins, BaseView())
    }

    /** The running byte count of this layer is the true total. */
    ghost predicate Accounted()
      reads this
    {
      cachedCoinsUsage == TotalUsage(cacheCoins)
    }

    ghost function BaseBestBlock(): nat
      requires Stacked()
      reads Layers`hashBlock, db
      decreases depth, 0
    {
      if base == null then db.bestBlock else base.BestBlock()
    }

    /** The block hash GetBestBlock answers with: a null hash defers to the layer below. */
    ghost function BestBlock(): nat
      requires Stacked()
      reads Layers`hashBlock, db
      decreases depth, 1
    {
      if hashBlock != 0 then hashBlock else BaseBestBlock()
    }

    lemma ViewUnspent()
      requires Valid()
      ensures AllUnspent(View) && AllUnspent(BaseView())
      decreases depth
    {
      if base != null { base.ViewUnspent(); }
    }

    constructor OnDatabase(db: Database)
      requires AllUnspent(db.coins)
      ensures base == null && this.db == db && Valid() && Accounted() && fresh(Layers)
      ensures View == db.coins && BestBlock() == db.bestBlock
    {
      base, this.db := null, db;
      hashBlock, cacheCoins, cachedCoinsUsage := 0, map[], 0;
      View := db.coins;
      depth, Layers := 0, {this};
    }

    constructor OnCache(base: CoinsViewCache)
      requires base.Valid() && base.Accounted()
      ensures this.base == base && db == base.db && Valid() && Accounted() && fresh(Layers - base.Layers)
      ensures View == base.View && BestBlock() == base.BestBlock()
    {
      this.base, db := base, base.db;
      hashBlock, cacheCoins, cachedCoinsUsage := 0, map[], 0;
      View := base.View;
      depth, Layers := base.depth + 1, {this} + base.Layers;
    }

    /** Reading may fill the caches of any layer, but no layer's view moves. */
    method FetchCoin(o: OutPoint) returns (found: bool)
      requires Valid()
      modifies Layers`cacheCoins, Layers`cachedCoinsUsage
      ensures Valid() && (old(Accounted()) ==> Accounted())
      ensures found <==> o in old(cacheCoins) || o in View
      ensures cacheCoins == if o in View && o !in old(cacheCoins)
                            then old(cacheCoins)[o := Entry(View[o], false, false)] else old(cacheCoins)
      decreases depth, 1
    {
      hide Overlay, Consistent, TotalUsage, Written, PartlyWritten;
      LookUp(cacheCoins, BaseView(), o);
      if o in cacheCoins {
        return true;
      }
      var inBase, tmp := BaseGetCoin(o);
      if !inBase {
        return false;
      }
      // The original also handles a spent coin here, by marking the entry FRESH; no view hands one out.
      var e := Entry(tmp, false, tmp.IsSpent());
      TotalUsagePut(cacheCoins, o, e);
      TotalUsageDrop(cacheCoins, o);
      PutEntry(cacheCoins, BaseView(), o, e);
      cacheCoins := cacheCoins[o := e];
      cachedCoinsUsage := cachedCoinsUsage + tmp.DynamicMemoryUsage();
      assert View == View[o := tmp];
      return true;
    }

    /** Dispatch of base->GetCoin. */
    method BaseGetCoin(o: OutPoint) returns (found: bool, coin: Coin)
      requires Valid()
      modifies (Layers - {this})`cacheCoins, (Layers - {this})`cachedCoinsUsage
      ensures Valid()
      ensures found <==> o in BaseView()
      ensures found ==> coin == BaseView()[o] && !coin.IsSpent()
      decreases depth, 0
    {
      ViewUnspent();
      if base == null {
        found := o in db.coins;
        coin := if found then db.coins[o] else NullCoin;
      } else {
        found, coin := base.GetCoin(o);
      }
    }

    method GetCoin(o: OutPoint) returns (found: bool, coin: Coin)
      requires Valid()
      modifies Layers`cacheCoins, Layers`cachedCoinsUsage
      ensures Valid() && (old(Accounted()) ==> Accounted())
      ensures found <==> o in View
      ensures found ==> coin == View[o] && !coin.IsSpent()
      decreases depth, 2
    {
      hide Overlay, Consistent, TotalUsage, Written, PartlyWritten;
      LookUp(cacheCoins, BaseView(), o);
      ViewUnspent();
      var cached := FetchCoin(o);
      coin := if cached then cacheCoins[o].coin else NullCoin;
      found := cached && !coin.IsSpent();
    }

    method HaveCoin(o: OutPoint) returns (have: bool)
      requires Valid()
      modifies Layers`cacheCoins, Layers`cachedCoinsUsage
      ensures Valid() && (old(Accounted()) ==> Accounted())
      ensures have <==> o in View
    {
      hide Overlay, Consistent, TotalUsage, Written, PartlyWritten;
      LookUp(cacheCoins, BaseView(), o);
      ViewUnspent();
      var cached := FetchCoin(o);
      have := cached && !cacheCoins[o].coin.IsSpent();
    }

    /** The effect on the view is that of a plain insertion. The promise asked of the caller is the
        one AddPromiseIsExact shows to be needed; the throw leaves the map alone but has already
        subtracted the old coin from the byte count. */
    method AddCoin(o: OutPoint, coin: Coin, possibleOverwrite: bool) returns (r: AddResult)
      requires Valid() && !coin.IsSpent()
      requires possibleOverwrite || o in cacheCoins || o !in BaseView()
      modifies this`cacheCoins, this`cachedCoinsUsage, this`View
      ensures Valid()
      ensures r.Unspendable? <==> coin.IsUnspendable()
      ensures r.Thrown? <==> !coin.IsUnspendable() && AddThrows(old(cacheCoins), o, possibleOverwrite)
      ensures View == if r.Added? then old(View)[o := coin] else old(View)
      ensures cacheCoins == if r.Added? then old(cacheCoins)[o := AddedEntry(old(cacheCoins), o, coin, possibleOverwrite)]
                            else old(cacheCoins)
      ensures old(Accounted()) && !r.Thrown? ==> Accounted()
      ensures r.Thrown? ==> cachedCoinsUsage == old(cachedCoinsUsage) - cacheCoins[o].coin.DynamicMemoryUsage()
    {
      hide Overlay, Consistent, TotalUsage, Written, PartlyWritten;
      if coin.IsUnspendable() {
        return Unspendable;
      }
      var inserted := o !in cacheCoins;
      var e := if inserted then Entry(NullCoin, false, false) else cacheCoins[o];
      var markFresh := false;
      if !inserted {
        cachedCoinsUsage := cachedCoinsUsage - e.coin.DynamicMemoryUsage();
      }
      if !possibleOverwrite {
        if !e.coin.IsSpent() {
          return Thrown;
        }
        markFresh := !e.isDirty;
      }
      var e' := Entry(coin, true, e.isFresh || markFresh);
      AddPromiseIsExact(cacheCoins, BaseView(), o, coin, possibleOverwrite);
      PutEntry(cacheCoins, BaseView(), o, e');
      TotalUsagePut(cacheCoins, o, e');
      TotalUsageDrop(cacheCoins, o);
      cacheCoins := cacheCoins[o := e'];
      cachedCoinsUsage := cachedCoinsUsage + coin.DynamicMemoryUsage();
      View := View[o := coin];
      return Added;
    }

    /** The effect on the view is that of a plain deletion. The result says only that an entry was
        found, which may be one that was already spent. */
    method SpendCoin(o: OutPoint) returns (found: bool, moveout: Coin)
      requires Valid()
      modifies Layers`cacheCoins, Layers`cachedCoinsUsage, this`View
      ensures Valid() && (old(Accounted()) ==> Accounted())
      ensures View == old(View) - {o}
      ensures found <==> o in old(View) || o in old(cacheCoins)
      ensures o in old(View) ==> moveout == old(View)[o]
      ensures o !in old(View) ==> moveout.IsSpent()
      ensures cacheCoins == if !found then old(cacheCoins)
                            else if o in old(cacheCoins) && old(cacheCoins)[o].isFresh then old(cacheCoins) - {o}
                            else old(cacheCoins)[o := Entry(NullCoin, true, false)]
    {
      hide Overlay, Consistent, TotalUsage, Written, PartlyWritten;
      LookUp(cacheCoins, BaseView(), o);
      found := FetchCoin(o);
      if !found {
        moveout := NullCoin;
        return;
      }
      var spent := Entry(NullCoin, true, false);
      TotalUsageDrop(cacheCoins, o);
      TotalUsagePut(cacheCoins, o, spent);
      Truthful(cacheCoins, BaseView(), o);
      cachedCoinsUsage := cachedCoinsUsage - cacheCoins[o].coin.DynamicMemoryUsage();
      moveout := cacheCoins[o].coin;
      if cacheCoins[o].isFresh {
        DropEntry(cacheCoins, BaseView(), o);
        cacheCoins := cacheCoins - {o};
      } else {
        PutEntry(cacheCoins, BaseView(), o, spent);
        cacheCoins := cacheCoins[o := spent];
      }
      View := View - {o};
    }

    method Uncache(o: OutPoint)
      requires Valid()
      modifies this`cacheCoins, this`cachedCoinsUsage
      ensures Valid() && (old(Accounted()) ==> Accounted())
      ensures cacheCoins == if o in old(cacheCoins) && !old(cacheCoins)[o].isDirty && !old(cacheCoins)[o].isFresh
                            then old(cacheCoins) - {o} else old(cacheCoins)
    {
      hide Overlay, Consistent, TotalUsage, Written, PartlyWritten;
      LookUp(cacheCoins, BaseView(), o);
      if o in cacheCoins && !cacheCoins[o].isDirty && !cacheCoins[o].isFresh {
        Truthful(cacheCoins, BaseView(), o);
        TotalUsageDrop(cacheCoins, o);
        DropEntry(cacheCoins, BaseView(), o);
        cachedCoinsUsage := cachedCoinsUsage - cacheCoins[o].coin.DynamicMemoryUsage();
        cacheCoins := cacheCoins - {o};
      }
    }

    method GetBestBlock() returns (hash: nat)
      requires Valid()
      modifies Layers`hashBlock
      ensures Valid()
      ensures BestBlock() == old(BestBlock()) && hash == BestBlock() && hashBlock == hash
      decreases depth
    {
      hide Overlay, Consistent, TotalUsage, Written, PartlyWritten;
      if hashBlock == 0 {
        if base == null {
          hashBlock := db.bestBlock;
        } else {
          var below := base.GetBestBlock();
          hashBlock := below;
        }
      }
      hash := hashBlock;
    }

    method SetBestBlock(hash: nat)
      modifies this`hashBlock
      ensures hashBlock == hash
    {
      hashBlock := hash;
    }

    /** One DIRTY entry of the layer above arrives: the body of the loop in BatchWrite. */
    method WriteEntry(o: OutPoint, e: Entry)
      requires Valid() && e.isDirty
      requires e.isFresh ==> o !in View
      modifies this`cacheCoins, this`cachedCoinsUsage, this`View
      ensures Valid() && (old(Accounted()) ==> Accounted())
      ensures View == WriteOne(old(View), o, e.coin)
      ensures cacheCoins == Merged(old(cacheCoins), o, e)
    {
      hide Overlay, Consistent, TotalUsage, Written, PartlyWritten;
      LookUp(cacheCoins, BaseView(), o);
      TotalUsageDrop(cacheCoins, o);
      if o !in cacheCoins {
        if !(e.isFresh && e.coin.IsSpent()) {
          TotalUsagePut(cacheCoins, o, e);
          PutEntry(cacheCoins, BaseView(), o, e);
          cacheCoins := cacheCoins[o := Entry(e.coin, true, e.isFresh)];
          cachedCoinsUsage := cachedCoinsUsage + e.coin.DynamicMemoryUsage();
        }
      } else {
        var us := cacheCoins[o];
        Truthful(cacheCoins, BaseView(), o);
        if e.isFresh && !us.coin.IsSpent() {
          assert false;  // "FRESH flag misapplied": the original throws a logic_error here
        }
        cachedCoinsUsage := cachedCoinsUsage - us.coin.DynamicMemoryUsage();
        if us.isFresh && e.coin.IsSpent() {
          DropEntry(cacheCoins, BaseView(), o);
          cacheCoins := cacheCoins - {o};
        } else {
          var e' := Entry(e.coin, true, us.isFresh);
          TotalUsagePut(cacheCoins, o, e');
          PutEntry(cacheCoins, BaseView(), o, e');
          cacheCoins := cacheCoins[o := e'];
          cachedCoinsUsage := cachedCoinsUsage + e.coin.DynamicMemoryUsage();
        }
      }
      View := WriteOne(View, o, e.coin);
    }

    /** The "FRESH flag misapplied" throw cannot be reached: FRESH entries of the layer above have no
        unspent coin here. */
    method BatchWrite(mapCoins: EntryMap, hash: nat)
      requires Valid()
      requires forall o | o in mapCoins && mapCoins[o].isDirty && mapCoins[o].isFresh :: o !in View
      modifies this
      ensures Valid() && (old(Accounted()) ==> Accounted())
      ensures View == Written(mapCoins, old(View))
      ensures hashBlock == hash && BaseBestBlock() == old(BaseBestBlock())
    {
      hide Overlay, Consistent, TotalUsage, Written, PartlyWritten;
      WriteStart(mapCoins, View);
      var rest := mapCoins;
      while rest != map[]
        invariant Valid() && (old(Accounted()) ==> Accounted())
        invariant PartlyWritten(mapCoins, rest, old(View), View)
        decreases |rest|
      {
        var o :| o in rest;
        WriteStep(mapCoins, rest, old(View), View, o);
        if rest[o].isDirty {
          WriteEntry(o, rest[o]);
        }
        rest := rest - {o};
      }
      WriteEnd(mapCoins, old(View), View);
      hashBlock := hash;
    }

    /** Flush makes the layer below see what this layer sees, and changes no view above it. The best
        block survives unless a null hash was pushed over a different one. */
    method Flush()
      requires Valid()
      requires base == null ==> hashBlock != 0
      modifies this`cacheCoins, this`cachedCoinsUsage, base, db
      ensures Valid() && Accounted()
      ensures cacheCoins == map[] && BaseView() == View
      ensures if base == null then db.bestBlock == hashBlock else base.hashBlock == hashBlock
      ensures BestBlock() == old(BestBlock())
              <==> hashBlock != 0 || old(base.hashBlock == 0 || base.hashBlock == base.BaseBestBlock())
    {
      hide Overlay, Consistent, TotalUsage, Written, PartlyWritten;
      EmptyOverlay(View);
      assert base != null && hashBlock == 0 ==> BestBlock() == base.BestBlock();
      WrittenIsOverlay(cacheCoins, BaseView());
      ViewUnspent();
      forall o | o in cacheCoins ensures EntryConsistent(o, cacheCoins[o], BaseView()) {
        Truthful(cacheCoins, BaseView(), o);
      }
      if base == null {
        db.BatchWrite(cacheCoins, hashBlock);
      } else {
        base.BatchWrite(cacheCoins, hashBlock);
      }
      cacheCoins := map[];
      cachedCoinsUsage := 0;
      if base != null && hashBlock == 0 {
        assert BestBlock() == base.BestBlock();
      }
    }

    /** Flushing the layers from the top down brings the whole view into the database. */
    method FlushAll(best: nat)
      requires Valid() && Accounted() && best != 0
      modifies Layers, db
      ensures Valid() && Accounted() && View == old(View)
      ensures db.coins == View && db.bestBlock == best && forall l | l in Layers :: l.cacheCoins == map[]
      decreases depth
    {
      hide Overlay, Consistent, TotalUsage;
      SetBestBlock(best);
      Flush();
      if base != null {
        base.FlushAll(best);
        EmptyOverlay(View);
      }
    }

    /** The layer so many steps down, if there is one. */
    ghost function Layer(n: nat): (l: CoinsViewCache?)
      requires Stacked()
      ensures l != null ==> l in Layers
      decreases depth
    {
      if n == 0 then this else if base == null then null else base.Layer(n - 1)
    }

    /** A read, an eviction or a flush on the layer `level` steps down is invisible from this layer. */
    method LowerOp(op: Op) returns (answer: Option<Coin>)
      requires Valid() && Accounted() && (op.Get? || op.Uncache? || op.Flush?) && Promised(View, op)
      modifies Layers, db
      ensures Valid() && Accounted() && View == old(View) && answer == PlainAnswer(View, op)
      ensures op.Flush? && Layer(op.level) != null ==> Layer(op.level).cacheCoins == map[] && Layer(op.level).hashBlock == op.best
      ensures op.Uncache? && Layer(op.level) != null && op.o in Layer(op.level).cacheCoins ==>
        Layer(op.level).cacheCoins[op.o].isDirty || Layer(op.level).cacheCoins[op.o].isFresh
      decreases depth
    {
      hide Overlay, Consistent, TotalUsage;
      answer := None;
      if op.level > 0 {
        if base != null {
          var _ := base.LowerOp(op.(level := op.level - 1));
        }
      } else {
        match op
        case Get(_, o) =>
          var found, coin := GetCoin(o);
          answer := if found then Some(coin) else None;
        case Uncache(_, o) =>
          Uncache(o);
        case Flush(_, best) =>
          SetBestBlock(best);
          Flush();
      }
    }

    method Step(op: Op) returns (answer: Option<Coin>)
      requires Valid() && Accounted() && Promised(View, op)
      modifies Layers, db
      ensures Valid() && Accounted() && View == Plain(old(View), op) && answer == PlainAnswer(old(View), op)
    {
      hide Overlay, Consistent, TotalUsage;
      match op
      case Add(o, coin, possibleOverwrite) =>
        LookUp(cacheCoins, BaseView(), o);
        var r := AddCoin(o, coin, possibleOverwrite);
        answer := None;
      case Spend(o) =>
        ViewUnspent();
        var found, moveout := SpendCoin(o);
        answer := if found && !moveout.IsSpent() then Some(moveout) else None;
      case _ =>
        answer := LowerOp(op);
    }

    /** The main result: any run of operations on the tower leaves the top layer with exactly the coins
        a plain map would hold, and every read and spend along the way answered what the plain map
        would have answered. */
    method Run(ops: seq<Op>) returns (answers: seq<Option<Coin>>)
      requires Valid() && Accounted() && PromisedRun(View, ops)
      modifies Layers, db
      ensures Valid() && Accounted() && View == PlainRun(old(View), ops)
      ensures answers == PlainAnswers(old(View), ops)
    {
      answers := [];
      if ops != [] {
        var answer := Step(ops[0]);
        var rest := Run(ops[1..]);
        answers := [answer] + rest;
      }
    }
  }
}
