/** The block tree and the active chain: CBlockIndex's skip list and CChain (src/chain.h, src/chain.cpp). */
module Chain {
  import opened Arithmetic

  // ---------------------------------------------------------------------------------------------
  // Skip heights
  // ---------------------------------------------------------------------------------------------

  /** Bitwise and. */
  function BitwiseAnd(x: nat, y: nat): nat {
    if x == 0 || y == 0 then 0
    else (if x % 2 == 1 && y % 2 == 1 then 1 else 0) + 2 * BitwiseAnd(x / 2, y / 2)
  }

  /** The lowest bit that is set. */
  function LowestOne(n: nat): nat
    requires n > 0
  {
    if n % 2 == 1 then 1 else 2 * LowestOne(n / 2)
  }

  function InvertLowestOne(n: nat): nat { if n == 0 then 0 else BitwiseAnd(n, n - 1) }

  lemma {:induction false} InvertsLowestOne(n: nat)
    requires n > 0
    ensures InvertLowestOne(n) == n - LowestOne(n) < n
  {
    if n % 2 == 1 {
      AndSelf(n / 2);
    } else {
      InvertsLowestOne(n / 2);
    }
  }

  lemma {:induction false} AndSelf(n: nat)
    ensures BitwiseAnd(n, n) == n
  {
    if n > 0 { AndSelf(n / 2); }
  }

  function GetSkipHeight(height: nat): nat {
    if height < 2 then 0
    else if height % 2 == 1 then InvertLowestOne(InvertLowestOne(height - 1)) + 1
    else InvertLowestOne(height)
  }

  /** A skip always goes back. */
  lemma SkipsBack(height: nat)
    requires height > 0
    ensures GetSkipHeight(height) < height
  {
    if height >= 2 {
      InvertsLowestOne(if height % 2 == 1 then height - 1 else height);
      if height % 2 == 1 && InvertLowestOne(height - 1) > 0 { InvertsLowestOne(InvertLowestOne(height - 1)); }
    }
  }

  // ---------------------------------------------------------------------------------------------
  // Blocks
  // ---------------------------------------------------------------------------------------------

  class BlockIndex {
    const pprev: BlockIndex?
    const nHeight: nat
    var pskip: BlockIndex?

    /** Heights count the blocks down to the genesis block. */
    ghost predicate Linked()
      decreases nHeight
    {
      if nHeight == 0 then pprev == null
      else pprev != null && pprev.nHeight == nHeight - 1 && pprev.Linked()
    }

    /** The ancestor at a height, by walking back one block at a time. */
    ghost function Ancestor(h: nat): (b: BlockIndex)
      requires Linked() && h <= nHeight
      ensures b.nHeight == h && b.Linked()
      decreases nHeight
    {
      if h == nHeight then this else pprev.Ancestor(h)
    }

    ghost predicate SkipOk()
      requires Linked()
      reads this
    {
      pskip != null ==> nHeight > 0 && (SkipsBack(nHeight); pskip == Ancestor(GetSkipHeight(nHeight)))
    }

    constructor (prev: BlockIndex?)
      requires prev != null ==> prev.Linked()
      ensures Linked() && pprev == prev && pskip == null
    {
      pprev := prev;
      nHeight := if prev == null then 0 else prev.nHeight + 1;
      pskip := null;
    }

    /** The skip list finds what the walk along the previous blocks would. */
    method GetAncestor(height: int, ghost tree: set<BlockIndex>) returns (r: BlockIndex?)
      requires Tree(tree) && this in tree
      ensures r == if 0 <= height <= nHeight then Ancestor(height) else null
      ensures r != null ==> r in tree
    {
      if height > nHeight || height < 0 {
        return null;
      }
      var pindexWalk := this;
      var heightWalk := nHeight;
      while heightWalk > height
        invariant height <= heightWalk <= nHeight && pindexWalk in tree && pindexWalk == Ancestor(heightWalk)
      {
        var heightSkip := GetSkipHeight(heightWalk);
        var heightSkipPrev := GetSkipHeight(heightWalk - 1);
        SkipsBack(heightWalk);
        if pindexWalk.pskip != null &&
           (heightSkip == height ||
            (heightSkip > height && !(heightSkipPrev < heightSkip - 2 && heightSkipPrev >= height))) {
          AncestorOfAncestor(this, heightWalk, heightSkip);
          InTree(pindexWalk, heightSkip, tree);
          pindexWalk := pindexWalk.pskip;
          heightWalk := heightSkip;
        } else {
          AncestorOfAncestor(this, heightWalk, heightWalk - 1);
          pindexWalk := pindexWalk.pprev;
          heightWalk := heightWalk - 1;
        }
      }
      return pindexWalk;
    }

    method BuildSkip(ghost tree: set<BlockIndex>)
      requires Tree(tree) && this in tree
      modifies this`pskip
      ensures Tree(tree) && (pprev != null ==> pskip != null)
    {
      if pprev != null {
        SkipsBack(nHeight);
        var ancestor := pprev.GetAncestor(GetSkipHeight(nHeight), tree);
        pskip := ancestor;
      }
    }
  }

  /** A set of blocks closed under previous blocks, whose skip pointers lead to the right ancestors. */
  ghost predicate Tree(tree: set<BlockIndex>)
    reads tree
  {
    forall b | b in tree :: b.Linked() && b.SkipOk() && (b.pprev != null ==> b.pprev in tree)
  }

  lemma {:induction false} AncestorOfAncestor(b: BlockIndex, h: nat, k: nat)
    requires b.Linked() && k <= h <= b.nHeight
    ensures b.Ancestor(h).Ancestor(k) == b.Ancestor(k)
    decreases b.nHeight
  {
    if h < b.nHeight { AncestorOfAncestor(b.pprev, h, k); }
  }

  lemma {:induction false} InTree(b: BlockIndex, h: nat, tree: set<BlockIndex>)
    requires Tree(tree) && b in tree && h <= b.nHeight
    ensures b.Ancestor(h) in tree
    decreases b.nHeight
  {
    if h < b.nHeight { InTree(b.pprev, h, tree); }
  }

  /** One step of the walk. */
  lemma Previous(b: BlockIndex, h: nat)
    requires b.Linked() && h <= b.nHeight
    ensures b.Ancestor(h).pprev == if h == 0 then null else b.Ancestor(h - 1)
  {
    if h > 0 { AncestorOfAncestor(b, h, h - 1); }
  }

  lemma LinkedInTree(b: BlockIndex, tree: set<BlockIndex>)
    requires Tree(tree) && b in tree
    ensures b.Linked() && b.Ancestor(b.nHeight) == b
  {
  }

  /** Adds a block, with its skip pointer, to a tree. */
  method Grow(prev: BlockIndex?, ghost tree: set<BlockIndex>) returns (b: BlockIndex)
    requires Tree(tree) && (prev != null ==> prev in tree)
    ensures fresh(b) && Tree(tree + {b}) && b.pprev == prev && (prev != null ==> b.pskip != null)
  {
    b := new BlockIndex(prev);
    b.BuildSkip(tree + {b});
  }

  // ---------------------------------------------------------------------------------------------
  // Common ancestors
  // ---------------------------------------------------------------------------------------------

  /** Is c the block b or an ancestor of it? */
  ghost predicate OnLine(c: BlockIndex, b: BlockIndex)
    requires b.Linked()
  {
    c.nHeight <= b.nHeight && b.Ancestor(c.nHeight) == c
  }

  /** The highest block that is on both lines, or none if they have different genesis blocks. */
  ghost predicate HighestCommon(a: BlockIndex, b: BlockIndex, r: BlockIndex?)
    requires a.Linked() && b.Linked()
  {
    && (r != null ==> OnLine(r, a) && OnLine(r, b))
    && forall h: nat | h <= a.nHeight && h <= b.nHeight ::
      a.Ancestor(h) == b.Ancestor(h) <==> r != null && h <= r.nHeight
  }

  /** Two lines that meet stay together below. */
  lemma MeetBelow(a: BlockIndex, b: BlockIndex, h: nat, k: nat)
    requires a.Linked() && b.Linked() && k <= h <= a.nHeight && h <= b.nHeight && a.Ancestor(h) == b.Ancestor(h)
    ensures a.Ancestor(k) == b.Ancestor(k)
  {
    AncestorOfAncestor(a, h, k);
    AncestorOfAncestor(b, h, k);
  }

  /** The lines are apart above a height. */
  ghost predicate ApartAbove(a: BlockIndex, b: BlockIndex, h: int)
    requires a.Linked() && b.Linked()
  {
    forall k: nat | h < k && k <= a.nHeight && k <= b.nHeight :: a.Ancestor(k) != b.Ancestor(k)
  }

  lemma StillApart(a: BlockIndex, b: BlockIndex, h: nat)
    requires a.Linked() && b.Linked() && h <= a.nHeight && h <= b.nHeight
    requires ApartAbove(a, b, h) && a.Ancestor(h) != b.Ancestor(h)
    ensures ApartAbove(a, b, h - 1)
  {
  }

  lemma Meet(a: BlockIndex, b: BlockIndex, h: int)
    requires a.Linked() && b.Linked() && -1 <= h <= a.nHeight && h <= b.nHeight && ApartAbove(a, b, h)
    requires h >= 0 ==> a.Ancestor(h) == b.Ancestor(h)
    ensures HighestCommon(a, b, if h >= 0 then a.Ancestor(h) else null)
  {
    forall k: nat | k <= h ensures a.Ancestor(k) == b.Ancestor(k) { MeetBelow(a, b, h, k); }
  }

  lemma StartApart(a: BlockIndex, b: BlockIndex, h: nat)
    requires a.Linked() && b.Linked() && (h == a.nHeight || h == b.nHeight)
    ensures ApartAbove(a, b, h)
  {
  }

  method LastCommonAncestor(a: BlockIndex, b: BlockIndex, ghost tree: set<BlockIndex>) returns (r: BlockIndex?)
    requires Tree(tree) && a in tree && b in tree
    ensures HighestCommon(a, b, r)
  {
    hide ApartAbove, HighestCommon, Tree, BlockIndex.Ancestor, BlockIndex.Linked;
    LinkedInTree(a, tree);
    LinkedInTree(b, tree);
    var pa: BlockIndex?, pb: BlockIndex? := a, b;
    if a.nHeight > b.nHeight {
      pa := a.GetAncestor(b.nHeight, tree);
    } else if b.nHeight > a.nHeight {
      pb := b.GetAncestor(a.nHeight, tree);
    }
    ghost var h: int := pa.nHeight;
    StartApart(a, b, h);
    while pa != pb && pa != null && pb != null
      invariant -1 <= h && h <= a.nHeight && h <= b.nHeight && ApartAbove(a, b, h)
      invariant if h == -1 then pa == null && pb == null else pa == a.Ancestor(h) && pb == b.Ancestor(h)
      decreases h + 1
    {
      StillApart(a, b, h);
      Previous(a, h);
      Previous(b, h);
      pa := pa.pprev;
      pb := pb.pprev;
      h := h - 1;
    }
    assert pa == pb;
    Meet(a, b, h);
    return pa;
  }

  // ---------------------------------------------------------------------------------------------
  // The active chain
  // ---------------------------------------------------------------------------------------------

  /** Entry i is the ancestor of the tip at height i. */
  ghost predicate IsLine(chain: seq<BlockIndex?>, tip: BlockIndex)
    requires tip.Linked()
  {
    |chain| == tip.nHeight + 1 && forall i | 0 <= i < |chain| :: chain[i] == tip.Ancestor(i)
  }

  ghost predicate ValidChain(chain: seq<BlockIndex?>, tree: set<BlockIndex>) {
    chain == [] || (var tip := chain[|chain| - 1]; tip != null && tip in tree && tip.Linked() && IsLine(chain, tip))
  }

  /** While the tip is being set: the new line from height h on, the old one below. */
  ghost predicate PartlySet(chain: seq<BlockIndex?>, before: seq<BlockIndex?>, tip: BlockIndex, h: int)
    requires tip.Linked()
  {
    && |chain| == tip.nHeight + 1 && -1 <= h <= tip.nHeight
    && (forall i: nat | h < i < |chain| :: chain[i] == tip.Ancestor(i))
    && (forall i | 0 <= i <= h :: chain[i] == if i < |before| then before[i] else null)
  }

  lemma SetStep(chain: seq<BlockIndex?>, before: seq<BlockIndex?>, tip: BlockIndex, h: nat)
    requires tip.Linked() && PartlySet(chain, before, tip, h)
    ensures PartlySet(chain[h := tip.Ancestor(h)], before, tip, h - 1)
  {
  }

  /** Where the new line meets the old one, the rest is already in place. */
  lemma SetEnd(chain: seq<BlockIndex?>, before: seq<BlockIndex?>, tip: BlockIndex, h: int, tree: set<BlockIndex>)
    requires tip.Linked() && tip in tree && PartlySet(chain, before, tip, h) && ValidChain(before, tree)
    requires h >= 0 ==> chain[h] == tip.Ancestor(h)
    ensures IsLine(chain, tip)
  {
    if h >= 0 {
      var oldTip := before[|before| - 1];
      forall i: nat | i <= h ensures chain[i] == tip.Ancestor(i) { MeetBelow(tip, oldTip, h, i); }
    }
  }

  // ---------------------------------------------------------------------------------------------
  // Block locators
  // ---------------------------------------------------------------------------------------------

  /** Blocks of one line, from its start, each lower than the one before. */
  ghost predicate Descending(blocks: seq<BlockIndex>, start: BlockIndex)
    requires start.Linked()
  {
    && (blocks != [] ==> blocks[0] == start)
    && (forall i | 0 <= i < |blocks| :: OnLine(blocks[i], start))
    && (forall i, j | 0 <= i < j < |blocks| :: blocks[i].nHeight > blocks[j].nHeight)
  }

  /** The height of entry i: the genesis block's once the steps have gone down far enough. */
  function HeightAt(height: nat, i: nat): nat { if Descent(i) < height then height - Descent(i) else 0 }

  /** A locator lists the ancestors at these heights, up to and including the first that is zero. */
  ghost predicate Locates(blocks: seq<BlockIndex>, start: BlockIndex)
    requires start.Linked()
  {
    && blocks != [] && Descent(|blocks| - 1) >= start.nHeight
    && (forall i | 0 <= i < |blocks| - 1 :: Descent(i) < start.nHeight)
    && (forall i | 0 <= i < |blocks| :: blocks[i] == start.Ancestor(HeightAt(start.nHeight, i)))
  }

  /** The step back after n blocks, and the height gone down by then. */
  function Step(n: nat): nat { if n <= 10 then 1 else Pow2(n - 10) }
  function Descent(n: nat): nat { if n <= 11 then n else 9 + Pow2(n - 10) }

  lemma DescentStep(n: nat)
    ensures Descent(n + 1) == Descent(n) + Step(n) && Step(n + 1) == if n + 1 > 10 then 2 * Step(n) else Step(n)
  {
  }

  lemma {:induction false} DescentIncreases(i: nat, j: nat)
    requires i < j
    ensures Descent(i) < Descent(j)
    decreases j
  {
    DescentStep(j - 1);
    if i < j - 1 { DescentIncreases(i, j - 1); }
  }

  /** What this means: blocks of one line in descending order, from the start to the genesis block, no more
      than twelve and the logarithm of the height. */
  lemma LocatorDescends(blocks: seq<BlockIndex>, start: BlockIndex)
    requires start.Linked() && Locates(blocks, start)
    ensures Descending(blocks, start) && blocks != [] && blocks[0] == start && blocks[|blocks| - 1].nHeight == 0
    ensures |blocks| <= 12 || Pow2(|blocks| - 12) + 9 < start.nHeight
  {
    forall i, j | 0 <= i < j < |blocks| ensures blocks[i].nHeight > blocks[j].nHeight { DescentIncreases(i, j); }
    if |blocks| > 12 { assert Descent(|blocks| - 2) < start.nHeight; }
  }

  /** The first twelve blocks follow each other; from then on no gap is more than twice the one before. */
  lemma LocatorGaps(blocks: seq<BlockIndex>, start: BlockIndex, i: nat)
    requires start.Linked() && Locates(blocks, start) && i + 1 < |blocks|
    ensures var gap := blocks[i].nHeight - blocks[i + 1].nHeight;
      && (i < 11 ==> gap == 1)
      && (i + 2 < |blocks| ==> blocks[i + 1].nHeight - blocks[i + 2].nHeight <= 2 * gap)
      && gap <= start.nHeight - blocks[i].nHeight + 1
  {
    DescentStep(i);
    DescentStep(i + 1);
    assert Descent(i) < start.nHeight;
    assert i + 2 < |blocks| ==> Descent(i + 1) < start.nHeight;
    assert Step(i) <= Descent(i) + 1;
  }

  /** What a locator is for: a peer whose chain left the line d blocks below the start finds a listed block at
      or below the fork, and at most twice as deep. */
  lemma LocatorFindsFork(blocks: seq<BlockIndex>, start: BlockIndex, d: nat) returns (i: nat)
    requires start.Linked() && Locates(blocks, start) && d <= start.nHeight
    ensures i < |blocks| && d <= start.nHeight - blocks[i].nHeight <= 2 * d
  {
    hide Locates;
    LocatorDescends(blocks, start);
    i := 0;
    while start.nHeight - blocks[i].nHeight < d
      invariant i < |blocks| && start.nHeight - blocks[i].nHeight <= 2 * d
      decreases |blocks| - i
    {
      LocatorGaps(blocks, start, i);
      i := i + 1;
    }
  }

  /** The next block to list, and the step to take after it. */
  ghost predicate Pace(blocks: seq<BlockIndex>, nStep: nat, start: BlockIndex, walk: BlockIndex)
    requires start.Linked()
  {
    && nStep == Step(|blocks|) && walk == start.Ancestor(HeightAt(start.nHeight, |blocks|))
    && (forall i | 0 <= i < |blocks| ::
          Descent(i) < start.nHeight && blocks[i] == start.Ancestor(HeightAt(start.nHeight, i)))
  }

  lemma LocatorStart(start: BlockIndex)
    requires start.Linked()
    ensures Pace([], 1, start, start)
  {
  }

  lemma LocatorEnd(blocks: seq<BlockIndex>, nStep: nat, start: BlockIndex, walk: BlockIndex)
    requires start.Linked() && Pace(blocks, nStep, start, walk) && walk.nHeight == 0
    ensures Locates(blocks + [walk], start)
  {
  }

  lemma LocatorStep(blocks: seq<BlockIndex>, nStep: nat, start: BlockIndex, walk: BlockIndex)
    requires start.Linked() && Pace(blocks, nStep, start, walk) && walk.nHeight > 0
    ensures walk.Linked() && nStep > 0 && OnLine(walk, start)
    ensures var nHeight := if walk.nHeight - nStep > 0 then walk.nHeight - nStep else 0;
      Pace(blocks + [walk], if |blocks| + 1 > 10 then nStep * 2 else nStep, start, walk.Ancestor(nHeight))
  {
    DescentStep(|blocks|);
    var nHeight := if walk.nHeight - nStep > 0 then walk.nHeight - nStep else 0;
    AncestorOfAncestor(start, walk.nHeight, nHeight);
  }

  class ActiveChain {
    var vChain: seq<BlockIndex?>

    constructor ()
      ensures vChain == []
    {
      vChain := [];
    }

    function Height(): int
      reads this
    {
      |vChain| - 1
    }

    function Tip(): BlockIndex?
      reads this
    {
      if vChain == [] then null else vChain[|vChain| - 1]
    }

    function At(nHeight: int): BlockIndex?
      reads this
    {
      if nHeight < 0 || nHeight >= |vChain| then null else vChain[nHeight]
    }

    predicate Contains(pindex: BlockIndex)
      reads this
    {
      At(pindex.nHeight) == pindex
    }

    method SetTip(pindex: BlockIndex?, ghost tree: set<BlockIndex>)
      requires Tree(tree) && ValidChain(vChain, tree) && (pindex != null ==> pindex in tree)
      modifies this
      ensures ValidChain(vChain, tree) && Tip() == pindex
      ensures pindex != null ==> IsLine(vChain, pindex)
    {
      if pindex == null {
        vChain := [];
        return;
      }
      hide PartlySet, ValidChain, IsLine, Tree, BlockIndex.Ancestor, BlockIndex.Linked, Resized;
      LinkedInTree(pindex, tree);
      ghost var before := vChain;
      vChain := Resized(vChain, pindex.nHeight + 1);
      ghost var h := Replace(pindex, before);
      SetEnd(vChain, before, pindex, h, tree);
      LineValid(vChain, pindex, tree);
    }

    /** Writes the line of a block down to where it is already in place. */
    method Replace(pindex: BlockIndex, ghost before: seq<BlockIndex?>) returns (ghost h: int)
      requires pindex.Linked() && vChain == Resized(before, pindex.nHeight + 1)
      modifies this
      ensures PartlySet(vChain, before, pindex, h) && (h >= 0 ==> vChain[h] == pindex.Ancestor(h))
    {
      hide PartlySet, BlockIndex.Ancestor, BlockIndex.Linked, Resized;
      SetStart(before, pindex);
      var walk: BlockIndex? := pindex;
      h := pindex.nHeight;
      while walk != null && vChain[walk.nHeight] != walk
        invariant |vChain| == pindex.nHeight + 1 && PartlySet(vChain, before, pindex, h)
        invariant -1 <= h <= pindex.nHeight
        invariant if h == -1 then walk == null else walk == pindex.Ancestor(h)
        decreases h + 1
      {
        SetStep(vChain, before, pindex, h);
        Previous(pindex, h);
        vChain := vChain[walk.nHeight := walk];
        walk := walk.pprev;
        h := h - 1;
      }
    }

    /** The last block of the chain on the line of a block. */
    method FindFork(pindex: BlockIndex?, ghost tree: set<BlockIndex>) returns (r: BlockIndex?)
      requires Tree(tree) && ValidChain(vChain, tree) && (pindex != null ==> pindex in tree)
      ensures pindex == null || vChain == [] ==> r == null
      ensures pindex != null && vChain != [] ==> HighestCommon(pindex, Tip(), r)
    {
      hide HighestCommon, ApartAbove, Tree, BlockIndex.Ancestor, BlockIndex.Linked;
      if pindex == null {
        return null;
      }
      LinkedInTree(pindex, tree);
      r := pindex;
      if r.nHeight > Height() {
        r := r.GetAncestor(Height(), tree);
      }
      if vChain == [] { return; }
      ghost var h: int := r.nHeight;
      StartApart(pindex, Tip(), h);
      while r != null && !Contains(r)
        invariant -1 <= h <= pindex.nHeight && h <= Height() && ApartAbove(pindex, Tip(), h)
        invariant if h == -1 then r == null else r == pindex.Ancestor(h)
        decreases h + 1
      {
        StillApart(pindex, Tip(), h);
        Previous(pindex, h);
        r := r.pprev;
        h := h - 1;
      }
      Meet(pindex, Tip(), h);
    }

    /** A list of blocks back to the genesis block, in steps that double after the first eleven. */
    method GetLocator(pindex: BlockIndex?, ghost tree: set<BlockIndex>) returns (vHave: seq<BlockIndex>)
      requires Tree(tree) && ValidChain(vChain, tree) && (pindex != null ==> pindex in tree)
      ensures var start := if pindex == null then Tip() else pindex;
        if start == null then vHave == [] else Locates(vHave, start)
    {
      hide Locates, Pace;
      var start := if pindex == null then Tip() else pindex;
      vHave := [];
      if start == null { return; }
      var nStep: nat := 1;
      var walk: BlockIndex := start;
      LocatorStart(start);
      while true
        invariant Pace(vHave, nStep, start, walk) && walk in tree
        decreases walk.nHeight
      {
        if walk.nHeight == 0 {
          LocatorEnd(vHave, nStep, start, walk);
          return vHave + [walk];
        }
        LocatorStep(vHave, nStep, start, walk);
        vHave := vHave + [walk];
        var nHeight := if walk.nHeight - nStep > 0 then walk.nHeight - nStep else 0;
        InTree(walk, nHeight, tree);
        if Contains(walk) {
          AncestorOfAncestor(Tip(), walk.nHeight, nHeight);
          walk := At(nHeight);
        } else {
          var next := walk.GetAncestor(nHeight, tree);
          walk := next;
        }
        if |vHave| > 10 {
          nStep := nStep * 2;
        }
      }
    }
  }

  /** The chain contains the tip and its ancestors, and no other block. */
  lemma ContainsLine(chain: ActiveChain, b: BlockIndex, tree: set<BlockIndex>)
    requires ValidChain(chain.vChain, tree)
    ensures chain.Contains(b) <==> chain.vChain != [] && OnLine(b, chain.Tip())
  {
    if chain.vChain != [] && b.nHeight < |chain.vChain| {
      assert chain.vChain[b.nHeight] == chain.Tip().Ancestor(b.nHeight);
    }
  }

  /** A vector with another size: cut off, or filled up with null. */
  function Resized(chain: seq<BlockIndex?>, n: nat): (r: seq<BlockIndex?>)
    ensures |r| == n
  {
    if |chain| > n then chain[..n] else chain + seq<BlockIndex?>(n - |chain|, _ => null)
  }

  lemma SetStart(before: seq<BlockIndex?>, tip: BlockIndex)
    requires tip.Linked()
    ensures PartlySet(Resized(before, tip.nHeight + 1), before, tip, tip.nHeight) && tip.Ancestor(tip.nHeight) == tip
  {
  }

  lemma LineValid(chain: seq<BlockIndex?>, tip: BlockIndex, tree: set<BlockIndex>)
    requires tip.Linked() && tip in tree && IsLine(chain, tip)
    ensures ValidChain(chain, tree) && chain != [] && chain[|chain| - 1] == tip
  {
  }
}
