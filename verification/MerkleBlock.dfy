/** Partial Merkle trees, CPartialMerkleTree (src/merkleblock.h, src/merkleblock.cpp): a subset of a
    block's txids, encoded as a depth-first walk over the Merkle tree in flag bits and hashes.

    Hashes are numbers without an upper bound, so that the node hash may be assumed injective. */
module MerkleBlock {
  import opened Arithmetic

  type Hash = nat
  type NodeHash = (Hash, Hash) -> Hash

  const NullHash: Hash := 0
  const MAX_BLOCK_WEIGHT := 4000000
  const MIN_TRANSACTION_WEIGHT := 240

  ghost predicate Injective(H: NodeHash) {
    forall a, b, c, d :: H(a, b) == H(c, d) ==> a == c && b == d
  }

  lemma SameHash(H: NodeHash, a: Hash, b: Hash, c: Hash, d: Hash)
    requires Injective(H) && H(a, b) == H(c, d)
    ensures a == c && b == d
  {
  }

  // ---------------------------------------------------------------------------------------------
  // The shape of the tree
  // ---------------------------------------------------------------------------------------------

  /** CalcTreeWidth: the number of nodes at a height. */
  function Width(n: nat, h: nat): nat { (n + Pow2(h) - 1) / Pow2(h) }

  /** Each level has half as many nodes as the one below, rounded up. */
  lemma WidthHalves(n: nat, h: nat)
    ensures Width(n, h + 1) == (Width(n, h) + 1) / 2
  {
    var k := Pow2(h);
    var q, r := (n + k - 1) / k, (n + k - 1) % k;
    var m, s := (q + 1) / 2, (q + 1) % 2;
    assert n + k - 1 == q * k + r;
    assert (q + 1) * k == (2 * m + s) * k == m * (2 * k) + s * k;
    assert s * k <= k by { if s == 0 { assert s * k == 0; } else { assert s * k == k; } }
    DivisionUnique(n + 2 * k - 1, 2 * k, m, s * k + r);
  }

  lemma WidthBase(n: nat)
    ensures Width(n, 0) == n
  {
  }

  /** The left child of a node exists. */
  lemma LeftChild(n: nat, h: nat, pos: nat)
    requires h > 0 && pos < Width(n, h)
    ensures 2 * pos < Width(n, h - 1)
  {
    WidthHalves(n, h - 1);
  }

  /** A position exists at a height exactly when its first leaf does. */
  lemma FirstLeaf(n: nat, h: nat, pos: nat)
    ensures pos < Width(n, h) <==> pos * Pow2(h) < n
  {
    var k := Pow2(h);
    var q, r := (n + k - 1) / k, (n + k - 1) % k;
    assert n + k - 1 == q * k + r;
    if pos < q {
      LessProduct(pos + 1, q, k);
    } else {
      LessProduct(q, pos, k);
    }
  }

  /** One past the last leaf below a node. */
  function End(n: nat, h: nat, pos: nat): (e: nat)
    ensures e <= n
  {
    var e := (pos + 1) * Pow2(h);
    if e < n then e else n
  }

  lemma HasLeaves(n: nat, h: nat, pos: nat)
    requires pos < Width(n, h)
    ensures pos * Pow2(h) < End(n, h, pos)
  {
    hide Width;
    FirstLeaf(n, h, pos);
    assert (pos + 1) * Pow2(h) == pos * Pow2(h) + Pow2(h);
  }

  lemma LeafRange(n: nat, pos: nat)
    requires pos < Width(n, 0)
    ensures pos < n && pos * Pow2(0) == pos && End(n, 0, pos) == pos + 1
  {
    WidthBase(n);
  }

  /** The leaves of a node are those of its children. */
  lemma LeavesSplit(n: nat, h: nat, pos: nat)
    requires h > 0 && pos < Width(n, h)
    ensures pos * Pow2(h) == 2 * pos * Pow2(h - 1)
    ensures End(n, h - 1, 2 * pos) == if 2 * pos + 1 < Width(n, h - 1) then (2 * pos + 1) * Pow2(h - 1) else n
    ensures 2 * pos + 1 < Width(n, h - 1) ==> End(n, h - 1, 2 * pos + 1) == End(n, h, pos)
    ensures 2 * pos + 1 >= Width(n, h - 1) ==> End(n, h, pos) == n
  {
    hide Width;
    var k := Pow2(h - 1);
    FirstLeaf(n, h - 1, 2 * pos + 1);
    assert (pos + 1) * (2 * k) == (2 * pos + 2) * k == (2 * pos + 1) * k + k;
  }

  /** The height of the root. */
  function HeightFrom(n: nat, h: nat): (r: nat)
    ensures r >= h && Width(n, r) <= 1
    decreases Width(n, h)
  {
    WidthHalves(n, h);
    if Width(n, h) > 1 then HeightFrom(n, h + 1) else h
  }

  lemma {:induction false} RootExists(n: nat, h: nat)
    requires Width(n, h) > 0
    ensures Width(n, HeightFrom(n, h)) == 1
    decreases Width(n, h)
  {
    WidthHalves(n, h);
    if Width(n, h) > 1 { RootExists(n, h + 1); }
  }

  /** The hash of a node; a missing right child repeats the left one. */
  function NodeAt(H: NodeHash, txids: seq<Hash>, h: nat, pos: nat): Hash
    requires pos < Width(|txids|, h)
  {
    if h == 0 then WidthBase(|txids|); txids[pos]
    else
      LeftChild(|txids|, h, pos);
      var left := NodeAt(H, txids, h - 1, 2 * pos);
      var right := if 2 * pos + 1 < Width(|txids|, h - 1) then NodeAt(H, txids, h - 1, 2 * pos + 1) else left;
      H(left, right)
  }

  function MerkleRoot(H: NodeHash, txids: seq<Hash>): Hash
    requires |txids| > 0
  {
    WidthBase(|txids|);
    RootExists(|txids|, 0);
    NodeAt(H, txids, HeightFrom(|txids|, 0), 0)
  }

  /** With distinct txids and an injective hash, the nodes of a level are distinct. */
  lemma {:induction false} NodesDistinct(H: NodeHash, txids: seq<Hash>, h: nat, p: nat, q: nat)
    requires Injective(H) && Distinct(txids)
    requires p < Width(|txids|, h) && q < Width(|txids|, h) && p != q
    ensures NodeAt(H, txids, h, p) != NodeAt(H, txids, h, q)
  {
    if h == 0 {
      WidthBase(|txids|);
    } else {
      LeftChild(|txids|, h, p);
      LeftChild(|txids|, h, q);
      NodesDistinct(H, txids, h - 1, 2 * p, 2 * q);
    }
  }

  // ---------------------------------------------------------------------------------------------
  // Encoding
  // ---------------------------------------------------------------------------------------------

  /** Is the node the parent of a matched leaf, or one itself? */
  function Matched(match_: seq<bool>, h: nat, pos: nat): bool
    requires pos < Width(|match_|, h)
  {
    if h == 0 then WidthBase(|match_|); match_[pos]
    else
      LeftChild(|match_|, h, pos);
      || Matched(match_, h - 1, 2 * pos)
      || (2 * pos + 1 < Width(|match_|, h - 1) && Matched(match_, h - 1, 2 * pos + 1))
  }

  datatype Encoding = Encoding(bits: seq<bool>, hashes: seq<Hash>)

  /** A set flag bit, then the encodings of the two children. */
  function Join(l: Encoding, r: Encoding): Encoding {
    Encoding([true] + l.bits + r.bits, l.hashes + r.hashes)
  }

  /** What TraverseAndBuild appends for a node. */
  function Build(H: NodeHash, txids: seq<Hash>, match_: seq<bool>, h: nat, pos: nat): Encoding
    requires |txids| == |match_| && pos < Width(|txids|, h)
  {
    var m := Matched(match_, h, pos);
    if h == 0 || !m then Encoding([m], [NodeAt(H, txids, h, pos)])
    else
      LeftChild(|txids|, h, pos);
      Join(Build(H, txids, match_, h - 1, 2 * pos),
           if 2 * pos + 1 < Width(|txids|, h - 1) then Build(H, txids, match_, h - 1, 2 * pos + 1) else Encoding([], []))
  }

  /** The matched leaves below a node, from left to right. */
  function Matches(txids: seq<Hash>, match_: seq<bool>, h: nat, pos: nat): seq<(Hash, nat)>
    requires |txids| == |match_| && pos < Width(|txids|, h)
  {
    if h == 0 then WidthBase(|txids|); (if match_[pos] then [(txids[pos], pos)] else [])
    else
      LeftChild(|txids|, h, pos);
      Matches(txids, match_, h - 1, 2 * pos)
      + (if 2 * pos + 1 < Width(|txids|, h - 1) then Matches(txids, match_, h - 1, 2 * pos + 1) else [])
  }

  /** The matched positions from lo on and before hi, in order. */
  function Selected(txids: seq<Hash>, match_: seq<bool>, lo: nat, hi: nat): seq<(Hash, nat)>
    requires |txids| == |match_| && hi <= |txids|
  {
    if lo >= hi then []
    else Selected(txids, match_, lo, hi - 1) + (if match_[hi - 1] then [(txids[hi - 1], hi - 1)] else [])
  }

  lemma {:induction false} SelectedSplit(txids: seq<Hash>, match_: seq<bool>, lo: nat, mid: nat, hi: nat)
    requires |txids| == |match_| && lo <= mid <= hi <= |txids|
    ensures Selected(txids, match_, lo, hi) == Selected(txids, match_, lo, mid) + Selected(txids, match_, mid, hi)
    decreases hi
  {
    if mid < hi { SelectedSplit(txids, match_, lo, mid, hi - 1); }
  }

  /** The tree walk finds the matched leaves of its node, each once and in order. */
  lemma {:induction false} MatchesAreSelected(txids: seq<Hash>, match_: seq<bool>, h: nat, pos: nat)
    requires |txids| == |match_| && pos < Width(|txids|, h)
    ensures Matches(txids, match_, h, pos) == Selected(txids, match_, pos * Pow2(h), End(|txids|, h, pos))
  {
    hide Width, Selected, Pow2, End;
    var n := |txids|;
    if h == 0 {
      LeafRange(n, pos);
      OneSelected(txids, match_, pos);
    } else {
      LeftChild(n, h, pos);
      LeavesSplit(n, h, pos);
      MatchesAreSelected(txids, match_, h - 1, 2 * pos);
      if 2 * pos + 1 < Width(n, h - 1) {
        MatchesAreSelected(txids, match_, h - 1, 2 * pos + 1);
        HasLeaves(n, h - 1, 2 * pos);
        HasLeaves(n, h - 1, 2 * pos + 1);
        SelectedSplit(txids, match_, pos * Pow2(h), (2 * pos + 1) * Pow2(h - 1), End(n, h, pos));
      }
    }
  }

  lemma OneSelected(txids: seq<Hash>, match_: seq<bool>, p: nat)
    requires |txids| == |match_| && p < |txids|
    ensures Selected(txids, match_, p, p + 1) == if match_[p] then [(txids[p], p)] else []
  {
  }

  lemma {:induction false} MatchedHasMatches(txids: seq<Hash>, match_: seq<bool>, h: nat, pos: nat)
    requires |txids| == |match_| && pos < Width(|txids|, h)
    ensures Matched(match_, h, pos) <==> Matches(txids, match_, h, pos) != []
  {
    hide Width;
    if h > 0 {
      LeftChild(|txids|, h, pos);
      MatchedHasMatches(txids, match_, h - 1, 2 * pos);
      if 2 * pos + 1 < Width(|txids|, h - 1) { MatchedHasMatches(txids, match_, h - 1, 2 * pos + 1); }
    }
  }

  /** A node contributes at most one hash a leaf, and at least one bit a hash. */
  lemma {:induction false} BuildSize(H: NodeHash, txids: seq<Hash>, match_: seq<bool>, h: nat, pos: nat)
    requires |txids| == |match_| && pos < Width(|txids|, h)
    ensures var b := Build(H, txids, match_, h, pos);
      1 <= |b.hashes| <= End(|txids|, h, pos) - pos * Pow2(h) && |b.hashes| <= |b.bits|
  {
    hide Width;
    var n := |txids|;
    HasLeaves(n, h, pos);
    if h > 0 && Matched(match_, h, pos) {
      LeftChild(n, h, pos);
      LeavesSplit(n, h, pos);
      BuildSize(H, txids, match_, h - 1, 2 * pos);
      if 2 * pos + 1 < Width(n, h - 1) { BuildSize(H, txids, match_, h - 1, 2 * pos + 1); }
    }
  }

  // ---------------------------------------------------------------------------------------------
  // Decoding
  // ---------------------------------------------------------------------------------------------

  /** Where TraverseAndExtract stands: bits and hashes used, matches found, and whether data was bad. */
  datatype Cursor = Cursor(bitsUsed: nat, hashUsed: nat, bad: bool, matches: seq<(Hash, nat)>)

  function Extract(H: NodeHash, n: nat, e: Encoding, h: nat, pos: nat, c: Cursor): (Hash, Cursor)
    requires pos < Width(n, h)
    decreases h
  {
    if c.bitsUsed >= |e.bits| then (NullHash, c.(bad := true))
    else
      var flag := e.bits[c.bitsUsed];
      var c1 := c.(bitsUsed := c.bitsUsed + 1);
      if h == 0 || !flag then
        if c1.hashUsed >= |e.hashes| then (NullHash, c1.(bad := true))
        else
          var hash := e.hashes[c1.hashUsed];
          (hash, c1.(hashUsed := c1.hashUsed + 1,
                     matches := if h == 0 && flag then c1.matches + [(hash, pos)] else c1.matches))
      else
        LeftChild(n, h, pos);
        var (left, c2) := Extract(H, n, e, h - 1, 2 * pos, c1);
        if 2 * pos + 1 < Width(n, h - 1) then
          var (right, c3) := Extract(H, n, e, h - 1, 2 * pos + 1, c2);
          (H(left, right), if right == left then c3.(bad := true) else c3)
        else (H(left, left), c2)
  }

  /** The cursor after a set flag bit. */
  function Descended(c: Cursor): Cursor { c.(bitsUsed := c.bitsUsed + 1) }

  lemma ExtractInner(H: NodeHash, n: nat, e: Encoding, h: nat, pos: nat, c: Cursor)
    requires h > 0 && pos < Width(n, h) && c.bitsUsed < |e.bits| && e.bits[c.bitsUsed]
    ensures 2 * pos < Width(n, h - 1)
    ensures var (left, c2) := Extract(H, n, e, h - 1, 2 * pos, Descended(c));
      Extract(H, n, e, h, pos, c) ==
      if 2 * pos + 1 < Width(n, h - 1) then
        var (right, c3) := Extract(H, n, e, h - 1, 2 * pos + 1, c2);
        (H(left, right), if right == left then c3.(bad := true) else c3)
      else (H(left, left), c2)
  {
    LeftChild(n, h, pos);
    hide Width;
  }

  lemma ExtractHash(H: NodeHash, n: nat, e: Encoding, h: nat, pos: nat, c: Cursor)
    requires pos < Width(n, h) && (c.bitsUsed >= |e.bits| || h == 0 || !e.bits[c.bitsUsed])
    ensures var c' := Extract(H, n, e, h, pos, c).1;
      && (c.bad ==> c'.bad) && c.matches <= c'.matches && c'.bitsUsed >= c.bitsUsed && c'.hashUsed >= c.hashUsed
      && (h > 0 ==> c'.matches == c.matches)
    ensures Extract(H, n, e, h, pos, c) ==
      if c.bitsUsed >= |e.bits| then (NullHash, c.(bad := true))
      else if c.hashUsed >= |e.hashes| then (NullHash, Descended(c).(bad := true))
      else
        var hash := e.hashes[c.hashUsed];
        (hash, Cursor(c.bitsUsed + 1, c.hashUsed + 1, c.bad,
                      if h == 0 && e.bits[c.bitsUsed] then c.matches + [(hash, pos)] else c.matches))
  {
  }

  /** Bad data is never forgotten, and matches are only appended. */
  lemma {:induction false} ExtractGrows(H: NodeHash, n: nat, e: Encoding, h: nat, pos: nat, c: Cursor)
    requires pos < Width(n, h)
    ensures var c' := Extract(H, n, e, h, pos, c).1;
      (c.bad ==> c'.bad) && c.matches <= c'.matches && c'.bitsUsed >= c.bitsUsed && c'.hashUsed >= c.hashUsed
    decreases h
  {
    hide Width, Extract;
    if c.bitsUsed >= |e.bits| || h == 0 || !e.bits[c.bitsUsed] {
      ExtractHash(H, n, e, h, pos, c);
    } else {
      ExtractInner(H, n, e, h, pos, c);
      var c1 := Descended(c);
      ExtractGrows(H, n, e, h - 1, 2 * pos, c1);
      if 2 * pos + 1 < Width(n, h - 1) {
        ExtractGrows(H, n, e, h - 1, 2 * pos + 1, Extract(H, n, e, h - 1, 2 * pos, c1).1);
      }
    }
  }

  /** Every match found from position k on is the block's txid at the reported place. */
  ghost predicate TrueMatches(txids: seq<Hash>, matches: seq<(Hash, nat)>, k: nat) {
    forall i | k <= i < |matches| :: matches[i].1 < |txids| && matches[i].0 == txids[matches[i].1]
  }

  lemma NothingNew(txids: seq<Hash>, matches: seq<(Hash, nat)>)
    ensures TrueMatches(txids, matches, |matches|)
  {
  }

  lemma ExtractLeafSound(H: NodeHash, txids: seq<Hash>, e: Encoding, pos: nat, c: Cursor)
    requires pos < Width(|txids|, 0)
    requires var (hash, c') := Extract(H, |txids|, e, 0, pos, c); hash == NodeAt(H, txids, 0, pos) && !c'.bad
    ensures TrueMatches(txids, Extract(H, |txids|, e, 0, pos, c).1.matches, |c.matches|)
  {
    WidthBase(|txids|);
  }

  /** Soundness at a node: whatever the encoding, if the walk ends well with the true hash of the node,
      then every match it reported is a true one. */
  lemma {:induction false} ExtractSound(H: NodeHash, txids: seq<Hash>, e: Encoding, h: nat, pos: nat, c: Cursor)
    requires Injective(H) && pos < Width(|txids|, h)
    requires var (hash, c') := Extract(H, |txids|, e, h, pos, c); hash == NodeAt(H, txids, h, pos) && !c'.bad
    ensures TrueMatches(txids, Extract(H, |txids|, e, h, pos, c).1.matches, |c.matches|)
    decreases h
  {
    hide Width, Injective, TrueMatches, Extract;
    if h == 0 {
      ExtractLeafSound(H, txids, e, pos, c);
    } else if c.bitsUsed >= |e.bits| || !e.bits[c.bitsUsed] {
      ExtractHash(H, |txids|, e, h, pos, c);
      NothingNew(txids, c.matches);
    } else {
      ExtractInner(H, |txids|, e, h, pos, c);
      var c1 := Descended(c);
      var (left, c2) := Extract(H, |txids|, e, h - 1, 2 * pos, c1);
      ExtractGrows(H, |txids|, e, h - 1, 2 * pos, c1);
      if 2 * pos + 1 < Width(|txids|, h - 1) {
        var (right, c3) := Extract(H, |txids|, e, h - 1, 2 * pos + 1, c2);
        ExtractGrows(H, |txids|, e, h - 1, 2 * pos + 1, c2);
        SameHash(H, left, right, NodeAt(H, txids, h - 1, 2 * pos), NodeAt(H, txids, h - 1, 2 * pos + 1));
        ExtractSound(H, txids, e, h - 1, 2 * pos, c1);
        ExtractSound(H, txids, e, h - 1, 2 * pos + 1, c2);
        TrueMatchesJoin(txids, c2.matches, c3.matches, |c.matches|);
      } else {
        var true_ := NodeAt(H, txids, h - 1, 2 * pos);
        SameHash(H, left, left, true_, true_);
        ExtractSound(H, txids, e, h - 1, 2 * pos, c1);
      }
    }
  }

  lemma TrueMatchesJoin(txids: seq<Hash>, m: seq<(Hash, nat)>, m': seq<(Hash, nat)>, k: nat)
    requires m <= m' && TrueMatches(txids, m, k) && TrueMatches(txids, m', |m|)
    ensures TrueMatches(txids, m', k)
  {
    forall i | k <= i < |m'| ensures m'[i].1 < |txids| && m'[i].0 == txids[m'[i].1] {
      if i < |m| { assert m'[i] == m[i]; }
    }
  }

  ghost predicate HoldsAt<T>(s: seq<T>, i: nat, b: seq<T>) {
    i + |b| <= |s| && forall k | 0 <= k < |b| :: s[i + k] == b[k]
  }

  /** The encoding continues with these bits and hashes. */
  ghost predicate Continues(e: Encoding, c: Cursor, b: Encoding) {
    HoldsAt(e.bits, c.bitsUsed, b.bits) && HoldsAt(e.hashes, c.hashUsed, b.hashes)
  }

  function Past(c: Cursor, b: Encoding, found: seq<(Hash, nat)>): Cursor {
    Cursor(c.bitsUsed + |b.bits|, c.hashUsed + |b.hashes|, c.bad, c.matches + found)
  }

  ghost predicate Distinct(txids: seq<Hash>) { forall i, j | 0 <= i < j < |txids| :: txids[i] != txids[j] }

  lemma ExtractBuiltHash(H: NodeHash, txids: seq<Hash>, match_: seq<bool>, e: Encoding, h: nat, pos: nat, c: Cursor)
    requires |txids| == |match_| && pos < Width(|txids|, h) && (h == 0 || !Matched(match_, h, pos))
    requires Continues(e, c, Build(H, txids, match_, h, pos))
    ensures Extract(H, |txids|, e, h, pos, c)
         == (NodeAt(H, txids, h, pos),
             Past(c, Build(H, txids, match_, h, pos), Matches(txids, match_, h, pos)))
  {
    hide Width, NodeAt;
    MatchedHasMatches(txids, match_, h, pos);
    var b := Build(H, txids, match_, h, pos);
    assert e.bits[c.bitsUsed] == b.bits[0] && e.hashes[c.hashUsed] == b.hashes[0];
    if h == 0 { LeafHash(H, txids, match_, pos); }
    assert c.matches + [] == c.matches;
  }

  lemma LeafHash(H: NodeHash, txids: seq<Hash>, match_: seq<bool>, pos: nat)
    requires |txids| == |match_| && pos < Width(|txids|, 0)
    ensures pos < |txids| && NodeAt(H, txids, 0, pos) == txids[pos]
    ensures Matches(txids, match_, 0, pos) == if Matched(match_, 0, pos) then [(txids[pos], pos)] else []
  {
    WidthBase(|txids|);
  }

  /** Completeness at a node: reading back what was built gives the node's hash and exactly its matches. */
  lemma {:induction false} ExtractBuilt(H: NodeHash, txids: seq<Hash>, match_: seq<bool>, e: Encoding, h: nat, pos: nat,
                                        c: Cursor)
    requires Injective(H) && Distinct(txids) && |txids| == |match_| && pos < Width(|txids|, h)
    requires Continues(e, c, Build(H, txids, match_, h, pos))
    ensures Extract(H, |txids|, e, h, pos, c)
         == (NodeAt(H, txids, h, pos),
             Past(c, Build(H, txids, match_, h, pos), Matches(txids, match_, h, pos)))
    decreases h
  {
    hide Width, Injective, Distinct, Continues, Past, Join, NodeAt, Build, Matches, Extract;
    if h == 0 || !Matched(match_, h, pos) {
      ExtractBuiltHash(H, txids, match_, e, h, pos, c);
    } else {
      LeftChild(|txids|, h, pos);
      var l := Build(H, txids, match_, h - 1, 2 * pos);
      var found := Matches(txids, match_, h - 1, 2 * pos);
      BuildInner(H, txids, match_, h, pos);
      if 2 * pos + 1 < Width(|txids|, h - 1) {
        var r := Build(H, txids, match_, h - 1, 2 * pos + 1);
        ContinuesJoin(e, c, l, r, found, Matches(txids, match_, h - 1, 2 * pos + 1));
        ExtractBuilt(H, txids, match_, e, h - 1, 2 * pos, Descended(c));
        ExtractBuilt(H, txids, match_, e, h - 1, 2 * pos + 1, Past(Descended(c), l, found));
        NodesDistinct(H, txids, h - 1, 2 * pos, 2 * pos + 1);
      } else {
        ContinuesJoin(e, c, l, Encoding([], []), found, []);
        ExtractBuilt(H, txids, match_, e, h - 1, 2 * pos, Descended(c));
      }
      ExtractInner(H, |txids|, e, h, pos, c);
    }
  }

  lemma BuildInner(H: NodeHash, txids: seq<Hash>, match_: seq<bool>, h: nat, pos: nat)
    requires |txids| == |match_| && pos < Width(|txids|, h) && h > 0 && Matched(match_, h, pos)
    ensures 2 * pos < Width(|txids|, h - 1)
    ensures var l, ml := Build(H, txids, match_, h - 1, 2 * pos), Matches(txids, match_, h - 1, 2 * pos);
      var left := NodeAt(H, txids, h - 1, 2 * pos);
      if 2 * pos + 1 < Width(|txids|, h - 1) then
        && Build(H, txids, match_, h, pos) == Join(l, Build(H, txids, match_, h - 1, 2 * pos + 1))
        && Matches(txids, match_, h, pos) == ml + Matches(txids, match_, h - 1, 2 * pos + 1)
        && NodeAt(H, txids, h, pos) == H(left, NodeAt(H, txids, h - 1, 2 * pos + 1))
      else
        && Build(H, txids, match_, h, pos) == Join(l, Encoding([], []))
        && Matches(txids, match_, h, pos) == ml + []
        && NodeAt(H, txids, h, pos) == H(left, left)
  {
    LeftChild(|txids|, h, pos);
    hide Width, Join;
  }

  lemma BuildHash(H: NodeHash, txids: seq<Hash>, match_: seq<bool>, h: nat, pos: nat)
    requires |txids| == |match_| && pos < Width(|txids|, h) && (h == 0 || !Matched(match_, h, pos))
    ensures Build(H, txids, match_, h, pos) == Encoding([Matched(match_, h, pos)], [NodeAt(H, txids, h, pos)])
  {
    hide Width;
  }

  lemma ContinuesJoin(e: Encoding, c: Cursor, l: Encoding, r: Encoding, ml: seq<(Hash, nat)>, mr: seq<(Hash, nat)>)
    requires Continues(e, c, Join(l, r))
    ensures c.bitsUsed < |e.bits| && e.bits[c.bitsUsed]
    ensures Continues(e, Descended(c), l)
    ensures Continues(e, Past(Descended(c), l, ml), r)
    ensures Past(Past(Descended(c), l, ml), r, mr) == Past(c, Join(l, r), ml + mr)
    ensures r == Encoding([], []) && mr == [] ==> Past(Descended(c), l, ml) == Past(c, Join(l, r), ml + mr)
  {
    HoldsParts(e.bits, c.bitsUsed, [true] + l.bits, r.bits);
    HoldsParts(e.bits, c.bitsUsed, [true], l.bits);
    assert e.bits[c.bitsUsed + 0] == [true][0];
    HoldsParts(e.hashes, c.hashUsed, l.hashes, r.hashes);
  }

  lemma HoldsParts<T>(s: seq<T>, i: nat, a: seq<T>, b: seq<T>)
    requires HoldsAt(s, i, a + b)
    ensures HoldsAt(s, i, a) && HoldsAt(s, i + |a|, b)
  {
    forall k | 0 <= k < |a| ensures s[i + k] == a[k] { assert a[k] == (a + b)[k]; }
    forall k | 0 <= k < |b| ensures s[i + |a| + k] == b[k] { assert b[k] == (a + b)[|a| + k]; }
  }

  // ---------------------------------------------------------------------------------------------
  // Whole trees
  // ---------------------------------------------------------------------------------------------

  function Encode(H: NodeHash, txids: seq<Hash>, match_: seq<bool>): Encoding
    requires |txids| == |match_| > 0
  {
    WidthBase(|txids|);
    RootExists(|txids|, 0);
    Build(H, txids, match_, HeightFrom(|txids|, 0), 0)
  }

  const MAX_TRANSACTIONS := MAX_BLOCK_WEIGHT / MIN_TRANSACTION_WEIGHT

  predicate Plausible(n: nat, e: Encoding) {
    0 < n <= MAX_TRANSACTIONS && |e.hashes| <= n && |e.hashes| <= |e.bits|
  }

  /** ExtractMatches: the root or the null hash, the matches found, and whether data was bad. */
  function ExtractAll(H: NodeHash, n: nat, e: Encoding, bad: bool): (Hash, seq<(Hash, nat)>, bool) {
    if !Plausible(n, e) then (NullHash, [], bad)
    else
      WidthBase(n);
      RootExists(n, 0);
      var (root, c) := Extract(H, n, e, HeightFrom(n, 0), 0, Cursor(0, 0, bad, []));
      var ok := !c.bad && (c.bitsUsed + 7) / 8 == (|e.bits| + 7) / 8 && c.hashUsed == |e.hashes|;
      (if ok then root else NullHash, c.matches, c.bad)
  }

  /** The root covers every leaf. */
  lemma RootLeaves(n: nat)
    requires n > 0
    ensures Width(n, HeightFrom(n, 0)) == 1 && End(n, HeightFrom(n, 0), 0) == n
  {
    WidthBase(n);
    RootExists(n, 0);
    FirstLeaf(n, HeightFrom(n, 0), 1);
  }

  /** The bits come back from a byte stream with up to seven padding bits after them. */
  ghost predicate Padded(bits: seq<bool>, padded: seq<bool>) {
    bits <= padded && |padded| == (|bits| + 7) / 8 * 8
  }

  /** Round trip: from a tree built for a block, and possibly sent as bytes, ExtractMatches gives the
      block's Merkle root and exactly the matched transactions in block order. A block over the size
      bound is refused. */
  lemma RoundTrip(H: NodeHash, txids: seq<Hash>, match_: seq<bool>, bits: seq<bool>)
    requires Injective(H) && Distinct(txids) && |txids| == |match_| > 0
    requires var b := Encode(H, txids, match_).bits; bits == b || Padded(b, bits)
    ensures ExtractAll(H, |txids|, Encoding(bits, Encode(H, txids, match_).hashes), false)
         == if |txids| <= MAX_TRANSACTIONS
            then (MerkleRoot(H, txids), Selected(txids, match_, 0, |txids|), false)
            else (NullHash, [], false)
  {
    hide Width, Injective, Distinct, Build, Extract, NodeAt, Matches, Selected, HeightFrom, End, Pow2;
    var n, b := |txids|, Encode(H, txids, match_);
    var e, c, h := Encoding(bits, b.hashes), Cursor(0, 0, false, []), HeightFrom(n, 0);
    RootLeaves(n);
    BuildSize(H, txids, match_, h, 0);
    assert Continues(e, c, b);
    ExtractBuilt(H, txids, match_, e, h, 0, c);
    MatchesAreSelected(txids, match_, h, 0);
    assert 0 * Pow2(h) == 0;
    assert Plausible(n, e) <==> n <= MAX_TRANSACTIONS;
    assert [] + Matches(txids, match_, h, 0) == Selected(txids, match_, 0, n);
    assert (|bits| + 7) / 8 == (|b.bits| + 7) / 8;
  }

  /** Soundness: an encoding for the block's number of transactions that yields the block's Merkle
      root reports true transactions only. */
  lemma Sound(H: NodeHash, txids: seq<Hash>, e: Encoding, bad: bool)
    requires Injective(H) && |txids| > 0 && MerkleRoot(H, txids) != NullHash
    requires ExtractAll(H, |txids|, e, bad).0 == MerkleRoot(H, txids)
    ensures var matches := ExtractAll(H, |txids|, e, bad).1;
      TrueMatches(txids, matches, 0) && Ascending(matches)
  {
    hide Width, Injective, Extract, NodeAt, HeightFrom, TrueMatches, Ascending;
    RootLeaves(|txids|);
    ExtractSound(H, txids, e, HeightFrom(|txids|, 0), 0, Cursor(0, 0, bad, []));
    NoneAscending();
    ExtractOrdered(H, |txids|, e, HeightFrom(|txids|, 0), 0, Cursor(0, 0, bad, []));
  }

  /** Matches are reported in block order, none twice. */
  ghost predicate Ascending(matches: seq<(Hash, nat)>) {
    forall i, j | 0 <= i < j < |matches| :: matches[i].1 < matches[j].1
  }

  lemma NoneAscending()
    ensures Ascending([])
  {
  }

  ghost predicate Below(matches: seq<(Hash, nat)>, bound: nat) {
    forall i | 0 <= i < |matches| :: matches[i].1 < bound
  }

  lemma AscendingAppend(matches: seq<(Hash, nat)>, hash: Hash, pos: nat)
    requires Ascending(matches) && Below(matches, pos)
    ensures Ascending(matches + [(hash, pos)]) && Below(matches + [(hash, pos)], pos + 1)
  {
  }

  lemma BelowWeaken(matches: seq<(Hash, nat)>, bound: nat, bound': nat)
    requires Below(matches, bound) && bound <= bound'
    ensures Below(matches, bound')
  {
  }

  lemma {:induction false} ExtractOrdered(H: NodeHash, n: nat, e: Encoding, h: nat, pos: nat, c: Cursor)
    requires pos < Width(n, h) && Ascending(c.matches) && Below(c.matches, pos * Pow2(h))
    ensures var c' := Extract(H, n, e, h, pos, c).1; Ascending(c'.matches) && Below(c'.matches, (pos + 1) * Pow2(h))
    decreases h
  {
    hide Width, Extract, Ascending, Below, Pow2;
    BelowWeaken(c.matches, pos * Pow2(h), (pos + 1) * Pow2(h));
    if h == 0 {
      ExtractLeafOrdered(H, n, e, pos, c);
    } else if c.bitsUsed >= |e.bits| || !e.bits[c.bitsUsed] {
      ExtractHash(H, n, e, h, pos, c);
    } else {
      ExtractInner(H, n, e, h, pos, c);
      LeavesDouble(h, pos);
      ExtractOrdered(H, n, e, h - 1, 2 * pos, Descended(c));
      var c2 := Extract(H, n, e, h - 1, 2 * pos, Descended(c)).1;
      BelowWeaken(c2.matches, (2 * pos + 1) * Pow2(h - 1), (pos + 1) * Pow2(h));
      if 2 * pos + 1 < Width(n, h - 1) { ExtractOrdered(H, n, e, h - 1, 2 * pos + 1, c2); }
    }
  }

  lemma LeavesDouble(h: nat, pos: nat)
    requires h > 0
    ensures pos * Pow2(h) == 2 * pos * Pow2(h - 1)
    ensures (2 * pos + 1) * Pow2(h - 1) <= (pos + 1) * Pow2(h) == (2 * pos + 2) * Pow2(h - 1)
  {
    var k := Pow2(h - 1);
    assert pos * (2 * k) == 2 * pos * k && (pos + 1) * (2 * k) == (2 * pos + 2) * k == (2 * pos + 1) * k + k;
  }

  lemma ExtractLeafOrdered(H: NodeHash, n: nat, e: Encoding, pos: nat, c: Cursor)
    requires pos < Width(n, 0) && Ascending(c.matches) && Below(c.matches, pos * Pow2(0))
    ensures var c' := Extract(H, n, e, 0, pos, c).1; Ascending(c'.matches) && Below(c'.matches, (pos + 1) * Pow2(0))
  {
    hide Ascending, Below;
    assert Pow2(0) == 1;
    BelowWeaken(c.matches, pos, pos + 1);
    if c.bitsUsed < |e.bits| && c.hashUsed < |e.hashes| {
      AscendingAppend(c.matches, e.hashes[c.hashUsed], pos);
    }
  }

  // ---------------------------------------------------------------------------------------------
  // Bits in bytes, the first bit least significant
  // ---------------------------------------------------------------------------------------------

  function Bit(b: bv8, i: nat): bool
    requires i < 8
  {
    (b & (1 << i)) != 0
  }

  function BitAt(bytes: seq<bv8>, p: nat): bool
    requires p < 8 * |bytes|
  {
    Bit(bytes[p / 8], p % 8)
  }

  lemma OrBit(b: bv8, v: bool, i: nat, j: nat)
    requires i < 8 && j < 8
    ensures Bit(b | ((if v then 1 else 0) << i), j) == (Bit(b, j) || (i == j && v))
  {
    if i == 0 {} else if i == 1 {} else if i == 2 {} else if i == 3 {} else if i == 4 {} else if i == 5 {}
    else if i == 6 {} else { assert i == 7; }
    if j == 0 {} else if j == 1 {} else if j == 2 {} else if j == 3 {} else if j == 4 {} else if j == 5 {}
    else if j == 6 {} else { assert j == 7; }
  }

  lemma ZeroBits(i: nat)
    requires i < 8
    ensures !Bit(0, i)
  {
  }

  method PackBits(bits: seq<bool>) returns (bytes: seq<bv8>)
    ensures |bytes| == (|bits| + 7) / 8
    ensures forall p | 0 <= p < 8 * |bytes| :: BitAt(bytes, p) == (p < |bits| && bits[p])
  {
    hide Bit;
    bytes := seq((|bits| + 7) / 8, _ => 0);
    forall p | 0 <= p < 8 * |bytes| ensures !BitAt(bytes, p) { ZeroBits(p % 8); }
    for p := 0 to |bits|
      invariant |bytes| == (|bits| + 7) / 8
      invariant forall q | 0 <= q < 8 * |bytes| :: BitAt(bytes, q) == (q < p && bits[q])
    {
      ghost var before := bytes;
      bytes := bytes[p / 8 := bytes[p / 8] | ((if bits[p] then 1 else 0) << (p % 8))];
      forall q | 0 <= q < 8 * |bytes| ensures BitAt(bytes, q) == (q < p + 1 && bits[q]) {
        OrBit(before[p / 8], bits[p], p % 8, q % 8);
        assert BitAt(before, q) == (q < p && bits[q]);
        assert q / 8 == p / 8 && q % 8 == p % 8 ==> q == p;
      }
    }
  }

  method UnpackBits(bytes: seq<bv8>) returns (bits: seq<bool>)
    ensures |bits| == 8 * |bytes| && forall p | 0 <= p < |bits| :: bits[p] == BitAt(bytes, p)
  {
    bits := [];
    while |bits| < 8 * |bytes|
      invariant |bits| <= 8 * |bytes|
      invariant forall p | 0 <= p < |bits| :: bits[p] == BitAt(bytes, p)
    {
      bits := bits + [BitAt(bytes, |bits|)];
    }
  }

  // ---------------------------------------------------------------------------------------------
  // The class
  // ---------------------------------------------------------------------------------------------

  function Txids(matches: seq<(Hash, nat)>): seq<Hash> { seq(|matches|, i requires 0 <= i < |matches| => matches[i].0) }
  function Positions(matches: seq<(Hash, nat)>): seq<nat> { seq(|matches|, i requires 0 <= i < |matches| => matches[i].1) }

  lemma OneMore(matches: seq<(Hash, nat)>, hash: Hash, pos: nat)
    ensures Txids(matches + [(hash, pos)]) == Txids(matches) + [hash]
    ensures Positions(matches + [(hash, pos)]) == Positions(matches) + [pos]
  {
  }

  class PartialMerkleTree {
    const H: NodeHash
    var nTransactions: nat
    var vBits: seq<bool>
    var vHash: seq<Hash>
    var fBad: bool

    /** Builds the encoding of a block's txids and the mask that selects some of them. */
    constructor (H: NodeHash, vTxid: seq<Hash>, vMatch: seq<bool>)
      requires |vTxid| == |vMatch| > 0
      ensures this.H == H && nTransactions == |vTxid| && !fBad
      ensures Encoding(vBits, vHash) == Encode(H, vTxid, vMatch)
    {
      this.H := H;
      nTransactions, vBits, vHash, fBad := |vTxid|, [], [], false;
      new;
      var nHeight := Height();
      RootLeaves(nTransactions);
      TraverseAndBuild(nHeight, 0, vTxid, vMatch);
    }

    method Height() returns (nHeight: nat)
      ensures nHeight == HeightFrom(nTransactions, 0)
    {
      nHeight := 0;
      while Width(nTransactions, nHeight) > 1
        invariant HeightFrom(nTransactions, nHeight) == HeightFrom(nTransactions, 0)
        decreases Width(nTransactions, nHeight)
      {
        WidthHalves(nTransactions, nHeight);
        nHeight := nHeight + 1;
      }
    }

    method TraverseAndBuild(height: nat, pos: nat, vTxid: seq<Hash>, vMatch: seq<bool>)
      requires |vTxid| == |vMatch| == nTransactions && pos < Width(nTransactions, height)
      modifies this`vBits, this`vHash
      ensures vBits == old(vBits) + Build(H, vTxid, vMatch, height, pos).bits
      ensures vHash == old(vHash) + Build(H, vTxid, vMatch, height, pos).hashes
      decreases height
    {
      hide Width, NodeAt, Matched, Matches, Build;
      var fParentOfMatch := ParentOfMatch(height, pos, vTxid, vMatch);
      vBits := vBits + [fParentOfMatch];
      if height == 0 || !fParentOfMatch {
        vHash := vHash + [NodeAt(H, vTxid, height, pos)];
        BuildHash(H, vTxid, vMatch, height, pos);
      } else {
        BuildInner(H, vTxid, vMatch, height, pos);
        TraverseAndBuild(height - 1, pos * 2, vTxid, vMatch);
        if pos * 2 + 1 < Width(nTransactions, height - 1) {
          TraverseAndBuild(height - 1, pos * 2 + 1, vTxid, vMatch);
        }
      }
    }

    method ParentOfMatch(height: nat, pos: nat, vTxid: seq<Hash>, vMatch: seq<bool>) returns (fParentOfMatch: bool)
      requires |vTxid| == |vMatch| == nTransactions && pos < Width(nTransactions, height)
      ensures fParentOfMatch == Matched(vMatch, height, pos)
    {
      hide Width, Matched, Matches, Pow2;
      HasLeaves(nTransactions, height, pos);
      MatchesAreSelected(vTxid, vMatch, height, pos);
      MatchedHasMatches(vTxid, vMatch, height, pos);
      fParentOfMatch := false;
      var p := pos * Pow2(height);
      while p < (pos + 1) * Pow2(height) && p < nTransactions
        invariant pos * Pow2(height) <= p <= End(nTransactions, height, pos)
        invariant fParentOfMatch == (Selected(vTxid, vMatch, pos * Pow2(height), p) != [])
      {
        fParentOfMatch := fParentOfMatch || vMatch[p];
        p := p + 1;
      }
    }

    /** The ghost cursor c collects the matches found so far; the caller's vnIndex had pre before them. */
    method TraverseAndExtract(height: nat, pos: nat, nBitsUsed: nat, nHashUsed: nat, vMatch: seq<Hash>, vnIndex: seq<nat>,
                              ghost c: Cursor, ghost pre: seq<nat>)
      returns (hash: Hash, nBitsUsed': nat, nHashUsed': nat, vMatch': seq<Hash>, vnIndex': seq<nat>)
      requires pos < Width(nTransactions, height)
      requires c == Cursor(nBitsUsed, nHashUsed, fBad, c.matches)
      requires vMatch == Txids(c.matches) && vnIndex == pre + Positions(c.matches)
      modifies this`fBad
      ensures var (h, c') := Extract(H, nTransactions, Encoding(vBits, vHash), height, pos, c);
        && hash == h && c' == Cursor(nBitsUsed', nHashUsed', fBad, c'.matches)
        && vMatch' == Txids(c'.matches) && vnIndex' == pre + Positions(c'.matches)
      decreases height
    {
      hide Width, Txids, Positions, Extract;
      nBitsUsed', nHashUsed', vMatch', vnIndex' := nBitsUsed, nHashUsed, vMatch, vnIndex;
      ghost var e := Encoding(vBits, vHash);
      if nBitsUsed >= |vBits| || height == 0 || !vBits[nBitsUsed] {
        ExtractHash(H, nTransactions, e, height, pos, c);
      } else {
        ExtractInner(H, nTransactions, e, height, pos, c);
      }
      if nBitsUsed' >= |vBits| {
        fBad := true;
        return NullHash, nBitsUsed', nHashUsed', vMatch', vnIndex';
      }
      var fParentOfMatch := vBits[nBitsUsed'];
      nBitsUsed' := nBitsUsed' + 1;
      if height == 0 || !fParentOfMatch {
        if nHashUsed' >= |vHash| {
          fBad := true;
          return NullHash, nBitsUsed', nHashUsed', vMatch', vnIndex';
        }
        hash := vHash[nHashUsed'];
        nHashUsed' := nHashUsed' + 1;
        if height == 0 && fParentOfMatch {
          OneMore(c.matches, hash, pos);
          vMatch' := vMatch' + [hash];
          vnIndex' := vnIndex' + [pos];
        }
      } else {
        var left;
        left, nBitsUsed', nHashUsed', vMatch', vnIndex' :=
          TraverseAndExtract(height - 1, pos * 2, nBitsUsed', nHashUsed', vMatch', vnIndex', Descended(c), pre);
        var right := left;
        if pos * 2 + 1 < Width(nTransactions, height - 1) {
          ghost var c2 := Extract(H, nTransactions, e, height - 1, 2 * pos, Descended(c)).1;
          right, nBitsUsed', nHashUsed', vMatch', vnIndex' :=
            TraverseAndExtract(height - 1, pos * 2 + 1, nBitsUsed', nHashUsed', vMatch', vnIndex', c2, pre);
          if right == left {
            fBad := true;
          }
        }
        hash := H(left, right);
      }
    }

    /** The matches are appended to the caller's vnIndex, which is not cleared. */
    method ExtractMatches(vnIndex: seq<nat>) returns (root: Hash, vMatch: seq<Hash>, vnIndex': seq<nat>)
      modifies this`fBad
      ensures var (r, matches, bad) := ExtractAll(H, nTransactions, Encoding(vBits, vHash), old(fBad));
        root == r && vMatch == Txids(matches) && vnIndex' == vnIndex + Positions(matches) && fBad == bad
    {
      hide Width, Extract;
      vMatch, vnIndex' := [], vnIndex;
      if nTransactions == 0 { return NullHash, vMatch, vnIndex'; }
      if nTransactions > MAX_BLOCK_WEIGHT / MIN_TRANSACTION_WEIGHT { return NullHash, vMatch, vnIndex'; }
      if |vHash| > nTransactions { return NullHash, vMatch, vnIndex'; }
      if |vBits| < |vHash| { return NullHash, vMatch, vnIndex'; }
      var nHeight := Height();
      RootLeaves(nTransactions);
      ghost var c := Cursor(0, 0, fBad, []);
      var nBitsUsed, nHashUsed;
      root, nBitsUsed, nHashUsed, vMatch, vnIndex' := TraverseAndExtract(nHeight, 0, 0, 0, vMatch, vnIndex', c, vnIndex);
      if fBad { return NullHash, vMatch, vnIndex'; }
      if (nBitsUsed + 7) / 8 != (|vBits| + 7) / 8 { return NullHash, vMatch, vnIndex'; }
      if nHashUsed != |vHash| { return NullHash, vMatch, vnIndex'; }
    }

    method Serialize() returns (n: nat, hashes: seq<Hash>, bytes: seq<bv8>)
      ensures n == nTransactions && hashes == vHash && |bytes| == (|vBits| + 7) / 8
      ensures forall p | 0 <= p < 8 * |bytes| :: BitAt(bytes, p) == (p < |vBits| && vBits[p])
    {
      n, hashes := nTransactions, vHash;
      bytes := PackBits(vBits);
    }

    /** Reading a tree makes its data good again. */
    method Unserialize(n: nat, hashes: seq<Hash>, bytes: seq<bv8>)
      modifies this
      ensures nTransactions == n && vHash == hashes && !fBad && |vBits| == 8 * |bytes|
      ensures forall p | 0 <= p < |vBits| :: vBits[p] == BitAt(bytes, p)
    {
      nTransactions, vHash := n, hashes;
      vBits := UnpackBits(bytes);
      fBad := false;
    }
  }

  /** The whole journey: build, serialize, read into another tree, extract. */
  method SendAndExtract(H: NodeHash, vTxid: seq<Hash>, vMatch: seq<bool>, receiver: PartialMerkleTree)
    returns (root: Hash, found: seq<Hash>, places: seq<nat>)
    requires Injective(H) && Distinct(vTxid) && 0 < |vTxid| == |vMatch| <= MAX_TRANSACTIONS && receiver.H == H
    modifies receiver
    ensures root == MerkleRoot(H, vTxid)
    ensures found == Txids(Selected(vTxid, vMatch, 0, |vTxid|))
    ensures places == Positions(Selected(vTxid, vMatch, 0, |vTxid|))
  {
    hide Injective, Distinct, Txids, Positions, Selected, MerkleRoot, Encode, ExtractAll, BitAt;
    var sender := new PartialMerkleTree(H, vTxid, vMatch);
    var n, hashes, bytes := sender.Serialize();
    receiver.Unserialize(n, hashes, bytes);
    assert Padded(sender.vBits, receiver.vBits);
    RoundTrip(H, vTxid, vMatch, receiver.vBits);
    root, found, places := receiver.ExtractMatches([]);
    assert [] + places == places;
  }
}
