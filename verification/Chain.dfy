/** A tree of blocks, linked to their predecessors, and the chain leading to one of them as a vector. */
module Chain {
  import opened Bits

  class BlockIndex {
    const pprev: BlockIndex?
    const nHeight: nat
    const hash: nat

    constructor (pprev: BlockIndex?, hash: nat)
      requires pprev != null ==> pprev.Linked()
      ensures Linked() && this.pprev == pprev && this.hash == hash
    {
      this.pprev, this.hash := pprev, hash;
      nHeight := if pprev == null then 0 else pprev.nHeight + 1;
    }

    /** Heights count the steps from a genesis block. */
    ghost predicate Linked()
      decreases nHeight
    {
      if pprev == null then nHeight == 0 else nHeight == pprev.nHeight + 1 && pprev.Linked()
    }

    /** The block at height h on the way from the genesis block. */
    function Ancestor(h: nat): (b: BlockIndex)
      requires Linked() && h <= nHeight
      ensures b.Linked() && b.nHeight == h
      decreases nHeight
    {
      if h == nHeight then this else pprev.Ancestor(h)
    }
  }

  lemma {:induction false} AncestorOfAncestor(b: BlockIndex, h: nat, k: nat)
    requires b.Linked() && k <= h <= b.nHeight
    ensures b.Ancestor(h).Ancestor(k) == b.Ancestor(k)
    decreases b.nHeight
  {
    if h < b.nHeight { AncestorOfAncestor(b.pprev, h, k); }
  }

  class Chain {
    var vChain: seq<BlockIndex?>

    constructor ()
      ensures Valid() && vChain == []
    {
      vChain := [];
    }

    /** Every entry is the ancestor of the last one at its height. */
    ghost predicate Valid()
      reads this
    {
      && (forall b <- vChain :: b != null && b.Linked())
      && (forall h | 0 <= h < |vChain| :: IsAt(vChain[h], vChain[|vChain| - 1], |vChain| - 1, h))
    }

    static ghost predicate IsAt(b: BlockIndex?, tip: BlockIndex?, height: nat, h: nat) {
      tip != null && tip.Linked() && tip.nHeight == height && h <= height && b == tip.Ancestor(h)
    }

    function At(h: int): BlockIndex?
      reads this
    {
      if 0 <= h < |vChain| then vChain[h] else null
    }

    predicate Contains(b: BlockIndex)
      reads this
    {
      At(b.nHeight) == b
    }

    /** The ancestors of a contained block are contained. */
    lemma ContainsAncestors(b: BlockIndex, h: nat)
      requires Valid() && b.Linked() && Contains(b) && h <= b.nHeight
      ensures At(h) == b.Ancestor(h)
    {
      var tip := vChain[|vChain| - 1];
      assert IsAt(vChain[b.nHeight], tip, |vChain| - 1, b.nHeight);
      assert IsAt(vChain[h], tip, |vChain| - 1, h);
      AncestorOfAncestor(tip, b.nHeight, h);
    }

    /** A vector resized, with null in what is new. */
    static function Resized(s: seq<BlockIndex?>, n: nat): (r: seq<BlockIndex?>)
      ensures |r| == n && forall k | 0 <= k < n :: r[k] == if k < |s| then s[k] else null
    {
      if n <= |s| then s[..n] else s + seq(n - |s|, _ => null)
    }

    /** Makes pindex the tip. Walking back stops at the first block that is in place already; the rest of
        the vector is right as it stands. */
    method SetTip(pindex: BlockIndex?)
      requires Valid() && (pindex != null ==> pindex.Linked())
      modifies this
      ensures Valid()
      ensures pindex == null ==> vChain == []
      ensures pindex != null ==> |vChain| == pindex.nHeight + 1
      ensures pindex != null ==> forall h | 0 <= h <= pindex.nHeight :: vChain[h] == pindex.Ancestor(h)
    {
      hide Resized;
      if pindex == null {
        vChain := [];
        return;
      }
      ghost var was := vChain;
      var size := pindex.nHeight + 1;
      vChain := Resized(vChain, size);
      ghost var resized := vChain;
      var p: BlockIndex? := pindex;
      while p != null && vChain[p.nHeight] != p
        invariant |vChain| == size && (p != null ==> p.Linked() && p.nHeight < size && p == pindex.Ancestor(p.nHeight))
        invariant forall h | 0 <= h < size && (p == null || h > p.nHeight) :: vChain[h] == pindex.Ancestor(h)
        invariant p != null ==> forall h | 0 <= h <= p.nHeight :: vChain[h] == resized[h]
        decreases if p == null then 0 else p.nHeight + 1
      {
        vChain := vChain[p.nHeight := p];
        StepBack(pindex, p);
        p := p.pprev;
      }
      if p != null {
        assert was[p.nHeight] == p;
        assert forall k | 0 <= k < |was| :: IsAt(was[k], was[|was| - 1], |was| - 1, k);
        forall h | 0 <= h <= p.nHeight ensures vChain[h] == pindex.Ancestor(h) {
          ContainsAncestorsOf(was, p, h);
          AncestorOfAncestor(pindex, p.nHeight, h);
        }
      }
    }

    /** The highest block that pindex and this chain have in common, if there is one. */
    method FindFork(pindex: BlockIndex) returns (fork: BlockIndex?)
      requires Valid() && pindex.Linked()
      ensures fork != null ==> fork.Linked() && Contains(fork) && fork.nHeight <= pindex.nHeight && fork == pindex.Ancestor(fork.nHeight)
      ensures forall h: nat | h <= pindex.nHeight && (fork == null || h > fork.nHeight) :: At(h) != pindex.Ancestor(h)
    {
      fork := pindex;
      if pindex.nHeight > |vChain| - 1 {
        fork := if vChain == [] then null else pindex.Ancestor(|vChain| - 1);
      }
      while fork != null && !Contains(fork)
        invariant fork != null ==> fork.Linked() && fork.nHeight <= pindex.nHeight && fork == pindex.Ancestor(fork.nHeight)
        invariant forall h: nat | h <= pindex.nHeight && (fork == null || h > fork.nHeight) :: At(h) != pindex.Ancestor(h)
        decreases if fork == null then 0 else fork.nHeight + 1
      {
        StepBack(pindex, fork);
        fork := fork.pprev;
      }
    }

    /** Hashes of ancestors of a block, by default the tip: the first twelve one by one, then in steps
        that double, and the genesis block at the end. */
    method GetLocator(start: BlockIndex?) returns (vHave: seq<nat>)
      requires Valid() && (start != null ==> start.Linked())
      ensures start == null && vChain == [] ==> vHave == []
      ensures start != null ==> IsLocator(vHave, start)
      ensures start == null && vChain != [] ==> vChain[|vChain| - 1] != null && IsLocator(vHave, vChain[|vChain| - 1])
    {
      hide Back, HeightAt, Locates, Descends;
      var nStep := 1;
      vHave := [];
      var pindex := start;
      if pindex == null { pindex := At(|vChain| - 1); }
      if pindex == null { return; }
      ghost var b: BlockIndex := pindex;
      BackSteps(0);
      FirstHeight(b);
      while true
        invariant pindex != null && nStep == Back(|vHave| + 1) - Back(|vHave|)
        invariant pindex == b.Ancestor(HeightAt(b.nHeight, |vHave|))
        invariant Locates(vHave, b) && Descends(b.nHeight, |vHave|)
        decreases pindex.nHeight
      {
        HeightSteps(b.nHeight, |vHave|);
        LocatesMore(vHave, b);
        vHave := vHave + [pindex.hash];
        // Stop when the genesis block is in.
        if pindex.nHeight == 0 { break; }
        var nHeight := if pindex.nHeight - nStep > 0 then pindex.nHeight - nStep else 0;
        AncestorOfAncestor(b, pindex.nHeight, nHeight);
        if Contains(pindex) {
          ContainsAncestors(pindex, nHeight);
          pindex := At(nHeight);
        } else {
          pindex := pindex.Ancestor(nHeight);
        }
        BackSteps(|vHave| - 1);
        if |vHave| > 10 {
          nStep := nStep * 2;
        }
      }
    }
  }

  /** The entries are hashes of ancestors of b at the heights of a locator. */
  ghost predicate Locates(vHave: seq<nat>, b: BlockIndex) {
    b.Linked() && forall i | 0 <= i < |vHave| :: vHave[i] == b.Ancestor(HeightAt(b.nHeight, i)).hash
  }

  /** They go down to the genesis block and end there. */
  ghost predicate IsLocator(vHave: seq<nat>, b: BlockIndex) {
    Locates(vHave, b) && |vHave| > 0 && HeightAt(b.nHeight, |vHave| - 1) == 0 && Descends(b.nHeight, |vHave| - 1)
  }

  ghost predicate Descends(height: nat, n: nat) {
    forall i | 0 <= i < n :: HeightAt(height, i) > HeightAt(height, i + 1)
  }

  lemma LocatesMore(vHave: seq<nat>, b: BlockIndex)
    requires Locates(vHave, b)
    ensures Locates(vHave + [b.Ancestor(HeightAt(b.nHeight, |vHave|)).hash], b)
  {
  }

  lemma ContainsAncestorsOf(was: seq<BlockIndex?>, p: BlockIndex, h: nat)
    requires p.Linked() && h <= p.nHeight < |was|
    requires forall k | 0 <= k < |was| :: Chain.IsAt(was[k], was[|was| - 1], |was| - 1, k)
    requires was[p.nHeight] == p
    ensures was[h] == p.Ancestor(h)
  {
    var tip := was[|was| - 1];
    assert Chain.IsAt(was[p.nHeight], tip, |was| - 1, p.nHeight);
    assert Chain.IsAt(was[h], tip, |was| - 1, h);
    AncestorOfAncestor(tip, p.nHeight, h);
  }

  lemma StepBack(b: BlockIndex, p: BlockIndex)
    requires b.Linked() && p.Linked() && p.nHeight <= b.nHeight && p == b.Ancestor(p.nHeight)
    ensures p.pprev != null ==> p.pprev == b.Ancestor(p.nHeight - 1)
    ensures p.pprev == null ==> p.nHeight == 0
  {
    if p.pprev != null { AncestorOfAncestor(b, p.nHeight, p.nHeight - 1); }
  }

  /** How far entry i of a locator lies behind its first one. */
  function Back(i: nat): nat {
    if i <= 11 then i else 9 + Pow2(i - 10)
  }

  function HeightAt(height: nat, i: nat): (h: nat)
    ensures h <= height
  {
    if Back(i) <= height then height - Back(i) else 0
  }

  lemma BackSteps(i: nat)
    ensures Back(1) - Back(0) == 1
    ensures Back(i + 2) - Back(i + 1) == if i + 1 > 10 then 2 * (Back(i + 1) - Back(i)) else Back(i + 1) - Back(i)
    ensures Back(i) < Back(i + 1)
  {
  }

  lemma FirstHeight(b: BlockIndex)
    requires b.Linked()
    ensures HeightAt(b.nHeight, 0) == b.nHeight && b.Ancestor(b.nHeight) == b && Locates([], b) && Descends(b.nHeight, 0)
  {
  }

  lemma HeightSteps(height: nat, i: nat)
    ensures var h, d := HeightAt(height, i), Back(i + 1) - Back(i);
      d > 0 && HeightAt(height, i + 1) == if h - d > 0 then h - d else 0
    ensures Descends(height, i) && HeightAt(height, i) > 0 ==> Descends(height, i + 1)
  {
    BackSteps(i);
  }

  /** A locator has at most twelve entries more than the height has binary digits. */
  lemma LocatorShort(vHave: seq<nat>, b: BlockIndex)
    requires b.Linked() && IsLocator(vHave, b) && |vHave| > 12
    ensures Pow2(|vHave| - 12) < b.nHeight
  {
    assert HeightAt(b.nHeight, |vHave| - 2) > HeightAt(b.nHeight, |vHave| - 1);
    assert Back(|vHave| - 2) < b.nHeight;
  }
}
