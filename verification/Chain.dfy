/** The block tree with its skip pointers, and the active chain as an index into it. */
module Chain {
  import opened Bits
  import opened Skips

  class BlockIndex {
    const pprev: BlockIndex?
    const nHeight: nat
    var pskip: BlockIndex?

    /** A new block on top of a known one, or a root. */
    constructor (prev: BlockIndex?, ghost all: set<BlockIndex>)
      requires Tree(all) && (prev != null ==> prev in all)
      ensures pprev == prev && pskip == null && nHeight == (if prev == null then 0 else prev.nHeight + 1)
      ensures Tree(all + {this})
    {
      pprev, pskip := prev, null;
      nHeight := if prev == null then 0 else prev.nHeight + 1;
    }

    /** Points at the ancestor at the skip height. */
    method BuildSkip(ghost all: set<BlockIndex>)
      requires Tree(all) && this in all
      modifies this`pskip
      ensures Tree(all)
      ensures pprev != null ==> GetSkipHeight(nHeight) < nHeight && pskip == Anc(this, GetSkipHeight(nHeight))
      ensures old(Built(all - {this})) ==> Built(all)
    {
      hide GetSkipHeight, Anc, Linked;
      LinkedPrev(this);
      if pprev != null {
        SkipLower(nHeight);
        var skip, _ := pprev.GetAncestor(GetSkipHeight(nHeight), all);
        pskip := skip;
        AncAnc(this, nHeight - 1, GetSkipHeight(nHeight));
      }
    }

    /** The block of this one's branch at a height, or null outside the branch. When the skip
        pointers are in place, the number of blocks walked over is at most quadratic in the number of
        bits of the height. */
    method GetAncestor(height: int, ghost all: set<BlockIndex>) returns (r: BlockIndex?, ghost steps: nat)
      requires Tree(all) && this in all
      ensures r == if 0 <= height <= nHeight then Anc(this, height) else null
      ensures Built(all) ==> steps == if 0 <= height <= nHeight then Steps(nHeight, height) else 0
      ensures Built(all) ==> forall n: nat | nHeight < Pow2(n) :: steps <= StepLimit(n)
    {
      hide GetSkipHeight, Anc, Linked, Steps, Pow2, StepLimit;
      steps := 0;
      if height > nHeight || height < 0 {
        return null, 0;
      }
      forall n: nat | nHeight < Pow2(n) ensures Steps(nHeight, height) <= StepLimit(n) {
        AtMost(nHeight, height, n);
      }
      var walk: BlockIndex, heightWalk: nat := this, nHeight;
      AncSelf(this);
      while heightWalk > height
        invariant Tree(all) && walk in all && walk.nHeight == heightWalk
        invariant height <= heightWalk <= nHeight && walk == Anc(this, heightWalk)
        invariant Built(all) ==> steps + Steps(heightWalk, height) == Steps(nHeight, height)
      {
        StepsNext(heightWalk, height);
        steps := steps + 1;
        var heightSkip := GetSkipHeight(heightWalk);
        var heightSkipPrev := GetSkipHeight(heightWalk - 1);
        LinkedPrev(walk);
        if walk.pskip != null &&
           (heightSkip == height ||
            (heightSkip > height && !(heightSkipPrev < heightSkip - 2 && heightSkipPrev >= height))) {
          AncAnc(this, heightWalk, heightSkip);
          AncIn(walk, heightSkip, all);
          walk := walk.pskip;
          heightWalk := heightSkip;
        } else {
          AncAnc(this, heightWalk, heightWalk - 1);
          walk := walk.pprev;
          heightWalk := heightWalk - 1;
        }
      }
      StepsNone(height);
      return walk, steps;
    }
  }

  // ---- Branches -----------------------------------------------------------

  /** Heights go down by one along the previous-block pointers, to zero at a root. */
  ghost predicate Linked(b: BlockIndex)
    decreases b.nHeight
  {
    if b.pprev == null then b.nHeight == 0
    else b.nHeight == b.pprev.nHeight + 1 && Linked(b.pprev)
  }

  /** The ancestor found by walking previous-block pointers. */
  ghost function Anc(b: BlockIndex, h: nat): BlockIndex
    requires Linked(b) && h <= b.nHeight
    decreases b.nHeight
  {
    if h == b.nHeight then b else Anc(b.pprev, h)
  }

  ghost predicate SkipOk(b: BlockIndex)
    requires Linked(b)
    reads b
  {
    b.pskip != null ==>
      b.pprev != null && GetSkipHeight(b.nHeight) < b.nHeight && b.pskip == Anc(b, GetSkipHeight(b.nHeight))
  }

  /** Known blocks: closed under the previous-block pointers, with skip pointers unset or in place. */
  ghost predicate Tree(all: set<BlockIndex>)
    reads all
  {
    forall b | b in all :: Linked(b) && (b.pprev != null ==> b.pprev in all) && SkipOk(b)
  }

  /** Every block that has a previous one has its skip pointer. */
  ghost predicate Built(all: set<BlockIndex>)
    reads all
  {
    forall b | b in all && b.pprev != null :: b.pskip != null
  }

  lemma LinkedPrev(b: BlockIndex)
    requires Linked(b)
    ensures b.pprev != null <==> b.nHeight > 0
    ensures b.pprev != null ==> Linked(b.pprev) && b.pprev.nHeight == b.nHeight - 1 && Anc(b, b.nHeight - 1) == b.pprev
  {
  }

  lemma AncSelf(b: BlockIndex)
    requires Linked(b)
    ensures Anc(b, b.nHeight) == b
  {
  }

  lemma {:induction false} AncAnc(b: BlockIndex, h: nat, k: nat)
    requires Linked(b) && k <= h <= b.nHeight
    ensures Linked(Anc(b, h)) && Anc(b, h).nHeight == h && Anc(Anc(b, h), k) == Anc(b, k)
    decreases b.nHeight
  {
    if h < b.nHeight { AncAnc(b.pprev, h, k); }
  }

  lemma {:induction false} AncIn(b: BlockIndex, h: nat, all: set<BlockIndex>)
    requires Tree(all) && b in all && h <= b.nHeight
    ensures Anc(b, h) in all && Anc(b, h).nHeight == h
    decreases b.nHeight
  {
    if h < b.nHeight { AncIn(b.pprev, h, all); }
  }

  // ---- Common ancestors ---------------------------------------------------

  /** Two branches have the same block at height h. */
  ghost predicate Share(a: BlockIndex, b: BlockIndex, h: nat)
    requires Linked(a) && Linked(b)
  {
    h <= a.nHeight && h <= b.nHeight && Anc(a, h) == Anc(b, h)
  }

  /** Branches that meet at a height are the same below it. */
  lemma ShareBelow(a: BlockIndex, b: BlockIndex, h: nat, k: nat)
    requires Linked(a) && Linked(b) && Share(a, b, h) && k <= h
    ensures Share(a, b, k)
  {
    AncAnc(a, h, k);
    AncAnc(b, h, k);
  }

  /** The highest block on both branches, or null if they have different roots. */
  ghost predicate IsLastCommon(a: BlockIndex, b: BlockIndex, r: BlockIndex?)
    requires Linked(a) && Linked(b)
  {
    if r == null then forall h: nat :: !Share(a, b, h)
    else Share(a, b, r.nHeight) && r == Anc(a, r.nHeight) && forall h: nat | h > r.nHeight :: !Share(a, b, h)
  }

  method LastCommonAncestor(pa: BlockIndex, pb: BlockIndex, ghost all: set<BlockIndex>) returns (r: BlockIndex?)
    requires Tree(all) && pa in all && pb in all
    ensures IsLastCommon(pa, pb, r)
  {
    hide GetSkipHeight, Anc, Linked, Share;
    var a: BlockIndex?, b: BlockIndex? := pa, pb;
    ghost var steps;
    ghost var k: nat := if pa.nHeight < pb.nHeight then pa.nHeight else pb.nHeight;
    AncIn(pa, k, all);
    AncIn(pb, k, all);
    AncSelf(pa);
    AncSelf(pb);
    if pa.nHeight > pb.nHeight {
      a, steps := pa.GetAncestor(pb.nHeight, all);
    } else if pb.nHeight > pa.nHeight {
      b, steps := pb.GetAncestor(pa.nHeight, all);
    }
    ShareTop(pa, pb, k);
    while a != b && a != null && b != null
      invariant Tree(all) && (a == null <==> b == null)
      invariant a != null && b != null ==> a in all && b in all && k <= pa.nHeight && k <= pb.nHeight
      invariant a != null && b != null ==> a == Anc(pa, k) && b == Anc(pb, k) && a.nHeight == k && b.nHeight == k
      invariant a != null && b != null ==> forall h: nat | h > k :: !Share(pa, pb, h)
      invariant a == null ==> forall h: nat :: !Share(pa, pb, h)
      decreases if a == null then 0 else a.nHeight + 1
    {
      LinkedPrev(a);
      LinkedPrev(b);
      NotShared(pa, pb, k);
      if a.pskip != null && b.pskip != null && a.pskip != b.pskip {
        ghost var s := GetSkipHeight(k);
        AncAnc(pa, k, s);
        AncAnc(pb, k, s);
        AncIn(a, s, all);
        AncIn(b, s, all);
        a, b := a.pskip, b.pskip;
        assert a.nHeight == b.nHeight;
        k := s;
        NotShared(pa, pb, k);
      } else {
        if k > 0 {
          AncAnc(pa, k, k - 1);
          AncAnc(pb, k, k - 1);
        }
        a, b := a.pprev, b.pprev;
        k := if k > 0 then k - 1 else 0;
      }
    }
    assert a == b;
    if a != null { SharedHere(pa, pb, k); }
    return a;
  }

  lemma ShareTop(a: BlockIndex, b: BlockIndex, k: nat)
    requires Linked(a) && Linked(b) && (k == a.nHeight || k == b.nHeight)
    ensures forall h: nat | h > k :: !Share(a, b, h)
  {
  }

  lemma NotShared(a: BlockIndex, b: BlockIndex, k: nat)
    requires Linked(a) && Linked(b) && k <= a.nHeight && k <= b.nHeight && Anc(a, k) != Anc(b, k)
    ensures forall h: nat | h >= k :: !Share(a, b, h)
  {
    forall h: nat | h >= k ensures !Share(a, b, h) {
      if Share(a, b, h) { ShareBelow(a, b, h, k); }
    }
  }

  lemma SharedHere(a: BlockIndex, b: BlockIndex, k: nat)
    requires Linked(a) && Linked(b) && k <= a.nHeight && k <= b.nHeight && Anc(a, k) == Anc(b, k)
    ensures Share(a, b, k)
  {
  }

  /** Whether one block is an ancestor of the other. */
  method AreOnTheSameFork(pa: BlockIndex, pb: BlockIndex, ghost all: set<BlockIndex>) returns (r: bool)
    requires Tree(all) && pa in all && pb in all
    ensures r <==> Share(pa, pb, pa.nHeight) || Share(pa, pb, pb.nHeight)
  {
    hide GetSkipHeight, Linked;
    var a: BlockIndex?, b: BlockIndex? := pa, pb;
    ghost var steps;
    if pa.nHeight > pb.nHeight {
      a, steps := pa.GetAncestor(pb.nHeight, all);
    } else if pb.nHeight > pa.nHeight {
      b, steps := pb.GetAncestor(pa.nHeight, all);
    }
    return a == b;
  }

  // ---- The active chain ---------------------------------------------------

  /** The branch from its root to b. */
  ghost function Line(b: BlockIndex): seq<BlockIndex?>
    requires Linked(b)
  {
    seq(b.nHeight + 1, i requires 0 <= i <= b.nHeight => Anc(b, i))
  }

  class ActiveChain {
    var vChain: seq<BlockIndex?>

    /** The chain is empty or the branch of its last block. */
    ghost predicate Valid(all: set<BlockIndex>)
      reads this
    {
      vChain != [] ==> var tip := vChain[|vChain| - 1]; tip != null && tip in all && Linked(tip) && vChain == Line(tip)
    }

    function At(h: int): BlockIndex?
      reads this
    {
      if h < 0 || h >= |vChain| then null else vChain[h]
    }

    predicate Contains(b: BlockIndex)
      reads this
    {
      At(b.nHeight) == b
    }

    /** A block is on the chain exactly if it stands at its own height. */
    lemma OnChain(b: BlockIndex, all: set<BlockIndex>)
      requires Valid(all)
      ensures Contains(b) <==> b in vChain
    {
      hide Anc, Linked;
      if b in vChain {
        var i :| 0 <= i < |vChain| && vChain[i] == b;
        AncAnc(vChain[|vChain| - 1], i, i);
      }
    }

    /** Makes the chain the branch of a block, leaving off where the old chain already agrees. */
    method SetTip(tip: BlockIndex?, ghost all: set<BlockIndex>)
      requires Valid(all) && Tree(all) && (tip != null ==> tip in all)
      modifies this`vChain
      ensures Valid(all) && vChain == if tip == null then [] else Line(tip)
    {
      hide Anc, Linked;
      if tip == null {
        vChain := [];
        return;
      }
      ghost var was := vChain;
      var n := tip.nHeight + 1;
      vChain := if n <= |vChain| then vChain[..n] else vChain + seq(n - |vChain|, _ => null);
      var pindex: BlockIndex? := tip;
      ghost var k: int := tip.nHeight;
      AncSelf(tip);
      while pindex != null && vChain[pindex.nHeight] != pindex
        invariant |vChain| == n && -1 <= k < n && (pindex == null <==> k == -1) && Tree(all)
        invariant pindex != null ==> pindex in all && pindex.nHeight == k && pindex == Anc(tip, k)
        invariant forall j | k < j < n :: vChain[j] == Anc(tip, j)
        invariant forall j | 0 <= j <= k :: vChain[j] == if j < |was| then was[j] else null
        decreases k
      {
        vChain := vChain[pindex.nHeight := pindex];
        LinkedPrev(pindex);
        if k > 0 { AncAnc(tip, k, k - 1); }
        pindex := pindex.pprev;
        k := k - 1;
      }
      if pindex != null {
        OldChainAgrees(was, tip, k);
      }
      assert vChain == Line(tip);
    }

    /** The highest block of the chain on the branch of a block, or null. */
    method FindFork(block: BlockIndex?, ghost all: set<BlockIndex>) returns (r: BlockIndex?)
      requires Valid(all) && Tree(all) && (block != null ==> block in all)
      ensures block == null ==> r == null
      ensures block != null && r == null ==> forall h: nat | h <= block.nHeight :: Anc(block, h) !in vChain
      ensures block != null && r != null ==>
        r in all && r.nHeight <= block.nHeight && r == Anc(block, r.nHeight) && r in vChain
      ensures block != null && r != null ==> forall h: nat | r.nHeight < h <= block.nHeight :: Anc(block, h) !in vChain
    {
      hide Anc, Linked, GetSkipHeight;
      if block == null {
        return null;
      }
      r := block;
      AncSelf(block);
      ghost var k: int := block.nHeight;
      if block.nHeight > |vChain| - 1 {
        ghost var steps;
        r, steps := block.GetAncestor(|vChain| - 1, all);
        k := |vChain| - 1;
        forall h: nat | k < h <= block.nHeight ensures Anc(block, h) !in vChain {
          AncIn(block, h, all);
          OnChain(Anc(block, h), all);
        }
        if r != null { AncIn(block, k, all); }
      }
      if r != null { OnChain(r, all); }
      while r != null && !Contains(r)
        invariant Tree(all) && -1 <= k <= block.nHeight && (r == null <==> k == -1)
        invariant r != null ==> r in all && r.nHeight == k && r == Anc(block, k)
        invariant r != null ==> (Contains(r) <==> r in vChain)
        invariant forall h: nat | k < h <= block.nHeight :: Anc(block, h) !in vChain
        decreases k
      {
        LinkedPrev(r);
        if k > 0 { AncAnc(block, k, k - 1); }
        r := r.pprev;
        k := k - 1;
        if r != null { OnChain(r, all); }
      }
    }

    /** The ancestor of a block, read off the chain if the block is on it. */
    method Earlier(block: BlockIndex, height: nat, ghost all: set<BlockIndex>) returns (r: BlockIndex)
      requires Valid(all) && Tree(all) && block in all && height <= block.nHeight
      ensures r == Anc(block, height)
    {
      hide Anc, Linked, GetSkipHeight;
      if Contains(block) {
        AncAnc(vChain[|vChain| - 1], block.nHeight, height);
        return At(height);
      }
      ghost var steps;
      r, steps := block.GetAncestor(height, all);
    }

    /** Blocks back from a block, or from the tip, at growing distances down to the root. */
    method GetLocator(block: BlockIndex?, ghost all: set<BlockIndex>) returns (vHave: seq<BlockIndex>)
      requires Valid(all) && Tree(all) && (block != null ==> block in all)
      ensures block == null && vChain == [] ==> vHave == []
      ensures block == null && vChain != [] ==> IsLocator(vChain[|vChain| - 1], vHave)
      ensures block != null ==> IsLocator(block, vHave)
    {
      hide Anc, Linked, GetSkipHeight, HeightAt, Back, Pow2, IsLocator;
      vHave := [];
      var nStep, pindex := 1, block;
      if pindex == null {
        pindex := At(|vChain| - 1);
      }
      if pindex == null {
        return;
      }
      ghost var start: BlockIndex := pindex;
      BackStart(start);
      while pindex != null
        invariant Tree(all) && Valid(all) && pindex != null && pindex in all
        invariant pindex.nHeight == HeightAt(start.nHeight, |vHave|) && pindex == Anc(start, pindex.nHeight)
        invariant forall i | 0 <= i < |vHave| :: Entry(start, vHave[i], i) && vHave[i].nHeight > 0
        invariant nStep == Pow2(if |vHave| > 10 then |vHave| - 10 else 0)
        decreases pindex.nHeight
      {
        assert Entry(start, pindex, |vHave|);
        vHave := vHave + [pindex];
        if pindex.nHeight == 0 {
          break;
        }
        ghost var at := pindex.nHeight;
        var height := if pindex.nHeight - nStep > 0 then pindex.nHeight - nStep else 0;
        AncAnc(start, at, height);
        AncIn(pindex, height, all);
        pindex := Earlier(pindex, height, all);
        BackStep(start.nHeight, |vHave|);
        if |vHave| > 10 {
          Pow2Step(|vHave| - 11);
          nStep := nStep * 2;
          StepFits(start.nHeight, |vHave|);
          assert start.nHeight < 0x4000_0000 ==> nStep < 0x8000_0000;
        }
      }
      LocatorOrder(start, vHave);
    }
  }

  // ---- Locators -----------------------------------------------------------

  /** How far back entry i lies: one block at a time for the first eleven steps, then doubling. */
  ghost function Back(i: nat): nat
  {
    if i == 0 then 0 else Back(i - 1) + Pow2(if i > 11 then i - 11 else 0)
  }

  ghost function HeightAt(h: nat, i: nat): nat
  {
    if h > Back(i) then h - Back(i) else 0
  }

  ghost predicate Entry(start: BlockIndex, b: BlockIndex, i: nat)
    requires Linked(start)
  {
    b.nHeight == HeightAt(start.nHeight, i) && b == Anc(start, b.nHeight)
  }

  /** The blocks at the distances above, at strictly lower and lower heights, down to the root. */
  ghost predicate IsLocator(start: BlockIndex, v: seq<BlockIndex>)
  {
    && Linked(start) && |v| > 0
    && (forall i | 0 <= i < |v| :: Entry(start, v[i], i))
    && (forall i, j | 0 <= i < j < |v| :: v[i].nHeight > v[j].nHeight)
    && v[0] == start && v[|v| - 1].nHeight == 0
  }

  lemma BackStart(b: BlockIndex)
    requires Linked(b)
    ensures HeightAt(b.nHeight, 0) == b.nHeight && Anc(b, b.nHeight) == b && Pow2(0) == 1
  {
  }

  lemma BackStep(h: nat, m: nat)
    requires m > 0
    ensures HeightAt(h, m) == var p := HeightAt(h, m - 1) - Pow2(if m > 11 then m - 11 else 0); if p > 0 then p else 0
  {
  }

  lemma {:induction false} BackIncreases(i: nat, j: nat)
    requires i < j
    ensures Back(i) < Back(j)
    decreases j
  {
    if i < j - 1 { BackIncreases(i, j - 1); }
  }

  lemma {:induction false} BackIs(m: nat)
    ensures m <= 11 ==> Back(m) == m
    ensures m >= 11 ==> Back(m) == Pow2(m - 10) + 9
  {
    if m > 0 { BackIs(m - 1); }
    Pow2Step(0);
  }

  lemma StepFits(h: nat, m: nat)
    requires m > 10 && HeightAt(h, m - 1) > 0
    ensures Pow2(m - 10) <= 2 * h
  {
    hide Pow2, Back;
    BackIs(m - 1);
    Pow2Step(m - 11);
  }

  lemma LocatorOrder(start: BlockIndex, v: seq<BlockIndex>)
    requires Linked(start) && |v| > 0 && forall i | 0 <= i < |v| :: Entry(start, v[i], i)
    requires (forall i | 0 <= i < |v| - 1 :: v[i].nHeight > 0) && v[|v| - 1].nHeight == 0
    ensures IsLocator(start, v)
  {
    hide Anc, Back;
    forall i, j | 0 <= i < j < |v| ensures v[i].nHeight > v[j].nHeight {
      assert Entry(start, v[i], i) && Entry(start, v[j], j);
      BackIncreases(i, j);
    }
    BackStart(start);
    assert Entry(start, v[0], 0);
  }

  /** A locator for height h has at most twelve entries more than the logarithm of h. */
  lemma LocatorLength(start: BlockIndex, v: seq<BlockIndex>, log: nat)
    requires IsLocator(start, v) && Pow2(log) <= start.nHeight < Pow2(log + 1)
    ensures |v| <= 12 + log
  {
    hide Anc, Pow2, Back;
    if |v| > 12 + log {
      assert Entry(start, v[11 + log], 11 + log) && v[11 + log].nHeight > v[|v| - 1].nHeight;
      BackIs(11 + log);
    }
  }

  /** A block of a branch at its own height brings the rest of the branch below it. */
  lemma OldChainAgrees(was: seq<BlockIndex?>, tip: BlockIndex, k: nat)
    requires Linked(tip) && k <= tip.nHeight && k < |was| && was[k] == Anc(tip, k)
    requires var last := was[|was| - 1]; last != null && Linked(last) && was == Line(last)
    ensures forall j | 0 <= j <= k :: was[j] == Anc(tip, j)
  {
    var last := was[|was| - 1];
    forall j | 0 <= j <= k ensures was[j] == Anc(tip, j) {
      AncAnc(tip, k, j);
      AncAnc(last, k, j);
    }
  }
}
