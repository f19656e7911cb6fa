/** Building a proof, sending it as bytes and checking it gives back exactly what was selected. */
module MerkleRoundTrip {
  import opened Bits
  import opened Merkle

  /** The selected indices from lo up to hi, in order. */
  ghost function MatchedIn(m: seq<bool>, lo: nat, hi: nat): seq<nat>
    decreases hi
  {
    if hi <= lo then [] else MatchedIn(m, lo, hi - 1) + (if hi - 1 < |m| && m[hi - 1] then [hi - 1] else [])
  }

  lemma {:induction false} MatchedSplit(m: seq<bool>, lo: nat, mid: nat, hi: nat)
    requires lo <= mid <= hi
    ensures MatchedIn(m, lo, hi) == MatchedIn(m, lo, mid) + MatchedIn(m, mid, hi)
    decreases hi
  {
    if mid < hi {
      MatchedSplit(m, lo, mid, hi - 1);
    }
  }

  lemma {:induction false} MatchedNone(m: seq<bool>, lo: nat, hi: nat)
    requires !AnyMatch(m, lo, hi)
    ensures MatchedIn(m, lo, hi) == []
    decreases hi
  {
    if lo < hi {
      if AnyMatch(m, lo, hi - 1) {
        assert AnyMatch(m, lo, hi);
      }
      MatchedNone(m, lo, hi - 1);
    }
  }

  lemma {:induction false} MatchedSome(m: seq<bool>, lo: nat, hi: nat)
    ensures AnyMatch(m, lo, hi) ==> |MatchedIn(m, lo, hi)| >= 1
    ensures forall i | 0 <= i < |MatchedIn(m, lo, hi)| ::
      lo <= MatchedIn(m, lo, hi)[i] < hi && MatchedIn(m, lo, hi)[i] < |m| && m[MatchedIn(m, lo, hi)[i]]
    decreases hi
  {
    if lo < hi {
      MatchedSome(m, lo, hi - 1);
      if AnyMatch(m, lo, hi) && !AnyMatch(m, lo, hi - 1) {
        var p :| lo <= p < hi && p < |m| && m[p];
        assert p == hi - 1;
      }
    }
  }

  ghost predicate Distinct(txids: seq<Digest>)
  {
    forall i, j | 0 <= i < j < |txids| :: txids[i] != txids[j]
  }

  /** Equal node hashes at one height have equal leftmost transactions below. */
  lemma {:induction false} LeftmostLeaf(combine: (Digest, Digest) -> Digest, txids: seq<Digest>, height: nat, a: nat,
      b: nat)
    requires Injective(combine) && First(height, a) < |txids| && First(height, b) < |txids|
    requires CalcHash(combine, txids, height, a) == CalcHash(combine, txids, height, b)
    ensures txids[First(height, a)] == txids[First(height, b)]
  {
    hide Width;
    if height > 0 {
      ChildrenOk(|txids|, height, a);
      ChildrenOk(|txids|, height, b);
      FirstChild(height, a);
      FirstChild(height, b);
      LeftmostLeaf(combine, txids, height - 1, 2 * a, 2 * b);
    }
  }

  lemma SiblingsDiffer(combine: (Digest, Digest) -> Digest, txids: seq<Digest>, height: nat, pos: nat)
    requires Injective(combine) && Distinct(txids) && height > 0
    requires First(height - 1, 2 * pos) < |txids| && First(height - 1, 2 * pos + 1) < |txids|
    ensures CalcHash(combine, txids, height - 1, 2 * pos) != CalcHash(combine, txids, height - 1, 2 * pos + 1)
  {
    hide CalcHash, First;
    FirstChild(height, pos);
    if CalcHash(combine, txids, height - 1, 2 * pos) == CalcHash(combine, txids, height - 1, 2 * pos + 1) {
      LeftmostLeaf(combine, txids, height - 1, 2 * pos, 2 * pos + 1);
    }
  }

  /** No width below this height is cut off by the 32-bit sum. */
  ghost predicate Unwrapped(n: nat, height: nat)
  {
    forall j | 0 <= j < height :: n + Pow2(j) - 1 < TWO_32
  }

  /** Where the sum does not wrap the width is exact: a missing right child has no transactions. */
  lemma WidthExact(n: nat, height: nat, pos: nat)
    requires Unwrapped(n, height + 1)
    ensures pos < Width(n, height) <==> First(height, pos) < n
  {
    hide Pow2;
    assert n + Pow2(height) - 1 < TWO_32;
    WidthCovers(n, height, pos);
  }

  /** The height of a tree is found before any width wraps around. */
  lemma HeightUnwrapped(n: nat, height: nat)
    requires n < TWO_32 && IsHeight(n, height)
    ensures Unwrapped(n, height)
  {
    forall j | 0 <= j < height ensures n + Pow2(j) - 1 < TWO_32 {
      if n + Pow2(j) - 1 >= TWO_32 { WrappedIsEmpty(n, j); }
    }
  }

  lemma WrappedIsEmpty(n: nat, j: nat)
    requires n < TWO_32 <= n + Pow2(j) - 1 && j <= 31
    ensures Width(n, j) == 0
  {
    var x, p := n + Pow2(j) - 1, Pow2(j);
    Pow2Monotone(j, 31);
    Pow2Values();
    DivModUnique(x, TWO_32, 1, x - TWO_32);
    DivModUnique(x - TWO_32, p, 0, x - TWO_32);
  }

  /** The matches below a node, split between its children. */
  lemma ChildMatches(m: seq<bool>, height: nat, pos: nat)
    requires height > 0 && Unwrapped(|m|, height)
    ensures MatchedIn(m, First(height, pos), First(height, pos + 1)) ==
            MatchedIn(m, First(height - 1, 2 * pos), First(height - 1, 2 * pos + 1))
            + (if 2 * pos + 1 < Width(|m|, height - 1) then
                 MatchedIn(m, First(height - 1, 2 * pos + 1), First(height - 1, 2 * pos + 2))
               else [])
  {
    hide First, Width, MatchedIn;
    FirstChild(height, pos);
    MatchedSplit(m, First(height, pos), First(height - 1, 2 * pos + 1), First(height, pos + 1));
    WidthExact(|m|, height - 1, 2 * pos + 1);
    if 2 * pos + 1 >= Width(|m|, height - 1) {
      MatchedNone(m, First(height - 1, 2 * pos + 1), First(height, pos + 1));
    }
  }

  /** The part of a proof that a node contributed lies at the cursors. */
  ghost predicate Lies<T>(part: seq<T>, all: seq<T>, at: nat)
  {
    at + |part| <= |all| && all[at..at + |part|] == part
  }

  lemma LiesSplit<T>(a: seq<T>, b: seq<T>, all: seq<T>, at: nat)
    requires Lies(a + b, all, at)
    ensures Lies(a, all, at) && Lies(b, all, at + |a|)
  {
    assert all[at..at + |a|] == (a + b)[..|a|];
    assert all[at + |a|..at + |a| + |b|] == (a + b)[|a|..];
  }

  ghost predicate Listed(txids: seq<Digest>, out: Out)
  {
    |out.found| == |out.index| && forall i | 0 <= i < |out.index| ::
      out.index[i] < |txids| && out.found[i] == txids[out.index[i]]
  }

  /** The outcome a node should have: its hash, all of its part consumed, exactly its matches. */
  ghost predicate Recovered(txids: seq<Digest>, hash: Digest, matched: seq<nat>, b: nat, k: nat, out: Out)
  {
    !out.bad && out.hash == hash && out.b == b && out.k == k && out.index == matched && Listed(txids, out)
  }

  lemma ListedBoth(txids: seq<Digest>, l: Out, r: Out, out: Out)
    requires Listed(txids, l) && Listed(txids, r) && out.index == l.index + r.index && out.found == l.found + r.found
    ensures Listed(txids, out)
  {
  }

  /** Traversing what was built at a node succeeds with the node's hash and exactly its matches. */
  lemma {:induction false} BuildThenTraverse(combine: (Digest, Digest) -> Digest, txids: seq<Digest>, m: seq<bool>,
      bits: seq<bool>, hashes: seq<Digest>, height: nat, pos: nat, b: nat, k: nat)
    requires Injective(combine) && Distinct(txids) && |m| == |txids| && Unwrapped(|txids|, height)
      && First(height, pos) < |txids|
    requires Lies(BuildBits(m, height, pos), bits, b) && Lies(BuildHashes(combine, txids, m, height, pos), hashes, k)
    ensures Recovered(txids, CalcHash(combine, txids, height, pos),
              MatchedIn(m, First(height, pos), First(height, pos + 1)),
              b + |BuildBits(m, height, pos)|, k + |BuildHashes(combine, txids, m, height, pos)|,
              Traverse(combine, |txids|, bits, hashes, height, pos, b, k))
    decreases height
  {
    hide First, Width, CalcHash, BuildBits, BuildHashes, Traverse, AnyMatch, MatchedIn, Distinct, Injective, Lies;
    TraverseIs(combine, |txids|, bits, hashes, height, pos, b, k);
    if height == 0 || !AnyMatch(m, First(height, pos), First(height, pos + 1)) {
      BuildLeaf(combine, txids, m, height, pos);
      LeafMatches(combine, txids, m, height, pos);
      LiesOne(AnyMatch(m, First(height, pos), First(height, pos + 1)), bits, b);
      LiesOne(CalcHash(combine, txids, height, pos), hashes, k);
    } else {
      ChildrenOk(|txids|, height, pos);
      BuildInner(combine, txids, m, height, pos);
      CalcInner(combine, txids, height, pos);
      ChildMatches(m, height, pos);
      var lb, lh := BuildBits(m, height - 1, 2 * pos), BuildHashes(combine, txids, m, height - 1, 2 * pos);
      if 2 * pos + 1 < Width(|txids|, height - 1) {
        var rb, rh := BuildBits(m, height - 1, 2 * pos + 1), BuildHashes(combine, txids, m, height - 1, 2 * pos + 1);
        InnerParts(lb, rb, lh, rh, bits, hashes, b, k);
        BuildThenTraverse(combine, txids, m, bits, hashes, height - 1, 2 * pos, b + 1, k);
        BuildThenTraverse(combine, txids, m, bits, hashes, height - 1, 2 * pos + 1, b + 1 + |lb|, k + |lh|);
        SiblingsDiffer(combine, txids, height, pos);
        ListedBoth(txids, Traverse(combine, |txids|, bits, hashes, height - 1, 2 * pos, b + 1, k),
          Traverse(combine, |txids|, bits, hashes, height - 1, 2 * pos + 1, b + 1 + |lb|, k + |lh|),
          Traverse(combine, |txids|, bits, hashes, height, pos, b, k));
      } else {
        InnerParts(lb, [], lh, [], bits, hashes, b, k);
        BuildThenTraverse(combine, txids, m, bits, hashes, height - 1, 2 * pos, b + 1, k);
      }
    }
  }

  lemma CalcInner(combine: (Digest, Digest) -> Digest, txids: seq<Digest>, height: nat, pos: nat)
    requires height > 0 && First(height, pos) < |txids| && First(height - 1, 2 * pos) < |txids|
    requires 2 * pos + 1 < Width(|txids|, height - 1) ==> First(height - 1, 2 * pos + 1) < |txids|
    ensures var left := CalcHash(combine, txids, height - 1, 2 * pos);
            CalcHash(combine, txids, height, pos) ==
              combine(left,
                if 2 * pos + 1 < Width(|txids|, height - 1) then CalcHash(combine, txids, height - 1, 2 * pos + 1)
                else left)
  {
    hide First, Width;
  }

  lemma LeafMatches(combine: (Digest, Digest) -> Digest, txids: seq<Digest>, m: seq<bool>, height: nat, pos: nat)
    requires |m| == |txids| && First(height, pos) < |txids|
    requires height == 0 || !AnyMatch(m, First(height, pos), First(height, pos + 1))
    ensures height == 0 ==>
      && pos < |txids| && CalcHash(combine, txids, height, pos) == txids[pos]
      && (AnyMatch(m, First(height, pos), First(height, pos + 1)) <==> m[pos])
    ensures MatchedIn(m, First(height, pos), First(height, pos + 1)) == if height == 0 && m[pos] then [pos] else []
  {
    hide AnyMatch;
    if height == 0 {
      NoMatchYet(m, pos);
      MatchNext(m, pos, pos);
      assert MatchedIn(m, pos, pos) == [];
    } else {
      MatchedNone(m, First(height, pos), First(height, pos + 1));
    }
  }

  /** The children's parts lie one after the other. */
  lemma InnerParts(lb: seq<bool>, rb: seq<bool>, lh: seq<Digest>, rh: seq<Digest>, bits: seq<bool>, hashes: seq<Digest>,
      b: nat, k: nat)
    requires Lies([true] + lb + rb, bits, b) && Lies(lh + rh, hashes, k)
    ensures b < |bits| && bits[b]
    ensures Lies(lb, bits, b + 1) && Lies(rb, bits, b + 1 + |lb|)
    ensures Lies(lh, hashes, k) && Lies(rh, hashes, k + |lh|)
  {
    hide Lies;
    assert [true] + lb + rb == [true] + (lb + rb);
    LiesSplit([true], lb + rb, bits, b);
    LiesOne(true, bits, b);
    LiesSplit(lb, rb, bits, b + 1);
    LiesSplit(lh, rh, hashes, k);
  }

  lemma LiesOne<T>(x: T, all: seq<T>, at: nat)
    requires Lies([x], all, at)
    ensures at < |all| && all[at] == x
  {
    assert all[at..at + 1][0] == x;
  }

  // ---- How many hashes are stored -----------------------------------------

  ghost function Leaves(n: nat, height: nat, pos: nat): int
  {
    (if First(height, pos + 1) < n then First(height, pos + 1) else n) - First(height, pos)
  }

  /** The stored hashes of a node: no more than its transactions, nor than its flag bits, nor than one
      plus the number of matches times the height. */
  lemma {:induction false} StoredBounds(combine: (Digest, Digest) -> Digest, txids: seq<Digest>, m: seq<bool>,
      height: nat, pos: nat)
    requires |m| == |txids| && Unwrapped(|txids|, height) && First(height, pos) < |txids|
    ensures var stored := |BuildHashes(combine, txids, m, height, pos)|;
            && 1 <= stored <= Leaves(|txids|, height, pos)
            && stored <= |BuildBits(m, height, pos)|
            && stored <= 1 + |MatchedIn(m, First(height, pos), First(height, pos + 1))| * height
    decreases height
  {
    hide First, Width, CalcHash, BuildBits, BuildHashes, AnyMatch, MatchedIn;
    FirstOrder(height, pos);
    if height == 0 || !AnyMatch(m, First(height, pos), First(height, pos + 1)) {
      BuildLeaf(combine, txids, m, height, pos);
      MulNonNegative(|MatchedIn(m, First(height, pos), First(height, pos + 1))|, height);
    } else {
      ChildrenOk(|txids|, height, pos);
      FirstChild(height, pos);
      BuildInner(combine, txids, m, height, pos);
      ChildMatches(m, height, pos);
      MatchedSome(m, First(height, pos), First(height, pos + 1));
      WidthExact(|txids|, height - 1, 2 * pos + 1);
      StoredBounds(combine, txids, m, height - 1, 2 * pos);
      var ml := |MatchedIn(m, First(height - 1, 2 * pos), First(height - 1, 2 * pos + 1))|;
      if 2 * pos + 1 < Width(|txids|, height - 1) {
        StoredBounds(combine, txids, m, height - 1, 2 * pos + 1);
        var mr := |MatchedIn(m, First(height - 1, 2 * pos + 1), First(height - 1, 2 * pos + 2))|;
        TwoBranches(ml, mr, height, |BuildHashes(combine, txids, m, height - 1, 2 * pos)|,
          |BuildHashes(combine, txids, m, height - 1, 2 * pos + 1)|);
      } else {
        TwoBranches(ml, 0, height, |BuildHashes(combine, txids, m, height - 1, 2 * pos)|, 1);
      }
    }
  }

  lemma MulNonNegative(a: nat, b: nat)
    ensures a * b >= 0
  {
  }

  lemma TwoBranches(ml: nat, mr: nat, height: nat, l: nat, r: nat)
    requires height > 0 && ml + mr >= 1 && l <= 1 + ml * (height - 1) && r <= 1 + mr * (height - 1)
    ensures l + r <= 1 + (ml + mr) * height
  {
    assert ml * (height - 1) + mr * (height - 1) == (ml + mr) * height - (ml + mr);
  }

  // ---- The whole round trip -----------------------------------------------

  /** Any mask over distinct transactions: build the proof, pack its bits, unpack them and check it. The
      matches below the root come back, which are all of them for up to 2^31 transactions. */
  method RoundTrip(combine: (Digest, Digest) -> Digest, txids: seq<Digest>, m: seq<bool>)
    returns (root: Digest, vMatch: seq<Digest>, vnIndex: seq<nat>, stored: nat, ghost height: nat)
    requires Injective(combine) && Distinct(txids) && 0 < |txids| == |m| < TWO_32
    ensures IsHeight(|txids|, height) && First(height, 0) < |txids|
    ensures root == CalcHash(combine, txids, height, 0)
    ensures vnIndex == MatchedIn(m, 0, First(height, 1))
    ensures |txids| <= TWO_31 ==> vnIndex == MatchedIn(m, 0, |txids|)
    ensures |vMatch| == |vnIndex| && forall i | 0 <= i < |vnIndex| ::
      vnIndex[i] < |txids| && vMatch[i] == txids[vnIndex[i]]
    ensures stored <= |txids| && stored <= 1 + |vnIndex| * height
  {
    hide First, Width, CalcHash, BuildBits, BuildHashes, AnyMatch, MatchedIn, Traverse, Bit, Distinct, Injective;
    var tree := new PartialMerkleTree.Build(combine, txids, m);
    stored := |tree.vHash|;
    height := TreeHeight(|txids|);
    SameHeight(|txids|, height);
    var bytes := BitsToBytes(tree.vBits);
    var bits := BytesToBits(bytes);
    forall p | 0 <= p < |tree.vBits| ensures bits[p] == tree.vBits[p] { }
    assert bits[..|tree.vBits|] == tree.vBits;
    var received := new PartialMerkleTree.FromStream(combine, |txids|, tree.vHash, bits);
    root, vMatch, vnIndex := received.ExtractMatches([]);
    HeightUnwrapped(|txids|, height);
    BuildThenTraverse(combine, txids, m, bits, tree.vHash, height, 0, 0, 0);
    StoredBounds(combine, txids, m, height, 0);
    RootCovers(m, height);
    ghost var out := Traverse(combine, |txids|, bits, tree.vHash, height, 0, 0, 0);
    assert Accepted(false, |txids|, bits, tree.vHash, out);
    assert [] + out.index == out.index;
  }

  /** The root stands over all transactions exactly when there are at most 2^31 of them: from there on
      the 32-bit width sum wraps around and the tree stays too low. */
  lemma RootCoversAll(n: nat, height: nat)
    requires 0 < n < TWO_32 && IsHeight(n, height)
    ensures First(height, 1) >= n <==> n <= TWO_31
  {
    hide Width;
    Pow2Values();
    Pow2Monotone(height, 31);
    if n <= TWO_31 {
      WidthCovers(n, height, 1);
    }
  }

  lemma RootCovers(m: seq<bool>, height: nat)
    requires 0 < |m| < TWO_32 && IsHeight(|m|, height)
    ensures First(height, 0) == 0 && Leaves(|m|, height, 0) <= |m|
    ensures |m| <= TWO_31 ==> MatchedIn(m, 0, First(height, 1)) == MatchedIn(m, 0, |m|)
  {
    hide Width, MatchedIn;
    RootCoversAll(|m|, height);
    if |m| <= TWO_31 {
      MatchedSplit(m, 0, |m|, First(height, 1));
      MatchedNone(m, |m|, First(height, 1));
    }
  }
}
