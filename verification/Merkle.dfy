/** Partial Merkle trees: building and checking proofs that transactions are in a block, as in the
    section "Partial Merkle branch format" of BIP 37. */
module Merkle {
  import opened Bits

  /** A 256-bit hash; 0 is the null hash. */
  type Digest = int
  const NULL_HASH: Digest := 0
  const TWO_32: nat := 0x1_0000_0000
  const TWO_31: nat := 0x8000_0000

  ghost predicate Injective(combine: (Digest, Digest) -> Digest)
  {
    forall a, b, c, d {:trigger combine(a, b), combine(c, d)} :: combine(a, b) == combine(c, d) ==> a == c && b == d
  }

  // ---- Flag bits and bytes ------------------------------------------------

  /** Packs bits eight to a byte, least significant bit first. */
  method BitsToBytes(bits: seq<bool>) returns (bytes: seq<nat>)
    ensures |bytes| == (|bits| + 7) / 8
    ensures forall q | 0 <= q < |bytes| :: bytes[q] < 256
    ensures forall p | 0 <= p < 8 * |bytes| :: Bit(bytes[p / 8], p % 8) <==> p < |bits| && bits[p]
  {
    hide Bit, Or, Pow2;
    var n := (|bits| + 7) / 8;
    var ret := new nat[n](_ => 0);
    forall p | 0 <= p < 8 * n ensures !Bit(ret[p / 8], p % 8) { ZeroBits(p % 8); }
    for p := 0 to |bits|
      invariant forall q | 0 <= q < n :: ret[q] < 256
      invariant forall j | 0 <= j < 8 * n :: Bit(ret[j / 8], j % 8) <==> j < p && bits[j]
    {
      var b := if bits[p] then Pow2(p % 8) else 0;
      ghost var was := ret[..];
      ret[p / 8] := Or(ret[p / 8], b);
      SetBit(was[p / 8], p % 8, bits[p]);
      forall j | 0 <= j < 8 * n ensures Bit(ret[j / 8], j % 8) <==> j < p + 1 && bits[j] {
        assert Bit(was[j / 8], j % 8) <==> j < p && bits[j];
        if j / 8 == p / 8 {
          assert j % 8 == p % 8 ==> j == p;
        }
      }
    }
    bytes := ret[..];
  }

  lemma SetBit(x: nat, k: nat, on: bool)
    requires x < 256 && k < 8
    ensures Or(x, if on then Pow2(k) else 0) < 256
    ensures forall j | 0 <= j < 8 :: Bit(Or(x, if on then Pow2(k) else 0), j) <==> Bit(x, j) || (on && j == k)
  {
    var y := if on then Pow2(k) else 0;
    Pow2Values();
    Pow2Monotone(k, 7);
    assert 2 * Pow2(7) == Pow2(8);
    OrBelow(x, y, 8);
    forall j | 0 <= j < 8 ensures Bit(Or(x, y), j) <==> Bit(x, j) || (on && j == k) {
      OrBit(x, y, j);
      ZeroBits(j);
      Pow2Bit(k, j);
    }
  }

  method BytesToBits(bytes: seq<nat>) returns (bits: seq<bool>)
    ensures |bits| == 8 * |bytes|
    ensures forall p | 0 <= p < |bits| :: bits[p] <==> Bit(bytes[p / 8], p % 8)
  {
    hide Bit, And, Pow2;
    bits := [];
    for p := 0 to 8 * |bytes|
      invariant |bits| == p && forall j | 0 <= j < p :: bits[j] <==> Bit(bytes[j / 8], j % 8)
    {
      AndPow2(bytes[p / 8], p % 8);
      bits := bits + [And(bytes[p / 8], Pow2(p % 8)) != 0];
    }
  }

  // ---- The tree -----------------------------------------------------------

  /** The number of nodes at a height, computed in 32 bits. */
  function Width(n: nat, height: nat): nat
  {
    (n + Pow2(height) - 1) % TWO_32 / Pow2(height)
  }

  /** The first transaction below a node. */
  function First(height: nat, pos: nat): nat
  {
    pos * Pow2(height)
  }

  lemma FirstChild(height: nat, pos: nat)
    requires height > 0
    ensures First(height - 1, 2 * pos) == First(height, pos)
    ensures First(height - 1, 2 * pos + 1) == First(height, pos) + Pow2(height - 1)
    ensures First(height - 1, 2 * pos + 2) == First(height, pos + 1)
    ensures First(height, pos) < First(height - 1, 2 * pos + 1) < First(height, pos + 1)
  {
    var p := Pow2(height - 1);
    assert Pow2(height) == 2 * p;
    assert (2 * pos) * p == pos * (2 * p);
    assert (2 * pos + 1) * p == (2 * pos) * p + p;
    assert (2 * pos + 2) * p == (2 * pos) * p + 2 * p;
    assert (pos + 1) * (2 * p) == pos * (2 * p) + 2 * p;
  }

  /** A node within the width has a transaction below it, also where the 32-bit sum wraps around. */
  lemma WidthCovers(n: nat, height: nat, pos: nat)
    ensures pos < Width(n, height) ==> First(height, pos) < n
    ensures n + Pow2(height) - 1 < TWO_32 ==> (pos < Width(n, height) <==> First(height, pos) < n)
  {
    hide Pow2;
    var p := Pow2(height);
    var m := (n + p - 1) % TWO_32;
    assert m <= n + p - 1;
    DivLess(m, p, pos + 1);
    assert (pos + 1) * p == pos * p + p;
  }

  /** The children that are visited have transactions below them. */
  lemma ChildrenOk(n: nat, height: nat, pos: nat)
    requires height > 0 && First(height, pos) < n
    ensures First(height - 1, 2 * pos) < n
    ensures 2 * pos + 1 < Width(n, height - 1) ==> First(height - 1, 2 * pos + 1) < n
  {
    FirstChild(height, pos);
    WidthCovers(n, height - 1, 2 * pos + 1);
  }

  /** The hash of a node; a missing right child is replaced by the left one. */
  ghost function CalcHash(combine: (Digest, Digest) -> Digest, txids: seq<Digest>, height: nat, pos: nat): Digest
    requires First(height, pos) < |txids|
  {
    if height == 0 then txids[pos]
    else
      ChildrenOk(|txids|, height, pos);
      var left := CalcHash(combine, txids, height - 1, 2 * pos);
      var right := if 2 * pos + 1 < Width(|txids|, height - 1) then CalcHash(combine, txids, height - 1, 2 * pos + 1)
                   else left;
      combine(left, right)
  }

  /** The height of the root: the first one whose width is at most one. */
  ghost predicate IsHeight(n: nat, height: nat)
  {
    height <= 31 && Width(n, height) <= 1 && forall j | 0 <= j < height :: Width(n, j) > 1
  }

  method TreeHeight(n: nat) returns (height: nat)
    requires n < TWO_32
    ensures IsHeight(n, height)
  {
    hide Pow2;
    height := 0;
    while Width(n, height) > 1
      invariant height <= 31 && forall j | 0 <= j < height :: Width(n, j) > 1
      decreases 31 - height
    {
      NarrowAt31(n);
      height := height + 1;
    }
  }

  lemma NarrowAt31(n: nat)
    requires n < TWO_32
    ensures Width(n, 31) <= 1
  {
    Pow2Values();
    DivLess((n + Pow2(31) - 1) % TWO_32, Pow2(31), 2);
  }

  // ---- What building and checking compute ---------------------------------

  ghost predicate AnyMatch(m: seq<bool>, lo: nat, hi: nat)
  {
    exists p :: lo <= p < hi && p < |m| && m[p]
  }

  ghost function BuildBits(m: seq<bool>, height: nat, pos: nat): seq<bool>
  {
    var parent := AnyMatch(m, First(height, pos), First(height, pos + 1));
    if height == 0 || !parent then [parent]
    else
      [parent] + BuildBits(m, height - 1, 2 * pos)
      + (if 2 * pos + 1 < Width(|m|, height - 1) then BuildBits(m, height - 1, 2 * pos + 1) else [])
  }

  ghost function BuildHashes(combine: (Digest, Digest) -> Digest, txids: seq<Digest>, m: seq<bool>, height: nat,
      pos: nat): seq<Digest>
    requires |m| == |txids| && First(height, pos) < |txids|
  {
    if height == 0 || !AnyMatch(m, First(height, pos), First(height, pos + 1)) then
      [CalcHash(combine, txids, height, pos)]
    else
      ChildrenOk(|txids|, height, pos);
      BuildHashes(combine, txids, m, height - 1, 2 * pos)
      + (if 2 * pos + 1 < Width(|m|, height - 1) then BuildHashes(combine, txids, m, height - 1, 2 * pos + 1) else [])
  }

  /** A node whose hash is stored. */
  lemma BuildLeaf(combine: (Digest, Digest) -> Digest, txids: seq<Digest>, m: seq<bool>, height: nat, pos: nat)
    requires |m| == |txids| && First(height, pos) < |txids|
    requires height == 0 || !AnyMatch(m, First(height, pos), First(height, pos + 1))
    ensures BuildBits(m, height, pos) == [AnyMatch(m, First(height, pos), First(height, pos + 1))]
    ensures BuildHashes(combine, txids, m, height, pos) == [CalcHash(combine, txids, height, pos)]
  {
    hide First, Width, CalcHash, AnyMatch;
  }

  /** A node with a match below, which is descended into. */
  lemma BuildInner(combine: (Digest, Digest) -> Digest, txids: seq<Digest>, m: seq<bool>, height: nat, pos: nat)
    requires |m| == |txids| && First(height, pos) < |txids| && height > 0
    requires AnyMatch(m, First(height, pos), First(height, pos + 1))
    requires First(height - 1, 2 * pos) < |txids|
      && (2 * pos + 1 < Width(|m|, height - 1) ==> First(height - 1, 2 * pos + 1) < |txids|)
    ensures BuildBits(m, height, pos) == [true] + BuildBits(m, height - 1, 2 * pos)
              + (if 2 * pos + 1 < Width(|m|, height - 1) then BuildBits(m, height - 1, 2 * pos + 1) else [])
    ensures BuildHashes(combine, txids, m, height, pos) == BuildHashes(combine, txids, m, height - 1, 2 * pos)
              + (if 2 * pos + 1 < Width(|m|, height - 1) then BuildHashes(combine, txids, m, height - 1, 2 * pos + 1)
                 else [])
  {
    hide First, Width, CalcHash, AnyMatch;
  }

  /** What the traversal of a proof yields: failure, the node's hash, the cursors, the matches found. */
  datatype Out = Out(bad: bool, hash: Digest, b: nat, k: nat, index: seq<nat>, found: seq<Digest>)

  ghost function Traverse(combine: (Digest, Digest) -> Digest, n: nat, bits: seq<bool>, hashes: seq<Digest>,
      height: nat, pos: nat, b: nat, k: nat): Out
    decreases height
  {
    if b >= |bits| then Out(true, NULL_HASH, b, k, [], [])
    else if height == 0 || !bits[b] then
      if k >= |hashes| then Out(true, NULL_HASH, b + 1, k, [], [])
      else if height == 0 && bits[b] then Out(false, hashes[k], b + 1, k + 1, [pos], [hashes[k]])
      else Out(false, hashes[k], b + 1, k + 1, [], [])
    else
      var l := Traverse(combine, n, bits, hashes, height - 1, 2 * pos, b + 1, k);
      if 2 * pos + 1 < Width(n, height - 1) then
        var r := Traverse(combine, n, bits, hashes, height - 1, 2 * pos + 1, l.b, l.k);
        Out(l.bad || r.bad || r.hash == l.hash, combine(l.hash, r.hash), r.b, r.k, l.index + r.index, l.found + r.found)
      else
        Out(l.bad, combine(l.hash, l.hash), l.b, l.k, l.index, l.found)
  }

  class PartialMerkleTree {
    const combine: (Digest, Digest) -> Digest
    var nTransactions: nat
    var vBits: seq<bool>
    var vHash: seq<Digest>
    var fBad: bool

    /** A proof as it arrives from a peer. */
    constructor FromStream(combine: (Digest, Digest) -> Digest, nTransactions: nat, vHash: seq<Digest>,
        vBits: seq<bool>)
      ensures this.combine == combine && this.nTransactions == nTransactions && this.vHash == vHash
        && this.vBits == vBits && !fBad
    {
      this.combine, this.nTransactions, this.vHash, this.vBits, fBad := combine, nTransactions, vHash, vBits, false;
    }

    /** The proof of the transactions selected by a mask. */
    constructor Build(combine: (Digest, Digest) -> Digest, txids: seq<Digest>, m: seq<bool>)
      requires 0 < |txids| == |m| < TWO_32
      ensures this.combine == combine && nTransactions == |txids| && !fBad
      ensures exists height | IsHeight(|txids|, height) :: First(height, 0) < |txids| &&
                vBits == BuildBits(m, height, 0) && vHash == BuildHashes(combine, txids, m, height, 0)
    {
      this.combine, nTransactions, vBits, vHash, fBad := combine, |txids|, [], [], false;
      new;
      var height := TreeHeight(|txids|);
      TraverseAndBuild(height, 0, txids, m);
    }

    method TraverseAndBuild(height: nat, pos: nat, txids: seq<Digest>, m: seq<bool>)
      requires |m| == |txids| == nTransactions && First(height, pos) < |txids|
      modifies this`vBits, this`vHash
      ensures vBits == old(vBits) + BuildBits(m, height, pos)
      ensures vHash == old(vHash) + BuildHashes(combine, txids, m, height, pos)
      decreases height
    {
      hide CalcHash, First, Width, AnyMatch, BuildBits, BuildHashes;
      var parentOfMatch := false;
      var p := First(height, pos);
      NoMatchYet(m, p);
      FirstOrder(height, pos);
      while p < First(height, pos + 1) && p < nTransactions
        invariant First(height, pos) <= p <= First(height, pos + 1)
        invariant parentOfMatch <==> AnyMatch(m, First(height, pos), p)
        invariant vBits == old(vBits) && vHash == old(vHash)
        decreases nTransactions - p
      {
        MatchNext(m, First(height, pos), p);
        parentOfMatch := parentOfMatch || m[p];
        p := p + 1;
      }
      MatchDone(m, First(height, pos), p, First(height, pos + 1));
      vBits := vBits + [parentOfMatch];
      if height == 0 || !parentOfMatch {
        BuildLeaf(combine, txids, m, height, pos);
        var hash := NodeHash(height, pos, txids);
        vHash := vHash + [hash];
      } else {
        ChildrenOk(|txids|, height, pos);
        BuildInner(combine, txids, m, height, pos);
        TraverseAndBuild(height - 1, 2 * pos, txids, m);
        if 2 * pos + 1 < Width(nTransactions, height - 1) {
          TraverseAndBuild(height - 1, 2 * pos + 1, txids, m);
        }
        assert vBits == old(vBits) + BuildBits(m, height, pos);
        assert vHash == old(vHash) + BuildHashes(combine, txids, m, height, pos);
      }
    }

    method NodeHash(height: nat, pos: nat, txids: seq<Digest>) returns (hash: Digest)
      requires |txids| == nTransactions && First(height, pos) < |txids|
      ensures hash == CalcHash(combine, txids, height, pos)
      decreases height
    {
      hide First, Width, Pow2;
      FirstIs(height, pos);
      if height == 0 {
        return txids[pos];
      }
      ChildrenOk(|txids|, height, pos);
      var left := NodeHash(height - 1, 2 * pos, txids);
      var right := left;
      if 2 * pos + 1 < Width(nTransactions, height - 1) {
        right := NodeHash(height - 1, 2 * pos + 1, txids);
      }
      hash := combine(left, right);
    }

    method TraverseAndExtract(height: nat, pos: nat, b: nat, k: nat, vMatch: seq<Digest>, vnIndex: seq<nat>)
      returns (hash: Digest, b': nat, k': nat, vMatch': seq<Digest>, vnIndex': seq<nat>)
      modifies this`fBad
      ensures var out := Traverse(combine, nTransactions, vBits, vHash, height, pos, b, k);
              && fBad == (old(fBad) || out.bad) && hash == out.hash && b' == out.b && k' == out.k
              && vMatch' == vMatch + out.found && vnIndex' == vnIndex + out.index
      decreases height
    {
      hide Width, Traverse;
      TraverseIs(combine, nTransactions, vBits, vHash, height, pos, b, k);
      b', k', vMatch', vnIndex' := b, k, vMatch, vnIndex;
      if b >= |vBits| {
        fBad := true;
        return NULL_HASH, b', k', vMatch', vnIndex';
      }
      var parentOfMatch := vBits[b];
      b' := b' + 1;
      if height == 0 || !parentOfMatch {
        if k >= |vHash| {
          fBad := true;
          return NULL_HASH, b', k', vMatch', vnIndex';
        }
        hash := vHash[k];
        k' := k' + 1;
        if height == 0 && parentOfMatch {
          vMatch' := vMatch' + [hash];
          vnIndex' := vnIndex' + [pos];
        }
        return;
      }
      var left, right;
      ghost var l := Traverse(combine, nTransactions, vBits, vHash, height - 1, 2 * pos, b + 1, k);
      left, b', k', vMatch', vnIndex' := TraverseAndExtract(height - 1, 2 * pos, b', k', vMatch', vnIndex');
      if 2 * pos + 1 < Width(nTransactions, height - 1) {
        right, b', k', vMatch', vnIndex' := TraverseAndExtract(height - 1, 2 * pos + 1, b', k', vMatch', vnIndex');
        ghost var r := Traverse(combine, nTransactions, vBits, vHash, height - 1, 2 * pos + 1, l.b, l.k);
        assert vMatch + l.found + r.found == vMatch + (l.found + r.found);
        assert vnIndex + l.index + r.index == vnIndex + (l.index + r.index);
        if right == left {
          fBad := true;
        }
      } else {
        right := left;
      }
      hash := combine(left, right);
    }

    /** Checks the proof and collects its matches; the null hash is failure. The indices are appended to
        those already in the caller's vector. */
    method ExtractMatches(vnIndex: seq<nat>) returns (root: Digest, vMatch: seq<Digest>, vnIndex': seq<nat>)
      requires nTransactions < TWO_32
      modifies this`fBad
      ensures ExtractOk(old(fBad), combine, nTransactions, vBits, vHash, root, vMatch, vnIndex, vnIndex')
    {
      hide Width, Traverse;
      vMatch, vnIndex' := [], vnIndex;
      root := NULL_HASH;
      if nTransactions == 0 {
        return;
      }
      if |vHash| > nTransactions {
        return;
      }
      if |vBits| < |vHash| {
        return;
      }
      var height := TreeHeight(nTransactions);
      SameHeight(nTransactions, height);
      var hash, b, k;
      hash, b, k, vMatch, vnIndex' := TraverseAndExtract(height, 0, 0, 0, [], vnIndex);
      if fBad {
        return;
      }
      if (b + 7) / 8 != (|vBits| + 7) / 8 {
        return;
      }
      if k != |vHash| {
        return;
      }
      root := hash;
    }
  }

  /** One level of the traversal. */
  lemma TraverseIs(combine: (Digest, Digest) -> Digest, n: nat, bits: seq<bool>, hashes: seq<Digest>, height: nat,
      pos: nat, b: nat, k: nat)
    ensures Traverse(combine, n, bits, hashes, height, pos, b, k) ==
      if b >= |bits| then Out(true, NULL_HASH, b, k, [], [])
      else if height == 0 || !bits[b] then
        if k >= |hashes| then Out(true, NULL_HASH, b + 1, k, [], [])
        else if height == 0 && bits[b] then Out(false, hashes[k], b + 1, k + 1, [pos], [hashes[k]])
        else Out(false, hashes[k], b + 1, k + 1, [], [])
      else
        var l := Traverse(combine, n, bits, hashes, height - 1, 2 * pos, b + 1, k);
        if 2 * pos + 1 < Width(n, height - 1) then
          var r := Traverse(combine, n, bits, hashes, height - 1, 2 * pos + 1, l.b, l.k);
          Out(l.bad || r.bad || r.hash == l.hash, combine(l.hash, r.hash), r.b, r.k, l.index + r.index,
            l.found + r.found)
        else
          Out(l.bad, combine(l.hash, l.hash), l.b, l.k, l.index, l.found)
  {
    hide Width;
  }

  /** The tests that make a proof acceptable. */
  ghost predicate Accepted(wasBad: bool, n: nat, bits: seq<bool>, hashes: seq<Digest>, out: Out)
  {
    && n != 0 && |hashes| <= n && |hashes| <= |bits|
    && !wasBad && !out.bad && (out.b + 7) / 8 == (|bits| + 7) / 8 && out.k == |hashes|
  }

  /** Outcome of a check: the root and the matches of the traversal when accepted, else the null hash. */
  ghost predicate ExtractOk(wasBad: bool, combine: (Digest, Digest) -> Digest, n: nat, bits: seq<bool>,
      hashes: seq<Digest>,
                            root: Digest, vMatch: seq<Digest>, index0: seq<nat>, index: seq<nat>)
  {
    forall height | IsHeight(n, height) ::
      var out := Traverse(combine, n, bits, hashes, height, 0, 0, 0);
      if Accepted(wasBad, n, bits, hashes, out) then root == out.hash && vMatch == out.found
        && index == index0 + out.index
      else root == NULL_HASH
  }

  lemma SameHeight(n: nat, height: nat)
    requires IsHeight(n, height)
    ensures forall h: nat | IsHeight(n, h) :: h == height
  {
    hide Width;
  }

  lemma FirstOrder(height: nat, pos: nat)
    ensures First(height, pos) < First(height, pos + 1)
  {
    assert (pos + 1) * Pow2(height) == pos * Pow2(height) + Pow2(height);
  }

  lemma FirstIs(height: nat, pos: nat)
    ensures height == 0 ==> First(height, pos) == pos
  {
  }

  lemma NoMatchYet(m: seq<bool>, lo: nat)
    ensures !AnyMatch(m, lo, lo)
  {
  }

  lemma MatchNext(m: seq<bool>, lo: nat, p: nat)
    requires lo <= p < |m|
    ensures AnyMatch(m, lo, p + 1) <==> AnyMatch(m, lo, p) || m[p]
  {
  }

  lemma MatchDone(m: seq<bool>, lo: nat, p: nat, hi: nat)
    requires p <= hi && (p == hi || p >= |m|)
    ensures AnyMatch(m, lo, p) <==> AnyMatch(m, lo, hi)
  {
    if AnyMatch(m, lo, hi) {
      var x :| lo <= x < hi && x < |m| && m[x];
      assert x < p;
    }
  }

  // ---- Soundness ----------------------------------------------------------

  /** If a traversal ends without failure in the hash that the tree over some list has at this node,
      every match it found is that list's entry at that index. */
  lemma {:induction false} TraverseSound(combine: (Digest, Digest) -> Digest, txids: seq<Digest>, bits: seq<bool>,
      hashes: seq<Digest>,
                                         height: nat, pos: nat, b: nat, k: nat)
    requires Injective(combine) && First(height, pos) < |txids|
    requires var out := Traverse(combine, |txids|, bits, hashes, height, pos, b, k);
             !out.bad && out.hash == CalcHash(combine, txids, height, pos)
    ensures var out := Traverse(combine, |txids|, bits, hashes, height, pos, b, k);
            && |out.index| == |out.found|
            && forall i | 0 <= i < |out.index| :: out.index[i] < |txids| && out.found[i] == txids[out.index[i]]
    decreases height
  {
    hide Width, First, Traverse;
    TraverseIs(combine, |txids|, bits, hashes, height, pos, b, k);
    FirstIs(height, pos);
    if height > 0 && bits[b] {
      ChildrenOk(|txids|, height, pos);
      var l := Traverse(combine, |txids|, bits, hashes, height - 1, 2 * pos, b + 1, k);
      TraverseSound(combine, txids, bits, hashes, height - 1, 2 * pos, b + 1, k);
      if 2 * pos + 1 < Width(|txids|, height - 1) {
        TraverseSound(combine, txids, bits, hashes, height - 1, 2 * pos + 1, l.b, l.k);
      }
    }
  }

  /** A traversal that does not fail takes no notice of what follows the flags and hashes it reads. */
  lemma {:induction false} TraverseExtends(combine: (Digest, Digest) -> Digest, n: nat, bits: seq<bool>,
      hashes: seq<Digest>, moreBits: seq<bool>, moreHashes: seq<Digest>, height: nat, pos: nat, b: nat, k: nat)
    requires !Traverse(combine, n, bits, hashes, height, pos, b, k).bad
    ensures Traverse(combine, n, bits + moreBits, hashes + moreHashes, height, pos, b, k) ==
            Traverse(combine, n, bits, hashes, height, pos, b, k)
    decreases height
  {
    hide Width, Traverse;
    TraverseIs(combine, n, bits, hashes, height, pos, b, k);
    TraverseIs(combine, n, bits + moreBits, hashes + moreHashes, height, pos, b, k);
    if height > 0 && bits[b] {
      var l := Traverse(combine, n, bits, hashes, height - 1, 2 * pos, b + 1, k);
      TraverseExtends(combine, n, bits, hashes, moreBits, moreHashes, height - 1, 2 * pos, b + 1, k);
      if 2 * pos + 1 < Width(n, height - 1) {
        TraverseExtends(combine, n, bits, hashes, moreBits, moreHashes, height - 1, 2 * pos + 1, l.b, l.k);
      }
    }
  }

  /** An accepted proof has nothing to spare: it is not accepted with more hashes, nor with more flags than fill
      its last byte. */
  lemma NothingToSpare(combine: (Digest, Digest) -> Digest, n: nat, bits: seq<bool>, hashes: seq<Digest>,
      moreBits: seq<bool>, moreHashes: seq<Digest>, height: nat)
    requires Accepted(false, n, bits, hashes, Traverse(combine, n, bits, hashes, height, 0, 0, 0))
    ensures var out := Traverse(combine, n, bits + moreBits, hashes + moreHashes, height, 0, 0, 0);
      Accepted(false, n, bits + moreBits, hashes + moreHashes, out) ==>
        moreHashes == [] && (|bits| + |moreBits| + 7) / 8 == (|bits| + 7) / 8
    ensures |moreBits| >= 8 ==> (|bits| + |moreBits| + 7) / 8 != (|bits| + 7) / 8
  {
    hide Traverse;
    TraverseExtends(combine, n, bits, hashes, moreBits, moreHashes, height, 0, 0, 0);
  }

  /** Soundness of proofs: whatever bits and hashes a peer sends, if checking them yields the real and
      non-null root of the list, every extracted transaction really is at its index. */
  lemma ExtractSound(combine: (Digest, Digest) -> Digest, txids: seq<Digest>, bits: seq<bool>, hashes: seq<Digest>,
      wasBad: bool,
                     root: Digest, vMatch: seq<Digest>, index: seq<nat>, height: nat)
    requires Injective(combine) && 0 < |txids| < TWO_32 && IsHeight(|txids|, height) && First(height, 0) < |txids|
    requires ExtractOk(wasBad, combine, |txids|, bits, hashes, root, vMatch, [], index)
    requires root == CalcHash(combine, txids, height, 0) != NULL_HASH
    ensures |index| == |vMatch| && forall i | 0 <= i < |index| :: index[i] < |txids| && vMatch[i] == txids[index[i]]
  {
    hide Width, Traverse, CalcHash, First;
    TraverseSound(combine, txids, bits, hashes, height, 0, 0, 0);
    var out := Traverse(combine, |txids|, bits, hashes, height, 0, 0, 0);
    assert [] + out.index == out.index;
  }
}
