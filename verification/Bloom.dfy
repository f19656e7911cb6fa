/** The rolling bloom filter: two bits per position hold the generation that last set it. */
module Bloom {

  import opened Words

  // ---- Bits of a word -----------------------------------------------------

  /** The word with one bit replaced. */
  function Put(w: bv64, b: bv64, v: bv64): bv64
    requires b < 64 && v < 2
  {
    Or64(And64(w, Not64(Shifted(1, b))), Shifted(v, b))
  }

  lemma PutSet(w: bv64, b: bv64, v: bv64, c: bv64)
    requires b < 64 && v < 2 && c < 64
    ensures IsSet(Put(w, b, v), c) <==> if c == b then v == 1 else IsSet(w, c)
  {
    hide IsSet, And64, Or64, Not64, Shifted;
    OrSet(And64(w, Not64(Shifted(1, b))), Shifted(v, b), c);
    AndSet(w, Not64(Shifted(1, b)), c);
    NotSet(Shifted(1, b), c);
    ShiftedSet(1, b, c);
    ShiftedSet(v, b, c);
  }

  /** The cells of a word pair that do not hold the bits g1 and g2. */
  function Mask(p1: bv64, p2: bv64, g1: bv64, g2: bv64): bv64
  {
    Or64(Xor64(p1, Spread(g1)), Xor64(p2, Spread(g2)))
  }

  lemma MaskSet(p1: bv64, p2: bv64, g1: bv64, g2: bv64, c: bv64)
    requires c < 64 && g1 < 2 && g2 < 2
    ensures IsSet(Mask(p1, p2, g1, g2), c) <==> !((IsSet(p1, c) <==> g1 == 1) && (IsSet(p2, c) <==> g2 == 1))
  {
    hide IsSet, Or64, Xor64, Spread;
    OrSet(Xor64(p1, Spread(g1)), Xor64(p2, Spread(g2)), c);
    XorSet(p1, Spread(g1), c);
    XorSet(p2, Spread(g2), c);
    SpreadSet(g1, c);
    SpreadSet(g2, c);
  }

  // ---- Cells --------------------------------------------------------------

  type Key = seq<bv8>

  /** Position 64 * pair + bit, kept in bit `bit` of the words 2 * pair and 2 * pair + 1. */
  datatype Cell = Cell(pair: nat, bit: bv64)

  ghost predicate InRange(d: seq<bv64>, c: Cell)
  {
    2 * c.pair + 1 < |d| && c.bit < 64
  }

  /** The generation stamped into a cell, 0 for none. */
  ghost function Stamp(d: seq<bv64>, c: Cell): nat
    requires InRange(d, c)
  {
    (if IsSet(d[2 * c.pair], c.bit) then 1 else 0) + (if IsSet(d[2 * c.pair + 1], c.bit) then 2 else 0)
  }

  /** The bits of a generation number. */
  function LowBit(g: nat): (b: bv64) requires g < 4 ensures b < 2 { if g % 2 == 1 then 1 else 0 }
  function HighBit(g: nat): (b: bv64) requires g < 4 ensures b < 2 { if g >= 2 then 1 else 0 }

  type Word32 = x: nat | x < 0x1_0000_0000

  /** The share x / 2^32 of n, rounded down. */
  function FastMod(x: Word32, n: nat): (r: nat)
    ensures r * 0x1_0000_0000 <= x * n < (r + 1) * 0x1_0000_0000
    ensures n > 0 ==> r < n
  {
    FastModBound(x, n);
    x * n / 0x1_0000_0000
  }

  lemma FastModBound(x: Word32, n: nat)
    ensures n > 0 ==> x * n / 0x1_0000_0000 < n
  {
    assert n > 0 ==> x * n < 0x1_0000_0000 * n;
  }

  /** How many generations ago, of three, a stamp was set. */
  ghost function Age(now: nat, stamp: nat): nat
  {
    (now + 3 - stamp) % 3
  }

  ghost predicate StampedWithin(d: seq<bv64>, now: nat, c: Cell, age: nat)
    requires InRange(d, c)
  {
    Stamp(d, c) != 0 && Age(now, Stamp(d, c)) <= age
  }

  type Hash = (nat, nat, Key) -> bv32

  /** The cell of a hash value: the low six bits choose the bit, and the value's share of the words the pair. */
  function CellAt(h: bv32, len: nat): (c: Cell)
    requires len > 0 && len % 2 == 0
    ensures 2 * c.pair + 1 < len && c.bit < 64
  {
    Low6(h);
    Cell(FastMod(h as int, len) / 2, (h & 0x3f) as bv64)
  }

  lemma Low6(h: bv32)
    ensures (h & 0x3f) as bv64 < 64
  {
  }

  /** The cell of hash function n for a key. */
  function CellFor(hash: Hash, tweak: nat, len: nat, n: nat, key: Key): (c: Cell)
    requires len > 0 && len % 2 == 0
    ensures 2 * c.pair + 1 < len && c.bit < 64
  {
    CellAt(hash(n, tweak, key), len)
  }

  /** Two hash values have the same remainder by 64 and lie in the same of len / 2 equal parts of all values. */
  ghost predicate SamePlace(g: bv32, h: bv32, len: nat)
  {
    SameBit(g, h) && (g as int) * len / 0x2_0000_0000 == (h as int) * len / 0x2_0000_0000
  }

  ghost predicate SameBit(g: bv32, h: bv32)
  {
    g % 64 == h % 64
  }

  /** Hash values share a cell exactly when they have the same place. */
  lemma CellsShared(g: bv32, h: bv32, len: nat)
    requires len > 0 && len % 2 == 0
    ensures CellAt(g, len) == CellAt(h, len) <==> SamePlace(g, h, len)
  {
    hide SameBit, CellAt;
    PairOf(g, len);
    PairOf(h, len);
    BitOf(g, h, len);
  }

  lemma PairOf(h: bv32, len: nat)
    requires len > 0 && len % 2 == 0
    ensures CellAt(h, len).pair == (h as int) * len / 0x2_0000_0000
  {
    hide FastMod;
    HalfShare((h as int) * len, FastMod(h as int, len));
  }

  lemma HalfShare(x: nat, r: nat)
    requires r * 0x1_0000_0000 <= x < (r + 1) * 0x1_0000_0000
    ensures r / 2 == x / 0x2_0000_0000
  {
  }

  lemma BitOf(g: bv32, h: bv32, len: nat)
    requires len > 0 && len % 2 == 0
    ensures CellAt(g, len).bit == CellAt(h, len).bit <==> SameBit(g, h)
  {
    hide FastMod;
    RawBits(g, h);
  }

  lemma RawBits(g: bv32, h: bv32)
    ensures (g & 0x3f) as bv64 == (h & 0x3f) as bv64 <==> g % 64 == h % 64
  {
  }

  /** What does not change between resets. */
  datatype Setup = Setup(hash: Hash, tweak: nat, nHashFuncs: nat, perGeneration: nat)

  ghost predicate Even(d: seq<bv64>)
  {
    |d| > 0 && |d| % 2 == 0
  }

  /** Every cell of the key is stamped by a generation at most `age` back. */
  ghost predicate Kept(s: Setup, d: seq<bv64>, now: nat, key: Key, age: nat)
    requires Even(d)
  {
    forall n: nat | n < s.nHashFuncs :: StampedWithin(d, now, CellFor(s.hash, s.tweak, |d|, n, key), age)
  }

  ghost function NthLast(history: seq<Key>, k: nat): Key
    requires k < |history|
  {
    history[|history| - 1 - k]
  }

  /** The key is among the last m inserts. */
  ghost predicate Recent(history: seq<Key>, m: nat, key: Key)
  {
    exists k: nat :: k < |history| && k < m && NthLast(history, k) == key
  }

  /** How many generations back the k-th last insert lies. */
  ghost function Back(s: Setup, entries: nat, k: nat): nat
  {
    if k < entries then 0 else if k < entries + s.perGeneration then 1 else 2
  }

  /** The inserts of this generation and the two before it are kept. */
  ghost predicate Remembers(s: Setup, d: seq<bv64>, now: nat, entries: nat, history: seq<Key>)
    requires Even(d)
  {
    forall k: nat | k < |history| && k < entries + 2 * s.perGeneration ::
      Kept(s, d, now, NthLast(history, k), Back(s, entries, k))
  }

  // ---- Wiping -------------------------------------------------------------

  function Next(g: nat): nat
    requires 1 <= g <= 3
  {
    if g + 1 == 4 then 1 else g + 1
  }

  /** Cells stamped with g are cleared and no others change. */
  ghost predicate WipedOf(was: seq<bv64>, d: seq<bv64>, g: nat)
  {
    |d| == |was| && forall c | InRange(was, c) :: Stamp(d, c) == if Stamp(was, c) == g then 0 else Stamp(was, c)
  }

  ghost predicate PairWiped(was: seq<bv64>, d: seq<bv64>, g: nat, q: nat)
    requires g < 4 && 2 * q + 1 < |was| && |d| == |was|
  {
    var mask := Mask(was[2 * q], was[2 * q + 1], LowBit(g), HighBit(g));
    d[2 * q] == And64(was[2 * q], mask) && d[2 * q + 1] == And64(was[2 * q + 1], mask)
  }

  lemma PairStamp(was: seq<bv64>, d: seq<bv64>, g: nat, c: Cell)
    requires 1 <= g <= 3 && InRange(was, c) && |d| == |was| && PairWiped(was, d, g, c.pair)
    ensures Stamp(d, c) == if Stamp(was, c) == g then 0 else Stamp(was, c)
  {
    hide IsSet, And64, Mask;
    var p1, p2 := was[2 * c.pair], was[2 * c.pair + 1];
    var mask := Mask(p1, p2, LowBit(g), HighBit(g));
    MaskSet(p1, p2, LowBit(g), HighBit(g), c.bit);
    AndSet(p1, mask, c.bit);
    AndSet(p2, mask, c.bit);
  }

  method Wipe(data: array<bv64>, g: nat)
    requires data.Length % 2 == 0 && 1 <= g <= 3
    modifies data
    ensures WipedOf(old(data[..]), data[..], g)
  {
    hide And64, Mask, Stamp, LowBit, HighBit;
    ghost var was := data[..];
    var p := 0;
    while p < data.Length
      invariant p <= data.Length && p % 2 == 0
      invariant forall i | p <= i < data.Length :: data[i] == was[i]
      invariant forall q: nat | 2 * q + 1 < p :: PairWiped(was, data[..], g, q)
    {
      var p1, p2 := data[p], data[p + 1];
      var mask := Mask(p1, p2, LowBit(g), HighBit(g));
      ghost var before := data[..];
      data[p] := And64(p1, mask);
      data[p + 1] := And64(p2, mask);
      forall q: nat | 2 * q + 1 < p + 2 ensures PairWiped(was, data[..], g, q) {
        if 2 * q < p { assert PairWiped(was, before, g, q); }
      }
      p := p + 2;
    }
    forall c | InRange(was, c) ensures Stamp(data[..], c) == if Stamp(was, c) == g then 0 else Stamp(was, c) {
      assert PairWiped(was, data[..], g, c.pair);
      PairStamp(was, data[..], g, c);
    }
  }

  // ---- Marking ------------------------------------------------------------

  /** Some of the first m hash functions sends the key to the cell. */
  ghost predicate Hits(s: Setup, len: nat, m: nat, key: Key, c: Cell)
    requires len > 0 && len % 2 == 0
  {
    exists n: nat :: n < m && CellFor(s.hash, s.tweak, len, n, key) == c
  }

  /** The cells of the key, for the first m hash functions, are stamped with g and no others change. */
  ghost predicate MarkedBy(s: Setup, was: seq<bv64>, d: seq<bv64>, g: nat, m: nat, key: Key)
    requires Even(was)
  {
    |d| == |was| && forall c | InRange(was, c) :: Stamp(d, c) == if Hits(s, |was|, m, key, c) then g else Stamp(was, c)
  }

  lemma PutStamp(was: seq<bv64>, g: nat, c: Cell, e: Cell)
    requires 1 <= g <= 3 && InRange(was, c) && InRange(was, e)
    ensures var d := was[2 * c.pair := Put(was[2 * c.pair], c.bit, LowBit(g))]
        [2 * c.pair + 1 := Put(was[2 * c.pair + 1], c.bit, HighBit(g))];
      Stamp(d, e) == if e == c then g else Stamp(was, e)
  {
    hide IsSet, Put;
    PutSet(was[2 * c.pair], c.bit, LowBit(g), e.bit);
    PutSet(was[2 * c.pair + 1], c.bit, HighBit(g), e.bit);
  }

  lemma MarkOne(s: Setup, was: seq<bv64>, before: seq<bv64>, d: seq<bv64>, g: nat, n: nat, key: Key)
    requires Even(was) && 1 <= g <= 3 && MarkedBy(s, was, before, g, n, key)
    requires var c := CellFor(s.hash, s.tweak, |was|, n, key);
      d == before[2 * c.pair := Put(before[2 * c.pair], c.bit, LowBit(g))]
        [2 * c.pair + 1 := Put(before[2 * c.pair + 1], c.bit, HighBit(g))]
    ensures MarkedBy(s, was, d, g, n + 1, key)
  {
    hide IsSet, Put, Stamp, LowBit, HighBit, CellFor;
    var c := CellFor(s.hash, s.tweak, |was|, n, key);
    forall e | InRange(was, e) ensures Stamp(d, e) == if Hits(s, |was|, n + 1, key, e) then g else Stamp(was, e) {
      PutStamp(before, g, c, e);
      assert Hits(s, |was|, n + 1, key, e) <==> e == c || Hits(s, |was|, n, key, e);
    }
  }

  method Mark(data: array<bv64>, s: Setup, g: nat, key: Key)
    requires Even(data[..]) && 1 <= g <= 3
    modifies data
    ensures MarkedBy(s, old(data[..]), data[..], g, s.nHashFuncs, key)
  {
    hide IsSet, Put, Stamp, LowBit, HighBit, CellFor, MarkedBy;
    ghost var was := data[..];
    MarkNone(s, was, g, key);
    for n := 0 to s.nHashFuncs
      invariant MarkedBy(s, was, data[..], g, n, key)
    {
      var c := CellFor(s.hash, s.tweak, data.Length, n, key);
      ghost var before := data[..];
      data[2 * c.pair] := Put(data[2 * c.pair], c.bit, LowBit(g));
      data[2 * c.pair + 1] := Put(data[2 * c.pair + 1], c.bit, HighBit(g));
      MarkOne(s, was, before, data[..], g, n, key);
    }
  }

  lemma MarkNone(s: Setup, was: seq<bv64>, g: nat, key: Key)
    requires Even(was)
    ensures MarkedBy(s, was, was, g, 0, key)
  {
    hide Stamp, CellFor;
  }

  // ---- What rotating and marking keep -------------------------------------

  lemma MarkKeeps(s: Setup, was: seq<bv64>, d: seq<bv64>, g: nat, key: Key, age: nat, added: Key)
    requires Even(was) && |d| == |was| && 1 <= g <= 3 && MarkedBy(s, was, d, g, s.nHashFuncs, added)
      && Kept(s, was, g, key, age)
    ensures Kept(s, d, g, key, age)
  {
    hide Stamp, CellFor;
    forall n: nat | n < s.nHashFuncs ensures StampedWithin(d, g, CellFor(s.hash, s.tweak, |d|, n, key), age) {
      var c := CellFor(s.hash, s.tweak, |d|, n, key);
      assert StampedWithin(was, g, c, age) && InRange(was, c);
    }
  }

  lemma KeptNow(s: Setup, was: seq<bv64>, d: seq<bv64>, g: nat, key: Key)
    requires Even(was) && |d| == |was| && 1 <= g <= 3 && MarkedBy(s, was, d, g, s.nHashFuncs, key)
    ensures Kept(s, d, g, key, 0)
  {
    hide Stamp, CellFor;
    forall n: nat | n < s.nHashFuncs ensures StampedWithin(d, g, CellFor(s.hash, s.tweak, |d|, n, key), 0) {
      var c := CellFor(s.hash, s.tweak, |d|, n, key);
      assert InRange(was, c) && Hits(s, |was|, s.nHashFuncs, key, c);
    }
  }

  lemma WipeKeeps(s: Setup, was: seq<bv64>, d: seq<bv64>, g: nat, key: Key, age: nat)
    requires Even(was) && |d| == |was| && 1 <= g <= 3 && WipedOf(was, d, Next(g)) && Kept(s, was, g, key, age)
      && age <= 1
    ensures Kept(s, d, Next(g), key, age + 1)
  {
    hide Stamp, CellFor;
    forall n: nat | n < s.nHashFuncs ensures StampedWithin(d, Next(g), CellFor(s.hash, s.tweak, |d|, n, key), age + 1) {
      var c := CellFor(s.hash, s.tweak, |d|, n, key);
      assert StampedWithin(was, g, c, age) && InRange(was, c);
      StampRange(was, c);
    }
  }

  lemma StampRange(d: seq<bv64>, c: Cell)
    requires InRange(d, c)
    ensures Stamp(d, c) <= 3
  {
  }

  /** A full generation becomes the one before; what is two back then is dropped from the promise. */
  lemma Rotated(s: Setup, was: seq<bv64>, d: seq<bv64>, g: nat, history: seq<Key>)
    requires Even(was) && |d| == |was| && 1 <= g <= 3 && WipedOf(was, d, Next(g))
    requires Remembers(s, was, g, s.perGeneration, history)
    ensures Remembers(s, d, Next(g), 0, history)
  {
    hide Kept, WipedOf, Next;
    forall k: nat | k < |history| && k < 2 * s.perGeneration
      ensures Kept(s, d, Next(g), NthLast(history, k), Back(s, 0, k))
    {
      WipeKeeps(s, was, d, g, NthLast(history, k), Back(s, s.perGeneration, k));
    }
  }

  lemma Marked(s: Setup, was: seq<bv64>, d: seq<bv64>, g: nat, entries: nat, history: seq<Key>, key: Key)
    requires Even(was) && |d| == |was| && 1 <= g <= 3 && MarkedBy(s, was, d, g, s.nHashFuncs, key)
    requires Remembers(s, was, g, entries, history)
    ensures Remembers(s, d, g, entries + 1, history + [key])
  {
    hide Kept, MarkedBy;
    var now := history + [key];
    KeptNow(s, was, d, g, key);
    forall k: nat | k < |now| && k < entries + 1 + 2 * s.perGeneration
      ensures Kept(s, d, g, NthLast(now, k), Back(s, entries + 1, k))
    {
      if k > 0 {
        assert NthLast(now, k) == NthLast(history, k - 1);
        MarkKeeps(s, was, d, g, NthLast(history, k - 1), Back(s, entries, k - 1), key);
      }
    }
  }

  // ---- What is forgotten --------------------------------------------------

  /** The k-th last insert is within the promise, lies `age` generations back and hits the cell. */
  ghost predicate Source(s: Setup, len: nat, entries: nat, history: seq<Key>, k: nat, age: nat, c: Cell)
    requires len > 0 && len % 2 == 0
  {
    && k < |history| && k < entries + 2 * s.perGeneration && Back(s, entries, k) == age
    && Hits(s, len, s.nHashFuncs, NthLast(history, k), c)
  }

  ghost predicate Traced(s: Setup, len: nat, entries: nat, history: seq<Key>, age: nat, c: Cell)
    requires len > 0 && len % 2 == 0
  {
    exists k: nat :: Source(s, len, entries, history, k, age, c)
  }

  /** A stamped cell was hit by an insert that the promise still covers. */
  ghost predicate Forgets(s: Setup, d: seq<bv64>, now: nat, entries: nat, history: seq<Key>)
    requires Even(d)
  {
    forall c | InRange(d, c) && Stamp(d, c) != 0 ::
      Traced(s, |d|, entries, history, Age(now, Stamp(d, c)), c)
  }

  lemma RotatedForgets(s: Setup, was: seq<bv64>, d: seq<bv64>, g: nat, history: seq<Key>)
    requires Even(was) && |d| == |was| && 1 <= g <= 3 && WipedOf(was, d, Next(g))
    requires Forgets(s, was, g, s.perGeneration, history)
    ensures Forgets(s, d, Next(g), 0, history)
  {
    hide Stamp, Hits;
    forall c | InRange(d, c) && Stamp(d, c) != 0
      ensures Traced(s, |d|, 0, history, Age(Next(g), Stamp(d, c)), c)
    {
      assert InRange(was, c);
      StampRange(was, c);
      var k: nat :| Source(s, |was|, s.perGeneration, history, k, Age(g, Stamp(was, c)), c);
      assert Source(s, |d|, 0, history, k, Age(Next(g), Stamp(d, c)), c);
    }
  }

  lemma MarkedForgets(s: Setup, was: seq<bv64>, d: seq<bv64>, g: nat, entries: nat, history: seq<Key>, key: Key)
    requires Even(was) && |d| == |was| && 1 <= g <= 3 && MarkedBy(s, was, d, g, s.nHashFuncs, key)
    requires Forgets(s, was, g, entries, history)
    ensures Forgets(s, d, g, entries + 1, history + [key])
  {
    hide Stamp, Hits;
    var now := history + [key];
    forall c | InRange(d, c) && Stamp(d, c) != 0
      ensures Traced(s, |d|, entries + 1, now, Age(g, Stamp(d, c)), c)
    {
      assert InRange(was, c);
      if Hits(s, |was|, s.nHashFuncs, key, c) {
        assert NthLast(now, 0) == key;
        assert Source(s, |d|, entries + 1, now, 0, Age(g, Stamp(d, c)), c);
      } else {
        var k: nat :| Source(s, |was|, entries, history, k, Age(g, Stamp(was, c)), c);
        assert NthLast(now, k + 1) == NthLast(history, k);
        assert Source(s, |d|, entries + 1, now, k + 1, Age(g, Stamp(d, c)), c);
      }
    }
  }

  /** An insert that the promise covers hits the cell. */
  ghost predicate Covered(s: Setup, len: nat, entries: nat, history: seq<Key>, c: Cell)
    requires len > 0 && len % 2 == 0
  {
    exists k: nat :: k < |history| && k < entries + 2 * s.perGeneration
      && Hits(s, len, s.nHashFuncs, NthLast(history, k), c)
  }

  /** An insert that the promise covers has a hash value at the place of h. */
  ghost predicate Reached(s: Setup, len: nat, entries: nat, history: seq<Key>, h: bv32)
  {
    exists k: nat, m: nat :: k < |history| && k < entries + 2 * s.perGeneration && m < s.nHashFuncs
      && SamePlace(s.hash(m, s.tweak, NthLast(history, k)), h, len)
  }

  lemma CoveredIsReached(s: Setup, len: nat, entries: nat, history: seq<Key>, n: nat, key: Key)
    requires len > 0 && len % 2 == 0
    ensures Covered(s, len, entries, history, CellFor(s.hash, s.tweak, len, n, key)) <==>
              Reached(s, len, entries, history, s.hash(n, s.tweak, key))
  {
    hide CellAt, SamePlace;
    var h, c := s.hash(n, s.tweak, key), CellFor(s.hash, s.tweak, len, n, key);
    forall k: nat, m: nat | k < |history| && k < entries + 2 * s.perGeneration && m < s.nHashFuncs
      ensures CellFor(s.hash, s.tweak, len, m, NthLast(history, k)) == c <==>
                SamePlace(s.hash(m, s.tweak, NthLast(history, k)), h, len)
    {
      CellsShared(s.hash(m, s.tweak, NthLast(history, k)), h, len);
    }
    if Covered(s, len, entries, history, c) {
      var k: nat :| k < |history| && k < entries + 2 * s.perGeneration
        && Hits(s, len, s.nHashFuncs, NthLast(history, k), c);
      var m: nat :| m < s.nHashFuncs && CellFor(s.hash, s.tweak, len, m, NthLast(history, k)) == c;
      assert SamePlace(s.hash(m, s.tweak, NthLast(history, k)), h, len);
    }
    if Reached(s, len, entries, history, h) {
      var k: nat, m: nat :| k < |history| && k < entries + 2 * s.perGeneration && m < s.nHashFuncs
        && SamePlace(s.hash(m, s.tweak, NthLast(history, k)), h, len);
      assert Hits(s, len, s.nHashFuncs, NthLast(history, k), c);
    }
  }

  /** A cell is stamped exactly when an insert that the promise covers hits it. */
  lemma StampedIsCovered(s: Setup, d: seq<bv64>, now: nat, entries: nat, history: seq<Key>, c: Cell)
    requires Even(d) && InRange(d, c) && Remembers(s, d, now, entries, history) && Forgets(s, d, now, entries, history)
    ensures Stamp(d, c) != 0 <==> Covered(s, |d|, entries, history, c)
  {
    hide Stamp, Age, CellFor;
    if Stamp(d, c) != 0 {
      var k: nat :| Source(s, |d|, entries, history, k, Age(now, Stamp(d, c)), c);
      assert Hits(s, |d|, s.nHashFuncs, NthLast(history, k), c);
    }
    if Covered(s, |d|, entries, history, c) {
      var k: nat :| k < |history| && k < entries + 2 * s.perGeneration
        && Hits(s, |d|, s.nHashFuncs, NthLast(history, k), c);
      assert Kept(s, d, now, NthLast(history, k), Back(s, entries, k));
      var n: nat :| n < s.nHashFuncs && CellFor(s.hash, s.tweak, |d|, n, NthLast(history, k)) == c;
      assert StampedWithin(d, now, c, Back(s, entries, k));
    }
  }

  // ---- The filter ---------------------------------------------------------

  class RollingBloomFilter {
    const hash: Hash
    const nHashFuncs: nat
    /** The number of elements asked for. */
    ghost const nElements: nat
    const nEntriesPerGeneration: nat
    const data: array<bv64>
    var nEntriesThisGeneration: nat
    var nGeneration: nat
    var nTweak: nat
    /** Everything inserted since the last reset. */
    ghost var history: seq<Key>

    function Current(): Setup
      reads this`nTweak
    {
      Setup(hash, nTweak, nHashFuncs, nEntriesPerGeneration)
    }

    ghost predicate Valid()
      reads this, data
    {
      && Even(data[..]) && 1 <= nGeneration <= 3 && nEntriesPerGeneration == (nElements + 1) / 2
      && Remembers(Current(), data[..], nGeneration, nEntriesThisGeneration, history)
      && Forgets(Current(), data[..], nGeneration, nEntriesThisGeneration, history)
    }

    constructor (h: Hash, elements: nat, hashFuncs: nat, words: nat, tweak: nat)
      requires words > 0 && words % 2 == 0
      ensures Valid() && history == [] && nElements == elements && data.Length == words
      ensures hash == h && nHashFuncs == hashFuncs && fresh(data)
      ensures nTweak == tweak && nEntriesThisGeneration == 0 && nGeneration == 1
    {
      hash, nHashFuncs, nElements, nEntriesPerGeneration := h, hashFuncs, elements, (elements + 1) / 2;
      data := new bv64[words](_ => 0);
      nEntriesThisGeneration, nGeneration, nTweak, history := 0, 1, tweak, [];
      new;
      AllZero(Current(), data[..]);
    }

    method Insert(key: Key)
      requires Valid()
      modifies this, data
      ensures Valid() && history == old(history) + [key] && nTweak == old(nTweak)
      ensures var full := old(nEntriesThisGeneration) == nEntriesPerGeneration;
              && nEntriesThisGeneration == (if full then 1 else old(nEntriesThisGeneration) + 1)
              && nGeneration == (if full then Next(old(nGeneration)) else old(nGeneration))
    {
      hide Remembers, Forgets, MarkedBy, WipedOf, Kept, Next;
      var s := Current();
      if nEntriesThisGeneration == nEntriesPerGeneration {
        ghost var was := data[..];
        nEntriesThisGeneration := 0;
        NextRange(nGeneration);
        nGeneration := Next(nGeneration);
        Wipe(data, nGeneration);
        SameLength(was, data[..], nGeneration);
        Rotated(s, was, data[..], old(nGeneration), history);
        RotatedForgets(s, was, data[..], old(nGeneration), history);
      }
      nEntriesThisGeneration := nEntriesThisGeneration + 1;
      ghost var before := data[..];
      Mark(data, s, nGeneration, key);
      Marked(s, before, data[..], nGeneration, nEntriesThisGeneration - 1, history, key);
      MarkedForgets(s, before, data[..], nGeneration, nEntriesThisGeneration - 1, history, key);
      history := history + [key];
    }

    /** Whether each hash value of the key has the place of a hash value of one of the inserts of this generation
        and the two before it; so it is when the key itself is among them. */
    method Contains(key: Key) returns (r: bool)
      requires Valid()
      ensures r <==> forall n: nat | n < nHashFuncs ::
                Reached(Current(), data.Length, nEntriesThisGeneration, history, hash(n, nTweak, key))
      ensures Recent(history, nEntriesThisGeneration + 2 * nEntriesPerGeneration, key) ==> r
      ensures Recent(history, nElements, key) ==> r
    {
      hide IsSet, Or64, Stamp, Age, CellFor, Remembers, Forgets, Covered, Reached;
      ghost var d, s := data[..], Current();
      forall n: nat | n < nHashFuncs
        ensures Covered(s, |d|, nEntriesThisGeneration, history, CellFor(hash, nTweak, |d|, n, key)) <==>
                  Reached(s, |d|, nEntriesThisGeneration, history, hash(n, nTweak, key))
      {
        CoveredIsReached(s, |d|, nEntriesThisGeneration, history, n, key);
      }
      OwnCells(s, data.Length, nEntriesThisGeneration, history, key);
      for n := 0 to nHashFuncs
        invariant forall m: nat | m < n ::
          Covered(s, |d|, nEntriesThisGeneration, history, CellFor(hash, nTweak, |d|, m, key))
      {
        var c := CellFor(hash, nTweak, data.Length, n, key);
        OrSet(data[2 * c.pair], data[2 * c.pair + 1], c.bit);
        StampSet(d, c);
        StampedIsCovered(s, d, nGeneration, nEntriesThisGeneration, history, c);
        if !IsSet(Or64(data[2 * c.pair], data[2 * c.pair + 1]), c.bit) {
          return false;
        }
      }
      return true;
    }

    method Reset(tweak: nat)
      requires Valid()
      modifies this, data
      ensures Valid() && history == [] && nTweak == tweak && nEntriesThisGeneration == 0 && nGeneration == 1
      ensures forall i | 0 <= i < data.Length :: data[i] == 0
    {
      hide IsSet, CellFor;
      nTweak, nEntriesThisGeneration, nGeneration, history := tweak, 0, 1, [];
      for i := 0 to data.Length
        invariant forall j | 0 <= j < i :: data[j] == 0
        invariant nTweak == tweak && nEntriesThisGeneration == 0 && nGeneration == 1 && history == []
      {
        data[i] := 0;
      }
      AllZero(Current(), data[..]);
    }
  }

  lemma NextRange(g: nat)
    requires 1 <= g <= 3
    ensures 1 <= Next(g) <= 3
  {
  }

  lemma SameLength(was: seq<bv64>, d: seq<bv64>, g: nat)
    requires WipedOf(was, d, g)
    ensures |d| == |was|
  {
  }

  lemma StampSet(d: seq<bv64>, c: Cell)
    requires InRange(d, c)
    ensures Stamp(d, c) != 0 <==> IsSet(d[2 * c.pair], c.bit) || IsSet(d[2 * c.pair + 1], c.bit)
  {
  }

  lemma ZeroUnset(b: bv64)
    requires b < 64
    ensures !IsSet(0, b)
  {
  }

  lemma AllZero(s: Setup, d: seq<bv64>)
    requires Even(d) && forall i | 0 <= i < |d| :: d[i] == 0
    ensures Remembers(s, d, 1, 0, []) && Forgets(s, d, 1, 0, [])
  {
    hide IsSet, CellFor;
    forall c | InRange(d, c) ensures Stamp(d, c) == 0 { ZeroUnset(c.bit); }
  }

  /** A key within the promise covers its own cells. */
  lemma OwnCells(s: Setup, len: nat, entries: nat, history: seq<Key>, key: Key)
    requires len > 0 && len % 2 == 0
    ensures Recent(history, entries + 2 * s.perGeneration, key) ==>
      forall n: nat | n < s.nHashFuncs :: Covered(s, len, entries, history, CellFor(s.hash, s.tweak, len, n, key))
  {
    hide CellFor;
    if Recent(history, entries + 2 * s.perGeneration, key) {
      var k: nat :| k < |history| && k < entries + 2 * s.perGeneration && NthLast(history, k) == key;
      forall n: nat | n < s.nHashFuncs
        ensures Covered(s, len, entries, history, CellFor(s.hash, s.tweak, len, n, key))
      {
        assert Hits(s, len, s.nHashFuncs, NthLast(history, k), CellFor(s.hash, s.tweak, len, n, key));
      }
    }
  }
}
