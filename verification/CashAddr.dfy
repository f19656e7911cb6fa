/** CashAddr strings: a prefix, a payload of 5-bit symbols and a checksum over GF(32), as in the
    section "Checksum" of the CashAddr specification. */
module CashAddr {
  import opened Words

  /** A byte that holds a 5-bit symbol. */
  type Sym = bv8

  const LIMIT_40: bv64 := 0x100_0000_0000
  const LIMIT_35: bv64 := 0x8_0000_0000

  // ---- The checksum polynomial --------------------------------------------

  function Xor8(a: Sym, b: Sym): Sym { a ^ b }
  function Wide(d: Sym): bv64 { d as bv64 }
  function Top5(c: bv64): bv64 { c >> 35 }
  function Shift5(c: bv64): bv64 { (c & 0x07ffffffff) << 5 }

  function Term(c0: bv64, mask: bv64, k: bv64): bv64
  {
    if Meets(c0, mask) then k else 0
  }

  /** The multiple of the generator to add for the five bits shifted out. */
  function Generator(c0: bv64): bv64
  {
    Xor64(Xor64(Xor64(Xor64(Term(c0, 1, 0x98f2bc8e61), Term(c0, 2, 0x79b76d99e2)), Term(c0, 4, 0xf33e5fb3c4)),
      Term(c0, 8, 0xae2eabe2a8)), Term(c0, 16, 0x1e4f43e470))
  }

  function PolyStep(c: bv64, d: Sym): bv64
  {
    Xor64(Xor64(Shift5(c), Wide(d)), Generator(Top5(c)))
  }

  function Fold(c: bv64, v: seq<Sym>): bv64
    decreases |v|
  {
    if v == [] then c else Fold(PolyStep(c, v[0]), v[1..])
  }

  /** The remainder that a valid string has as 0. */
  function PolyModOf(v: seq<Sym>): bv64
  {
    Xor64(Fold(1, v), 1)
  }

  method PolyMod(v: seq<Sym>) returns (r: bv64)
    ensures r == PolyModOf(v)
  {
    hide Xor64, Generator, Shift5, Wide, Top5;
    var c: bv64 := 1;
    assert v[0..] == v;
    for i := 0 to |v|
      invariant Fold(c, v[i..]) == Fold(1, v)
    {
      var c0 := Top5(c);
      ghost var was := c;
      c := Xor64(Shift5(c), Wide(v[i]));
      c := Xor64(c, Generator(c0));
      assert c == PolyStep(was, v[i]);
      assert v[i..][1..] == v[i + 1..];
    }
    r := Xor64(c, 1);
  }

  // Linearity of one step, from small facts about words.

  lemma MaskBit(a: bv64, mask: bv64)
    requires mask == 1 || mask == 2 || mask == 4 || mask == 8 || mask == 16
    ensures Single(a, mask)
  {
  }

  lemma XorOfTwo(k: bv64)
    ensures Xor64(k, k) == 0 && Xor64(k, 0) == k && Xor64(0, k) == k
  {
  }

  lemma TermLinear(a: bv64, b: bv64, mask: bv64, k: bv64)
    requires mask == 1 || mask == 2 || mask == 4 || mask == 8 || mask == 16
    ensures Term(Xor64(a, b), mask, k) == Xor64(Term(a, mask, k), Term(b, mask, k))
  {
    hide Meets, Xor64, Single;
    MaskBit(a, mask);
    MaskBit(b, mask);
    XorMeets(a, b, mask);
    XorOfTwo(k);
    XorOfTwo(0);
  }

  lemma XorPairs(a: bv64, a': bv64, b: bv64, b': bv64)
    ensures Xor64(Xor64(a, a'), Xor64(b, b')) == Xor64(Xor64(a, b), Xor64(a', b'))
  {
    calc {
      Xor64(Xor64(a, a'), Xor64(b, b'));
      Xor64(a ^ a', b ^ b');
      (a ^ a') ^ (b ^ b');
      (a ^ b) ^ (a' ^ b');
      Xor64(a ^ b, a' ^ b');
      Xor64(Xor64(a, b), Xor64(a', b'));
    }
  }

  lemma ShiftXor(a: bv64, b: bv64)
    ensures Top5(Xor64(a, b)) == Xor64(Top5(a), Top5(b))
    ensures Shift5(Xor64(a, b)) == Xor64(Shift5(a), Shift5(b))
  {
  }

  lemma CastXor(a: Sym, b: Sym)
    ensures Wide(Xor8(a, b)) == Xor64(Wide(a), Wide(b))
  {
  }

  lemma GeneratorLinear(a: bv64, b: bv64)
    ensures Generator(Xor64(a, b)) == Xor64(Generator(a), Generator(b))
  {
    hide Term, Xor64;
    TermLinear(a, b, 1, 0x98f2bc8e61);
    TermLinear(a, b, 2, 0x79b76d99e2);
    TermLinear(a, b, 4, 0xf33e5fb3c4);
    TermLinear(a, b, 8, 0xae2eabe2a8);
    TermLinear(a, b, 16, 0x1e4f43e470);
    var a1, a2, a3 := Term(a, 1, 0x98f2bc8e61), Term(a, 2, 0x79b76d99e2), Term(a, 4, 0xf33e5fb3c4);
    var a4, a5 := Term(a, 8, 0xae2eabe2a8), Term(a, 16, 0x1e4f43e470);
    var b1, b2, b3 := Term(b, 1, 0x98f2bc8e61), Term(b, 2, 0x79b76d99e2), Term(b, 4, 0xf33e5fb3c4);
    var b4, b5 := Term(b, 8, 0xae2eabe2a8), Term(b, 16, 0x1e4f43e470);
    XorPairs(a1, b1, a2, b2);
    XorPairs(Xor64(a1, a2), Xor64(b1, b2), a3, b3);
    XorPairs(Xor64(Xor64(a1, a2), a3), Xor64(Xor64(b1, b2), b3), a4, b4);
    XorPairs(Xor64(Xor64(Xor64(a1, a2), a3), a4), Xor64(Xor64(Xor64(b1, b2), b3), b4), a5, b5);
  }

  lemma StepLinear(c1: bv64, d1: Sym, c2: bv64, d2: Sym)
    ensures PolyStep(Xor64(c1, c2), Xor8(d1, d2)) == Xor64(PolyStep(c1, d1), PolyStep(c2, d2))
  {
    hide Generator, Xor64, Xor8, Wide, Top5, Shift5;
    ShiftXor(c1, c2);
    CastXor(d1, d2);
    GeneratorLinear(Top5(c1), Top5(c2));
    XorPairs(Shift5(c1), Shift5(c2), Wide(d1), Wide(d2));
    XorPairs(Xor64(Shift5(c1), Wide(d1)), Xor64(Shift5(c2), Wide(d2)), Generator(Top5(c1)), Generator(Top5(c2)));
  }

  lemma StepBound(c: bv64, d: Sym)
    requires c < LIMIT_40 && d < 32
    ensures PolyStep(c, d) < LIMIT_40
  {
  }

  lemma OnlyZeroVanishes(c: bv64)
    requires c < LIMIT_40 && PolyStep(c, 0) == 0
    ensures c == 0
  {
  }

  /** A step loses nothing: different 40-bit states stay different under the same symbol. */
  lemma StepInjective(c1: bv64, c2: bv64, d: Sym)
    requires c1 < LIMIT_40 && c2 < LIMIT_40 && PolyStep(c1, d) == PolyStep(c2, d)
    ensures c1 == c2
  {
    hide PolyStep, Xor64, Xor8;
    StepLinear(c1, d, c2, d);
    Xor8Same(d);
    XorSame(PolyStep(c1, d));
    Xor64Bound(c1, c2);
    OnlyZeroVanishes(Xor64(c1, c2));
    Xor64Zero(c1, c2);
  }

  lemma Xor64Bound(x: bv64, y: bv64)
    requires x < LIMIT_40 && y < LIMIT_40
    ensures Xor64(x, y) < LIMIT_40
  {
  }

  lemma Xor64Zero(x: bv64, y: bv64)
    ensures Xor64(x, y) == 0 ==> x == y
  {
  }

  lemma StepShifts(c: bv64, d: Sym)
    requires c < LIMIT_35 && d < 32
    ensures PolyStep(c, d) == (c << 5) | (d as bv64)
    ensures PolyStep(c, d) == 0 <==> c == 0 && d == 0
  {
  }

  /** While the top five bits are clear a step only shifts the symbol in. */
  lemma StepShort(c: bv64, d: Sym)
    requires c < LIMIT_35 && d < 32
    ensures PolyStep(c, d) == Append(c, d)
    ensures PolyStep(c, d) == 0 <==> c == 0 && d == 0
  {
    hide PolyStep;
    StepShifts(c, d);
  }

  lemma StepZero()
    ensures PolyStep(0, 0) == 0
  {
  }

  // ---- Runs over whole strings --------------------------------------------

  ghost predicate Symbols(v: seq<Sym>)
  {
    forall i | 0 <= i < |v| :: v[i] < 32
  }

  ghost function Xor(a: seq<Sym>, b: seq<Sym>): seq<Sym>
    requires |a| == |b|
  {
    seq(|a|, i requires 0 <= i < |a| => Xor8(a[i], b[i]))
  }

  lemma {:induction false} FoldLinear(c1: bv64, a: seq<Sym>, c2: bv64, b: seq<Sym>)
    requires |a| == |b|
    ensures Fold(Xor64(c1, c2), Xor(a, b)) == Xor64(Fold(c1, a), Fold(c2, b))
    decreases |a|
  {
    hide PolyStep, Xor64, Xor8;
    if a != [] {
      StepLinear(c1, a[0], c2, b[0]);
      assert Xor(a, b)[1..] == Xor(a[1..], b[1..]);
      FoldLinear(PolyStep(c1, a[0]), a[1..], PolyStep(c2, b[0]), b[1..]);
    }
  }

  lemma {:induction false} FoldConcat(c: bv64, a: seq<Sym>, b: seq<Sym>)
    ensures Fold(c, a + b) == Fold(Fold(c, a), b)
    decreases |a|
  {
    hide PolyStep;
    if a == [] {
      assert a + b == b;
    } else {
      assert (a + b)[1..] == a[1..] + b;
      FoldConcat(PolyStep(c, a[0]), a[1..], b);
    }
  }

  lemma {:induction false} FoldBound(c: bv64, v: seq<Sym>)
    requires c < LIMIT_40 && Symbols(v)
    ensures Fold(c, v) < LIMIT_40
    decreases |v|
  {
    hide PolyStep;
    if v != [] {
      StepBound(c, v[0]);
      FoldBound(PolyStep(c, v[0]), v[1..]);
    }
  }

  ghost predicate Zeros(v: seq<Sym>)
  {
    forall i | 0 <= i < |v| :: v[i] == 0
  }

  lemma {:induction false} FoldZeros(c: bv64, v: seq<Sym>)
    requires c < LIMIT_40 && Zeros(v)
    ensures Fold(c, v) == 0 <==> c == 0
    decreases |v|
  {
    hide PolyStep;
    if v != [] {
      StepBound(c, 0);
      StepZero();
      if c != 0 && PolyStep(c, 0) == 0 {
        OnlyZeroVanishes(c);
      }
      FoldZeros(PolyStep(c, 0), v[1..]);
    }
  }

  // ---- Bursts of errors ---------------------------------------------------

  /** Up to eight symbols fed to the zero state are packed side by side: nothing is lost. */
  function Pack(v: seq<Sym>): bv64
  {
    if v == [] then 0 else Append(Pack(v[..|v| - 1]), v[|v| - 1])
  }

  function Append(c: bv64, d: Sym): bv64
  {
    (c << 5) | Wide(d)
  }

  lemma {:induction false} FoldFromZero(v: seq<Sym>)
    requires |v| <= 8 && Symbols(v)
    ensures Fold(0, v) == Pack(v)
    ensures Fold(0, v) == 0 <==> Zeros(v)
    ensures Fold(0, v) < Limit(|v|)
  {
    hide PolyStep, Append, Limit;
    LimitOne();
    if v != [] {
      var n := |v| - 1;
      var init, d := v[..n], v[n];
      FoldFromZero(init);
      assert init + [d] == v;
      FoldConcat(0, init, [d]);
      assert [d][1..] == [];
      LimitStep(n, Fold(0, init), d);
    }
  }

  /** 2^(5n), for n up to 8. */
  function Limit(n: nat): bv64
    requires n <= 8
  {
    if n == 0 then 1 else if n == 1 then 0x20 else if n == 2 then 0x400 else if n == 3 then 0x8000
    else if n == 4 then 0x10_0000 else if n == 5 then 0x200_0000 else if n == 6 then 0x4000_0000
    else if n == 7 then LIMIT_35 else LIMIT_40
  }

  lemma LimitOne()
    ensures 0 < Limit(0) && Limit(8) == LIMIT_40
  {
  }

  lemma Below(c: bv64, lim: bv64)
    requires c < lim && lim <= LIMIT_35
    ensures c < LIMIT_35
  {
  }

  lemma LimitStep(n: nat, c: bv64, d: Sym)
    requires n < 8 && c < Limit(n) && d < 32
    ensures PolyStep(c, d) == Append(c, d) && PolyStep(c, d) < Limit(n + 1)
    ensures PolyStep(c, d) == 0 <==> c == 0 && d == 0
  {
    hide PolyStep, Append;
    assert Limit(n) <= LIMIT_35;
    Below(c, Limit(n));
    StepShort(c, d);
    if n == 0 { Append0(c, d); } else if n == 1 { Append1(c, d); } else if n == 2 { Append2(c, d); }
    else if n == 3 { Append3(c, d); }
    else if n == 4 { Append4(c, d); } else if n == 5 { Append5(c, d); } else if n == 6 { Append6(c, d); }
    else { Append7(c, d); }
  }

  lemma Append0(c: bv64, d: Sym) requires c < 1 && d < 32 ensures Append(c, d) < 0x20 { }
  lemma Append1(c: bv64, d: Sym) requires c < 0x20 && d < 32 ensures Append(c, d) < 0x400 { }
  lemma Append2(c: bv64, d: Sym) requires c < 0x400 && d < 32 ensures Append(c, d) < 0x8000 { }
  lemma Append3(c: bv64, d: Sym) requires c < 0x8000 && d < 32 ensures Append(c, d) < 0x10_0000 { }
  lemma Append4(c: bv64, d: Sym) requires c < 0x10_0000 && d < 32 ensures Append(c, d) < 0x200_0000 { }
  lemma Append5(c: bv64, d: Sym) requires c < 0x200_0000 && d < 32 ensures Append(c, d) < 0x4000_0000 { }
  lemma Append6(c: bv64, d: Sym) requires c < 0x4000_0000 && d < 32 ensures Append(c, d) < LIMIT_35 { }
  lemma Append7(c: bv64, d: Sym) requires c < LIMIT_35 && d < 32 ensures Append(c, d) < LIMIT_40 { }

  /** Two strings agree outside a window of eight positions. */
  ghost predicate DifferWithin(a: seq<Sym>, b: seq<Sym>, start: nat)
  {
    |a| == |b| && forall i | 0 <= i < |a| && !(start <= i < start + 8) :: a[i] == b[i]
  }

  /** Burst detection: strings of one length that differ only within eight consecutive positions
      have different remainders unless they are equal. */
  lemma BurstDetected(a: seq<Sym>, b: seq<Sym>, start: nat)
    requires Symbols(a) && Symbols(b) && DifferWithin(a, b, start) && PolyModOf(a) == PolyModOf(b)
    ensures a == b
  {
    hide Fold;
    var e := Xor(a, b);
    XorCancel(Fold(1, a), Fold(1, b), 1);
    FoldLinear(1, a, 1, b);
    XorSame(1);
    XorSame(Fold(1, a));
    assert Fold(0, e) == 0;
    XorSyms(a, b);
    var lo := if start < |e| then start else |e|;
    var hi := if start + 8 < |e| then start + 8 else |e|;
    var pre, win, post := e[..lo], e[lo..hi], e[hi..];
    assert e == pre + (win + post);
    forall i | 0 <= i < |e| && !(start <= i < start + 8) ensures e[i] == 0 { Xor8Same(a[i]); }
    FoldConcat(0, pre, win + post);
    FoldZeros(0, pre);
    FoldConcat(0, win, post);
    FoldFromZero(win);
    FoldBound(0, win);
    FoldZeros(Fold(0, win), post);
    forall i | 0 <= i < |a| ensures a[i] == b[i] {
      if lo <= i < hi { assert win[i - lo] == e[i]; }
      Xor8Zero(a[i], b[i]);
    }
  }

  lemma XorCancel(x: bv64, y: bv64, k: bv64)
    requires Xor64(x, k) == Xor64(y, k)
    ensures x == y
  {
    assert (x ^ k) ^ k == x && (y ^ k) ^ k == y;
  }

  lemma XorSame(x: bv64)
    ensures Xor64(x, x) == 0
  {
  }

  lemma Xor8Same(x: Sym)
    ensures Xor8(x, x) == 0
  {
  }

  lemma Xor8Zero(x: Sym, y: Sym)
    ensures Xor8(x, y) == 0 ==> x == y
  {
  }

  lemma Xor8Bound(x: Sym, y: Sym)
    requires x < 32 && y < 32
    ensures Xor8(x, y) < 32
  {
  }

  lemma XorSyms(a: seq<Sym>, b: seq<Sym>)
    requires |a| == |b| && Symbols(a) && Symbols(b)
    ensures Symbols(Xor(a, b))
  {
    forall i | 0 <= i < |a| ensures Xor(a, b)[i] < 32 { Xor8Bound(a[i], b[i]); }
  }

}
