/** Where skip pointers lead, and how many steps a walk along them takes. */
module Skips {
  import opened Bits

  /** n & (n - 1). */
  function InvertLowestOne(n: nat): nat
  {
    if n == 0 then 0 else And(n, n - 1)
  }

  function GetSkipHeight(height: nat): nat
  {
    if height < 2 then 0
    else if height % 2 == 1 then InvertLowestOne(InvertLowestOne(height - 1)) + 1
    else InvertLowestOne(height)
  }

  /** Clears the lowest one: every positive number is an odd multiple of a power of two, and loses
      that power. */
  lemma LowestOneCleared(n: nat) returns (q: nat, k: nat)
    requires n > 0
    ensures n == (2 * q + 1) * Pow2(k) && InvertLowestOne(n) == 2 * q * Pow2(k)
  {
    q, k := OddMultiple(n);
    OddMultipleCleared(q, k);
  }

  lemma {:induction false} OddMultipleCleared(q: nat, k: nat)
    ensures (2 * q + 1) * Pow2(k) > 0
    ensures InvertLowestOne((2 * q + 1) * Pow2(k)) == 2 * q * Pow2(k)
  {
    hide InvertLowestOne, Pow2;
    if k == 0 {
      Pow2Step(0);
      InvertOdd(q);
    } else {
      var p := Pow2(k - 1);
      Pow2Step(k - 1);
      OddMultipleCleared(q, k - 1);
      InvertEven((2 * q + 1) * p);
      Twice(2 * q + 1, p);
      Twice(2 * q, p);
    }
  }

  lemma Twice(a: nat, p: nat)
    ensures a * (2 * p) == 2 * (a * p)
  {
  }

  lemma InvertOdd(q: nat)
    ensures InvertLowestOne(2 * q + 1) == 2 * q
  {
    AndSelf(q);
  }

  lemma InvertEven(m: nat)
    requires m > 0
    ensures InvertLowestOne(2 * m) == 2 * InvertLowestOne(m)
  {
  }

  lemma {:induction false} AndSelf(x: nat)
    ensures And(x, x) == x
  {
    if x > 0 { AndSelf(x / 2); }
  }

  lemma {:induction false} OddMultiple(n: nat) returns (q: nat, k: nat)
    requires n > 0
    ensures n == (2 * q + 1) * Pow2(k)
  {
    if n % 2 == 1 {
      q, k := n / 2, 0;
    } else {
      q, k := OddMultiple(n / 2);
      assert (2 * q + 1) * Pow2(k + 1) == 2 * ((2 * q + 1) * Pow2(k));
      k := k + 1;
    }
  }

  lemma InvertLower(n: nat)
    ensures n > 0 ==> InvertLowestOne(n) < n
    ensures InvertLowestOne(n) <= n
  {
    if n > 0 { AndAtMost(n, n - 1); }
  }

  lemma SkipLower(height: nat)
    ensures height > 0 ==> GetSkipHeight(height) < height
  {
    hide InvertLowestOne;
    InvertLower(height);
    if height > 1 {
      InvertLower(height - 1);
      InvertLower(InvertLowestOne(height - 1));
    }
  }

  // ---- The walk -----------------------------------------------------------

  /** The height after one step of the walk from h down to t. */
  function Next(h: nat, t: nat): (r: nat)
    requires t < h
    ensures t <= r < h
  {
    var s, p := GetSkipHeight(h), GetSkipHeight(h - 1);
    SkipLower(h);
    if s == t || (s > t && !(p < s - 2 && p >= t)) then s else h - 1
  }

  /** The number of steps of the walk. */
  function Steps(h: nat, t: nat): nat
    decreases h
  {
    if h <= t then 0 else 1 + Steps(Next(h, t), t)
  }

  lemma StepsNext(h: nat, t: nat)
    requires t < h
    ensures Steps(h, t) == 1 + Steps(Next(h, t), t)
  {
  }

  lemma StepsNone(t: nat)
    ensures Steps(t, t) == 0
  {
  }

  lemma OneStep(t: nat)
    ensures Steps(t + 1, t) == 1
  {
    hide GetSkipHeight, Next;
    StepsNext(t + 1, t);
  }

  // ---- Numbers by their low zeros -----------------------------------------

  /** x is a multiple of 2^k. */
  predicate Aligned(x: nat, k: nat)
  {
    k == 0 || (x % 2 == 0 && Aligned(x / 2, k - 1))
  }

  lemma EvenAligned(x: nat)
    ensures Aligned(x, 1) <==> x % 2 == 0
  {
    assert Aligned(x / 2, 0);
  }

  lemma {:induction false} AlignedSum(x: nat, y: nat, k: nat)
    requires Aligned(x, k) && Aligned(y, k)
    ensures Aligned(x + y, k) && (x >= y ==> Aligned(x - y, k))
  {
    if k > 0 { AlignedSum(x / 2, y / 2, k - 1); }
  }

  lemma {:induction false} AlignedPower(j: nat, k: nat)
    requires k <= j
    ensures Aligned(Pow2(j), k)
  {
    if k > 0 { AlignedPower(j - 1, k - 1); }
  }

  lemma {:induction false} AlignedLess(x: nat, k: nat, i: nat)
    requires Aligned(x, k) && i <= k
    ensures Aligned(x, i)
  {
    if i > 0 { AlignedLess(x / 2, k - 1, i - 1); }
  }

  lemma {:induction false} AlignedGap(x: nat, y: nat, k: nat)
    requires Aligned(x, k) && Aligned(y, k) && x < y
    ensures x + Pow2(k) <= y
  {
    if k > 0 { AlignedGap(x / 2, y / 2, k - 1); }
  }

  /** Only the lower part loses its lowest one. */
  lemma {:induction false} ClearLower(u: nat, r: nat, k: nat)
    requires Aligned(u, k) && 0 < r < Pow2(k)
    ensures InvertLowestOne(u + r) == u + InvertLowestOne(r)
  {
    hide InvertLowestOne, Aligned, Pow2;
    Pow2Step(if k > 0 then k - 1 else 0);
    var v := AlignedHalf(u, k);
    var q := r / 2;
    if r % 2 == 1 {
      assert r == 2 * q + 1 && u + r == 2 * (v + q) + 1;
      InvertOdd(v + q);
      InvertOdd(q);
    } else {
      assert r == 2 * q && u + r == 2 * (v + q);
      ClearLower(v, q, k - 1);
      InvertEven(v + q);
      InvertEven(q);
    }
  }

  lemma AlignedHalf(u: nat, k: nat) returns (v: nat)
    requires Aligned(u, k)
    ensures k > 0 ==> u == 2 * v && Aligned(v, k - 1)
  {
    v := u / 2;
  }

  lemma {:induction false} ClearPower(k: nat)
    ensures InvertLowestOne(Pow2(k)) == 0
  {
    hide InvertLowestOne;
    if k == 0 {
      InvertOdd(0);
    } else {
      ClearPower(k - 1);
      InvertEven(Pow2(k - 1));
    }
  }

  lemma ClearTop(u: nat, k: nat)
    requires Aligned(u, k + 1)
    ensures InvertLowestOne(u + Pow2(k)) == u
  {
    hide InvertLowestOne;
    ClearLower(u, Pow2(k), k + 1);
    ClearPower(k);
  }

  /** Clearing the lowest one of a positive multiple of 2^k gives a multiple of 2^(k+1). */
  lemma {:induction false} ClearAligned(x: nat, k: nat)
    requires Aligned(x, k) && x > 0
    ensures Aligned(InvertLowestOne(x), k + 1) && InvertLowestOne(x) + Pow2(k) <= x
  {
    hide InvertLowestOne;
    if x % 2 == 1 {
      InvertOdd(x / 2);
    } else {
      ClearAligned(x / 2, if k > 0 then k - 1 else 0);
      InvertEven(x / 2);
    }
  }

  /** The lowest one of a number above m within its block of size 2^j is above m's bits. */
  lemma ClearWithin(m: nat, v: nat, j: nat, i: nat)
    requires Aligned(m, j) && Aligned(v, i) && m < v < m + Pow2(j)
    ensures i < j && m <= InvertLowestOne(v) < v && Aligned(InvertLowestOne(v), i + 1)
  {
    hide InvertLowestOne, Pow2;
    ClearLower(m, v - m, j);
    ClearAligned(v, i);
    if j <= i {
      AlignedLess(v, i, j);
      AlignedGap(m, v, j);
    }
  }

  // ---- One step -----------------------------------------------------------

  lemma NextOdd(v: nat, t: nat)
    requires v >= 2 && v % 2 == 0 && t <= v
    ensures var s := InvertLowestOne(InvertLowestOne(v)) + 1; Next(v + 1, t) == if s >= t then s else v
  {
    hide InvertLowestOne;
    InvertLower(InvertLowestOne(v));
  }

  lemma NextEven(h: nat, t: nat)
    requires h >= 4 && h % 2 == 0 && t < h
    ensures var s, p := InvertLowestOne(h), InvertLowestOne(InvertLowestOne(h - 2)) + 1;
            Next(h, t) == if s == t || (s > t && !(p < s - 2 && p >= t)) then s else h - 1
  {
    hide InvertLowestOne;
  }

  /** The target t lies in the lower half of the block of size 2^(j+1) that begins at u. */
  ghost predicate LowerHalf(u: nat, j: nat, t: nat)
  {
    j >= 1 && Aligned(u, j + 1) && u <= t < u + Pow2(j)
  }

  /** The middle of the block: its lowest one is the block's own, and clearing two ones leaves the block
      but for the very first block. */
  lemma Middle(u: nat, j: nat, t: nat)
    requires LowerHalf(u, j, t)
    ensures var m := u + Pow2(j);
      && m >= 2 && m % 2 == 0 && Aligned(m, j) && InvertLowestOne(m) == u
      && (InvertLowestOne(u) + 1 < u || (u == 0 && InvertLowestOne(u) == 0))
  {
    hide InvertLowestOne;
    Pow2Step(j - 1);
    AlignedLess(u, j + 1, j);
    AlignedPower(j, j);
    AlignedSum(u, Pow2(j), j);
    ClearTop(u, j);
    if u > 0 {
      ClearAligned(u, j + 1);
      Pow2Step(j);
    } else {
      assert InvertLowestOne(0) == 0 by { ZeroCleared(); }
    }
  }

  lemma ZeroCleared()
    ensures InvertLowestOne(0) == 0
  {
  }

  /** With one bit left above the middle, and no better way over the block's start, the walk comes to
      the middle. */
  lemma LastBit(u: nat, j: nat, t: nat, v: nat)
    requires LowerHalf(u, j, t) && u + 1 < t && v % 2 == 0
    requires var m := u + Pow2(j); m < v < m + Pow2(j) && InvertLowestOne(v) == m
    ensures Next(v, t) == u + Pow2(j)
  {
    hide InvertLowestOne, Next, Pow2;
    var m := u + Pow2(j);
    Middle(u, j, t);
    NextEven(v, t);
    if v - 2 > m {
      ClearWithin(m, v - 2, j, 0);
      var w := InvertLowestOne(v - 2);
      if w > m { ClearWithin(m, w, j, 0); }
    }
  }

  // ---- An upper bound -----------------------------------------------------

  /** From an odd height above the middle, two bits go with each step. */
  lemma {:induction false} OddPhase(u: nat, j: nat, t: nat, v: nat, i: nat, rest: nat)
    requires LowerHalf(u, j, t) && 1 <= i <= j && Aligned(v, i)
    requires var m := u + Pow2(j); m <= v < m + Pow2(j) && Steps(m, t) <= rest
    requires rest >= 1
    ensures Steps(v + 1, t) <= (j - i + 1) / 2 + 1 + rest
    decreases j - i
  {
    hide InvertLowestOne, Next, Pow2, Steps, Aligned;
    var m := u + Pow2(j);
    Middle(u, j, t);
    AlignedLess(v, i, 1);
    EvenAligned(v);
    NextOdd(v, t);
    StepsNext(v + 1, t);
    var s := InvertLowestOne(InvertLowestOne(v)) + 1;
    if v == m {
      if s >= t { Arrived(s, t); }
    } else {
      ClearWithin(m, v, j, i);
      var w := InvertLowestOne(v);
      if w == m {
        if s >= t {
          Arrived(s, t);
        } else {
          LastBit(u, j, t, v);
          StepsNext(v, t);
        }
      } else {
        ClearWithin(m, w, j, i + 1);
        OddPhase(u, j, t, InvertLowestOne(w), i + 2, rest);
      }
    }
  }

  /** At most one above the target there is at most one more step. */
  lemma Arrived(s: nat, t: nat)
    requires t <= s <= t + 1
    ensures Steps(s, t) <= 1
  {
    hide Next, Steps;
    StepsNone(t);
    OneStep(t);
  }

  /** A multiple of eight follows its own pointer: that of the block before is no better. */
  lemma NextEight(h: nat, t: nat)
    requires Aligned(h, 3) && t < InvertLowestOne(h) && t < h
    ensures Next(h, t) == InvertLowestOne(h)
  {
    hide InvertLowestOne, Next;
    assert Pow2(3) == 8 && Pow2(2) == 4;
    ClearAligned(h, 3);
    AlignedPower(3, 3);
    AlignedSum(h, 8, 3);
    ClearLower(h - 8, 6, 3);
    ClearLower(h - 8, 4, 3);
    SmallCleared();
    NextEven(h, t);
  }

  lemma SmallCleared()
    ensures InvertLowestOne(6) == 4 && InvertLowestOne(4) == 0
  {
  }

  function EvenLimit(j: nat, i: nat): nat
    requires i <= j
  {
    if i >= 3 then j - i else j + 3 - i
  }

  /** From an even height above the middle, one bit goes with each step. */
  lemma {:induction false} EvenPhase(u: nat, j: nat, t: nat, h: nat, i: nat, rest: nat)
    requires LowerHalf(u, j, t) && 1 <= i <= j && Aligned(h, i)
    requires var m := u + Pow2(j); m <= h < m + Pow2(j) && Steps(m, t) <= rest
    requires rest >= 1
    ensures Steps(h, t) <= EvenLimit(j, i) + rest
    decreases j - i
  {
    hide InvertLowestOne, Next, Pow2, Steps, Aligned;
    var m := u + Pow2(j);
    Middle(u, j, t);
    if h > m {
      ClearWithin(m, h, j, i);
      StepsNext(h, t);
      AlignedLess(h, i, 1);
      EvenAligned(h);
      NextEven(h, t);
      if Next(h, t) == InvertLowestOne(h) {
        EvenPhase(u, j, t, InvertLowestOne(h), i + 1, rest);
      } else {
        if i >= 3 {
          AlignedLess(h, i, 3);
          NextEight(h, t);
        }
        EvenAligned(h - 2);
        OddPhase(u, j, t, h - 2, 1, rest);
      }
    }
  }

  /** The steps from the end of a block of size 2^k to anywhere in it. */
  function BlockLimit(k: nat): nat
  {
    if k == 0 then 0 else BlockLimit(k - 1) + (k - 1) / 2 + 2
  }

  /** The two halves of a block. */
  lemma Halves(u: nat, k: nat)
    requires Aligned(u, k) && k > 0
    ensures Pow2(k) == 2 * Pow2(k - 1) && Aligned(u, k - 1) && Aligned(u + Pow2(k - 1), k - 1)
  {
    hide Aligned;
    AlignedLess(u, k, k - 1);
    AlignedPower(k - 1, k - 1);
    AlignedSum(u, Pow2(k - 1), k - 1);
  }

  lemma {:induction false} FromBlockEnd(u: nat, k: nat, t: nat)
    requires Aligned(u, k) && u <= t < u + Pow2(k)
    ensures Steps(u + Pow2(k) - 1, t) <= BlockLimit(k)
    decreases k, 0
  {
    hide InvertLowestOne, Next, Pow2, Steps, Aligned;
    if k == 0 {
      Pow2Step(0);
      StepsNone(t);
    } else {
      var j := k - 1;
      var m := u + Pow2(j);
      Halves(u, k);
      if t >= m {
        FromBlockEnd(m, j, t);
      } else if j == 0 {
        Pow2Step(0);
        OneStep(t);
      } else {
        FromMiddle(u, j, t);
        Middle(u, j, t);
        EndOfHalf(u, j);
        OddPhase(u, j, t, m + Pow2(j) - 2, 1, 1 + BlockLimit(j));
      }
    }
  }

  lemma EndOfHalf(u: nat, j: nat)
    requires j >= 1 && (u + Pow2(j)) % 2 == 0
    ensures Pow2(j) >= 2 && Aligned(u + Pow2(j) + Pow2(j) - 2, 1)
  {
    hide Aligned;
    Pow2Step(j - 1);
    EvenAligned(u + Pow2(j) + Pow2(j) - 2);
  }

  lemma {:induction false} FromMiddle(u: nat, j: nat, t: nat)
    requires LowerHalf(u, j, t)
    ensures Steps(u + Pow2(j), t) <= 1 + BlockLimit(j)
    decreases j, 1
  {
    hide InvertLowestOne, Next, Pow2, Steps, BlockLimit;
    var m := u + Pow2(j);
    Middle(u, j, t);
    AlignedLess(u, j + 1, j);
    StepsNext(m, t);
    NextFromMiddle(u, j, t);
    StepsNone(t);
    FromBlockEnd(u, j, t);
  }

  lemma NextFromMiddle(u: nat, j: nat, t: nat)
    requires LowerHalf(u, j, t)
    ensures Next(u + Pow2(j), t) == if t == u then u else u + Pow2(j) - 1
  {
    hide InvertLowestOne, Pow2;
    Middle(u, j, t);
  }

  /** n^2 / 4 + 2 n + 1. */
  function StepLimit(n: nat): nat
  {
    n * n / 4 + 2 * n + 1
  }

  lemma {:induction false} BlockLimitIs(k: nat)
    requires k >= 1
    ensures BlockLimit(k) == (k - 1) * (k - 1) / 4 + 2 * k
  {
    if k > 1 {
      BlockLimitIs(k - 1);
      Quarters(k - 2);
    }
  }

  lemma Quarters(a: nat)
    ensures (a + 1) * (a + 1) / 4 == a * a / 4 + (a + 1) / 2
  {
    var b := a / 2;
    Squares(b);
    if a % 2 == 0 {
      assert a == 2 * b;
      Quarter(a * a, b * b, 0);
      Quarter((a + 1) * (a + 1), b * b + b, 1);
    } else {
      assert a == 2 * b + 1 && a + 1 == 2 * (b + 1);
      Quarter(a * a, b * b + b, 1);
      Quarter((a + 1) * (a + 1), b * b + b + (b + 1), 0);
    }
  }

  lemma Quarter(x: nat, q: nat, r: nat)
    requires x == 4 * q + r && r < 4
    ensures x / 4 == q
  {
  }

  lemma Squares(b: nat)
    ensures (2 * b) * (2 * b) == 4 * (b * b)
    ensures (2 * b + 1) * (2 * b + 1) == 4 * (b * b + b) + 1
    ensures (2 * (b + 1)) * (2 * (b + 1)) == 4 * (b * b + b + (b + 1))
  {
  }

  lemma StepLimitGrows(n: nat)
    ensures StepLimit(n) <= StepLimit(n + 1)
    ensures n >= 1 ==> n + 3 + BlockLimit(n) <= StepLimit(n + 1)
  {
    Quarters(n);
    if n >= 1 {
      BlockLimitIs(n);
      Quarters(n - 1);
    }
  }

  lemma {:induction false} WithinBlock(u: nat, k: nat, h: nat, t: nat)
    requires Aligned(u, k) && u <= t <= h < u + Pow2(k)
    ensures Steps(h, t) <= StepLimit(k)
    decreases k
  {
    hide InvertLowestOne, Next, Pow2, Steps, StepLimit, BlockLimit, Aligned;
    if k == 0 {
      Pow2Step(0);
      StepsNone(t);
    } else {
      var j := k - 1;
      var m := u + Pow2(j);
      Halves(u, k);
      StepLimitGrows(j);
      if t >= m {
        WithinBlock(m, j, h, t);
      } else if h < m {
        WithinBlock(u, j, h, t);
      } else if j == 0 {
        Pow2Step(0);
        OneStep(t);
        SmallLimit();
      } else {
        FromMiddle(u, j, t);
        Middle(u, j, t);
        if h % 2 == 1 {
          EvenAligned(h - 1);
          OddPhase(u, j, t, h - 1, 1, 1 + BlockLimit(j));
        } else {
          EvenAligned(h);
          EvenPhase(u, j, t, h, 1, 1 + BlockLimit(j));
        }
      }
    }
  }

  lemma SmallLimit()
    ensures StepLimit(1) >= 1
  {
  }

  /** A walk between heights of at most n bits takes at most n^2 / 4 + 2 n + 1 steps. */
  lemma AtMost(h: nat, t: nat, n: nat)
    requires t <= h < Pow2(n)
    ensures Steps(h, t) <= StepLimit(n)
  {
    hide Next, Pow2, Steps, StepLimit;
    ZeroAligned(n);
    WithinBlock(0, n, h, t);
  }

  lemma {:induction false} ZeroAligned(k: nat)
    ensures Aligned(0, k)
  {
    if k > 0 { ZeroAligned(k - 1); }
  }

  // ---- A lower bound ------------------------------------------------------

  /** Down to height 2, the odd phase below 2^(j+1) takes exactly its number of steps. */
  lemma {:induction false} OddPhaseExact(j: nat, i: nat)
    requires 1 <= i <= j && j >= 2
    ensures Pow2(i) <= Pow2(j + 1)
    ensures Steps(Pow2(j + 1) - Pow2(i) + 1, 2) == (j - i + 1) / 2 + 1 + Steps(Pow2(j), 2)
    decreases j - i
  {
    hide InvertLowestOne, Next, Pow2, Steps;
    FirstHalf(j);
    var m, v := Pow2(j), Pow2(j + 1) - Pow2(i);
    Middle(0, j, 2);
    OnesAligned(j, i);
    NextOdd(v, 2);
    StepsNext(v + 1, 2);
    if i == j {
    } else if i == j - 1 {
      LastBit(0, j, 2, v);
      StepsNext(v, 2);
    } else {
      OnesAligned(j, i + 1);
      OnesAligned(j, i + 2);
      OddPhaseExact(j, i + 2);
    }
  }

  lemma FirstHalf(j: nat)
    requires j >= 2
    ensures LowerHalf(0, j, 2) && Pow2(j + 1) == 2 * Pow2(j) && Pow2(j) >= 4
  {
    ZeroAligned(j + 1);
    Pow2Monotone(2, j);
  }

  /** Ones in places i to j: even, and clearing the lowest one leaves those in places i + 1 to j. */
  lemma OnesAligned(j: nat, i: nat)
    requires 1 <= i <= j
    ensures Pow2(j) <= Pow2(j + 1) - Pow2(i) < Pow2(j + 1) && (Pow2(j + 1) - Pow2(i)) % 2 == 0
    ensures i < j ==> Pow2(j) < Pow2(j + 1) - Pow2(i)
    ensures InvertLowestOne(Pow2(j + 1) - Pow2(i)) == Pow2(j + 1) - Pow2(i + 1)
  {
    hide InvertLowestOne;
    Pow2Monotone(i, j);
    Pow2Monotone(i + 1, j + 1);
    AlignedPower(j + 1, i + 1);
    AlignedPower(i + 1, i + 1);
    AlignedSum(Pow2(j + 1), Pow2(i + 1), i + 1);
    ClearTop(Pow2(j + 1) - Pow2(i + 1), i);
    Pow2Step(i - 1);
    Pow2Step(j);
    if i < j { Pow2Monotone(i + 1, j); }
  }

  /** From height 2^n - 1 down to 2 the walk takes exactly this many steps. */
  lemma {:induction false} Exactly(n: nat)
    requires n >= 2
    ensures Steps(Pow2(n) - 1, 2) == (n - 1) * (n - 1) / 4 + 2 * n - 3
  {
    hide InvertLowestOne, Next, Pow2, Steps;
    Pow2Step(0);
    Pow2Step(1);
    if n == 2 {
      OneStep(2);
    } else {
      var j := n - 1;
      Exactly(j);
      OddPhaseExact(j, 1);
      FirstHalf(j);
      StepsNext(Pow2(j), 2);
      NextFromMiddle(0, j, 2);
      Quarters(n - 2);
    }
  }

  /** So the number of steps is not bounded by any multiple of the number of bits. */
  lemma NotLogarithmic(c: nat) returns (n: nat)
    ensures n >= 2 && Steps(Pow2(n) - 1, 2) > c * n
  {
    hide Steps, Pow2;
    n := 4 * c + 4;
    Exactly(n);
    assert (n - 1) * (n - 1) == 4 * (4 * (c * c) + 6 * c + 2) + 1;
    assert c * n == 4 * (c * c) + 4 * c;
  }
}
