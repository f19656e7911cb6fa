/** Numbers as 32-bit limbs, least significant limb first. */
module Limbs {
  import opened Bits

  const BASE: nat := 0x1_0000_0000

  ghost predicate AreLimbs(s: seq<nat>)
  {
    forall i | 0 <= i < |s| :: s[i] < BASE
  }

  function LVal(s: seq<nat>): nat
  {
    if s == [] then 0 else s[0] + BASE * LVal(s[1..])
  }

  /** The weight of limb k. */
  function Cell(k: nat): (p: nat)
    ensures p > 0
  {
    Pow2(32 * k)
  }

  lemma CellStep(k: nat)
    ensures Cell(0) == 1 && Cell(k) > 0 && Cell(k + 1) == BASE * Cell(k)
  {
    Pow2Values();
    Pow2Add(32, 32 * k);
  }

  lemma CellAdd(j: nat, k: nat)
    ensures Cell(j + k) == Cell(j) * Cell(k)
  {
    Pow2Add(32 * j, 32 * k);
  }

  lemma Times(a: int, b: int, c: int)
    ensures a * (b + c) == a * b + a * c && (b + c) * a == b * a + c * a
    ensures a * (b * c) == (a * b) * c == b * (a * c)
  {
    calc {
      a * (b * c);
      (a * b) * c;
      (b * a) * c;
      b * (a * c);
    }
  }

  lemma {:induction false} LBound(s: seq<nat>)
    requires AreLimbs(s)
    ensures LVal(s) < Cell(|s|)
  {
    hide Cell;
    CellStep(0);
    if s != [] {
      LBound(s[1..]);
      CellStep(|s| - 1);
    }
  }

  lemma {:induction false} LSplit(s: seq<nat>, k: nat)
    requires k <= |s|
    ensures LVal(s) == LVal(s[..k]) + Cell(k) * LVal(s[k..])
  {
    hide Cell;
    CellStep(0);
    if k == 0 {
      assert s[0..] == s;
    } else {
      LSplit(s[1..], k - 1);
      CellStep(k - 1);
      assert s[1..][..k - 1] == s[..k][1..] && s[1..][k - 1..] == s[k..];
      Times(BASE, Cell(k - 1), LVal(s[k..]));
    }
  }

  lemma LAppend(s: seq<nat>, d: nat)
    ensures LVal(s + [d]) == LVal(s) + Cell(|s|) * d
  {
    hide Cell;
    LSplit(s + [d], |s|);
    assert (s + [d])[..|s|] == s && (s + [d])[|s|..] == [d] && [d][1..] == [];
    assert LVal([d]) == d;
  }

  /** Limbs k and up are the quotient by the weight of limb k and those below it the remainder. */
  lemma LDivMod(s: seq<nat>, k: nat)
    requires AreLimbs(s) && k <= |s|
    ensures LVal(s[..k]) == LVal(s) % Cell(k) && LVal(s[k..]) == LVal(s) / Cell(k)
  {
    hide Cell, LVal;
    CellStep(k);
    LSplit(s, k);
    LBound(s[..k]);
    Times(Cell(k), LVal(s[k..]), 0);
    DivModUnique(LVal(s), Cell(k), LVal(s[k..]), LVal(s[..k]));
  }

  lemma {:induction false} LZero(s: seq<nat>)
    ensures LVal(s) == 0 <==> forall i | 0 <= i < |s| :: s[i] == 0
  {
    if s != [] {
      LZero(s[1..]);
      if LVal(s) == 0 {
        forall i | 0 <= i < |s| ensures s[i] == 0 { if i > 0 { assert s[i] == s[1..][i - 1]; } }
      }
      if forall i | 0 <= i < |s| :: s[i] == 0 {
        forall i | 0 <= i < |s[1..]| ensures s[1..][i] == 0 { assert s[1..][i] == s[i + 1]; }
      }
    }
  }

  /** The highest limb in which two numbers differ orders them. */
  lemma LOrder(s: seq<nat>, t: seq<nat>, k: nat)
    requires AreLimbs(s) && AreLimbs(t) && |s| == |t| && k < |s|
    requires s[k] < t[k] && s[k + 1..] == t[k + 1..]
    ensures LVal(s) < LVal(t)
  {
    hide Cell, LVal;
    LSplit(s, k + 1);
    LSplit(t, k + 1);
    assert s[..k + 1] == s[..k] + [s[k]] && t[..k + 1] == t[..k] + [t[k]];
    LAppend(s[..k], s[k]);
    LAppend(t[..k], t[k]);
    LBound(s[..k]);
    MulMono(s[k] + 1, t[k], Cell(k));
    Times(Cell(k), s[k], 1);
  }

  lemma {:induction false} LZeros(n: nat)
    ensures LVal(seq(n, _ => 0)) == 0
  {
    LZero(seq(n, _ => 0));
  }

  // ---- Shifting -----------------------------------------------------------

  /** What stays in a limb shifted left by s bits and what moves to the next one. */
  function Kept(x: nat, s: nat): nat requires s < 32 { x * Pow2(s) % BASE }
  function Moved(x: nat, s: nat): nat requires s < 32 { x * Pow2(s) / BASE }

  /** A number shifted left by s bits, one limb longer, with `low` coming in at the bottom. */
  function ShiftedUp(a: seq<nat>, s: nat, low: nat): seq<nat>
    requires s < 32
  {
    if a == [] then [low] else [Kept(a[0], s) + low] + ShiftedUp(a[1..], s, Moved(a[0], s))
  }

  lemma {:induction false} ShiftedUpVal(a: seq<nat>, s: nat, low: nat)
    requires s < 32
    ensures LVal(ShiftedUp(a, s, low)) == LVal(a) * Pow2(s) + low
  {
    hide Kept, Moved;
    if a == [] {
      assert LVal([low]) == low by { assert [low][1..] == []; }
      assert LVal(a) * Pow2(s) == 0;
    } else {
      var r := ShiftedUp(a[1..], s, Moved(a[0], s));
      ShiftedUpVal(a[1..], s, Moved(a[0], s));
      assert ([Kept(a[0], s) + low] + r)[1..] == r;
      KeptMoved(a[0], s);
      Times(Pow2(s), a[0], BASE * LVal(a[1..]));
      Times(BASE, LVal(a[1..]), Pow2(s));
    }
  }

  lemma KeptMoved(x: nat, s: nat)
    requires s < 32
    ensures Kept(x, s) + BASE * Moved(x, s) == x * Pow2(s)
  {
  }

  lemma {:induction false} ShiftedUpAt(a: seq<nat>, s: nat, low: nat, j: nat)
    requires s < 32 && j <= |a|
    ensures |ShiftedUp(a, s, low)| == |a| + 1
    ensures ShiftedUp(a, s, low)[j] ==
      (if j < |a| then Kept(a[j], s) else 0) + (if j > 0 then Moved(a[j - 1], s) else low)
  {
    hide Kept, Moved;
    if a == [] {
    } else if j == 0 {
      ShiftedUpAt(a[1..], s, Moved(a[0], s), 0);
    } else {
      ShiftedUpAt(a[1..], s, Moved(a[0], s), j - 1);
    }
  }

  function Down(x: nat, s: nat): nat { Quot(x, Pow2(s)) }

  /** A number shifted right by s bits. */
  function ShiftedDown(a: seq<nat>, s: nat): seq<nat>
    requires s < 32
  {
    if a == [] then [] else [Down(a[0], s) + Incoming(a, 1, s)] + ShiftedDown(a[1..], s)
  }

  /** The bits that limb j hands to the one below. */
  function Incoming(a: seq<nat>, j: nat, s: nat): nat
    requires s < 32
  {
    if j < |a| then a[j] % Pow2(s) * Pow2(32 - s) else 0
  }

  lemma {:induction false} ShiftedDownAt(a: seq<nat>, s: nat, j: nat)
    requires s < 32 && j < |a|
    ensures |ShiftedDown(a, s)| == |a| && ShiftedDown(a, s)[j] == Down(a[j], s) + Incoming(a, j + 1, s)
  {
    hide Pow2;
    if j == 0 {
      if |a| > 1 { ShiftedDownAt(a[1..], s, 0); }
    } else {
      ShiftedDownAt(a[1..], s, j - 1);
    }
  }

  lemma BaseSplit(s: nat)
    requires s <= 32
    ensures Pow2(s) * Pow2(32 - s) == BASE
  {
    Pow2Add(s, 32 - s);
    Pow2Values();
  }

  lemma DivOfSum(x: nat, y: nat, p: nat)
    requires p > 0
    ensures (x + y * p) / p == x / p + y && (x + y * p) % p == x % p
  {
    Times(p, x / p, y);
    DivModUnique(x + y * p, p, x / p + y, x % p);
  }

  /** The low bits of a number are those of its lowest limb. */
  lemma LowBits(a: seq<nat>, s: nat)
    requires s <= 32 && a != []
    ensures LVal(a) % Pow2(s) == a[0] % Pow2(s) && LVal(a) / Pow2(s) == a[0] / Pow2(s) + Pow2(32 - s) * LVal(a[1..])
  {
    hide Pow2;
    BaseSplit(s);
    var p, q, r := Pow2(s), Pow2(32 - s), LVal(a[1..]);
    calc {
      BASE * r;
      (p * q) * r;
      p * (q * r);
      { Times(p, q, r); }
      (q * r) * p;
    }
    DivOfSum(a[0], q * r, p);
  }

  lemma {:induction false} ShiftedDownVal(a: seq<nat>, s: nat)
    requires s < 32
    ensures LVal(ShiftedDown(a, s)) == LVal(a) / Pow2(s)
  {
    hide Pow2;
    if a != [] {
      var p, q, rest := Pow2(s), Pow2(32 - s), LVal(a[1..]);
      ShiftedDownVal(a[1..], s);
      var r := ShiftedDown(a[1..], s);
      assert ([Down(a[0], s) + Incoming(a, 1, s)] + r)[1..] == r;
      LowBits(a, s);
      BaseSplit(s);
      if |a| > 1 {
        LowBits(a[1..], s);
        RegroupDown(p, q, rest, BASE);
      } else {
        assert rest == 0;
      }
    }
  }

  lemma RegroupDown(p: nat, q: nat, rest: nat, base: nat)
    requires p > 0 && p * q == base
    ensures rest % p * q + base * (rest / p) == q * rest
  {
    var h, l := rest / p, rest % p;
    assert rest == p * h + l;
    calc {
      q * rest;
      q * (p * h + l);
      { Times(q, p * h, l); }
      q * (p * h) + q * l;
      { Times(q, p, h); }
      (p * q) * h + l * q;
    }
  }

  // ---- Limbs combined with or ---------------------------------------------

  lemma KeptIs(x: nat, s: nat)
    requires s < 32
    ensures Kept(x, s) == x % Pow2(32 - s) * Pow2(s) && Moved(x, s) == Quot(x, Pow2(32 - s))
    ensures Kept(x, s) < BASE
  {
    hide Pow2;
    BaseSplit(s);
    var p, q := Pow2(s), Pow2(32 - s);
    var h, l := x / q, x % q;
    assert x == q * h + l;
    calc {
      x * p;
      (q * h + l) * p;
      { Times(p, q * h, l); }
      q * h * p + l * p;
      { Times(p, q, h); }
      h * BASE + l * p;
    }
    MulMono(l + 1, q, p);
    Times(p, l, 1);
    DivModUnique(x * p, BASE, h, l * p);
  }

  lemma MovedBound(x: nat, s: nat)
    requires s < 32 && x < BASE
    ensures Moved(x, s) < Pow2(s)
  {
    hide Pow2;
    DivLess(x * Pow2(s), BASE, Pow2(s));
    Times(Pow2(s), x, 1);
    MulMono(x + 1, BASE, Pow2(s));
  }

  /** The bits moved into a limb and the bits it keeps do not overlap. */
  lemma OrUp(x: nat, y: nat, s: nat)
    requires s < 32 && y < BASE
    ensures Or(Moved(y, s), Kept(x, s)) == Kept(x, s) + Moved(y, s) < BASE
  {
    hide Pow2, Or, Kept, Moved;
    KeptIs(x, s);
    MovedBound(y, s);
    OrIsSum(x % Pow2(32 - s), Moved(y, s), s);
    OrCommutes(Moved(y, s), Kept(x, s));
    BaseSplit(s);
    var m, q, p := x % Pow2(32 - s), Pow2(32 - s), Pow2(s);
    MulMono(m + 1, q, p);
    Times(p, m, 1);
  }

  lemma DownBound(x: nat, s: nat)
    requires s < 32 && x < BASE
    ensures Down(x, s) < Pow2(32 - s)
  {
    hide Pow2;
    BaseSplit(s);
    Times(Pow2(s), Pow2(32 - s), 0);
    DivLess(x, Pow2(s), Pow2(32 - s));
  }

  lemma OrDown(x: nat, y: nat, s: nat)
    requires 0 < s < 32 && x < BASE
    ensures Or(Down(x, s), Kept(y, 32 - s)) == Down(x, s) + y % Pow2(s) * Pow2(32 - s) < BASE
  {
    hide Pow2, Or, Kept, Down;
    KeptIs(y, 32 - s);
    DownBound(x, s);
    OrIsSum(y % Pow2(s), Down(x, s), 32 - s);
    OrCommutes(Down(x, s), Kept(y, 32 - s));
    BaseSplit(s);
    var m, q, p := y % Pow2(s), Pow2(s), Pow2(32 - s);
    MulMono(m + 1, q, p);
    Times(p, m, 1);
  }
}
