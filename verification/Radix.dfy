/** Numbers written with digits in a base, most significant digit first. */
module Radix {

  function Pow(b: nat, k: nat): nat
  {
    if k == 0 then 1 else b * Pow(b, k - 1)
  }

  lemma MulMonotone(a: nat, b: nat, c: nat, d: nat)
    requires a <= b && c <= d
    ensures a * c <= b * d
  {
    assert a * c <= b * c && b * c <= b * d;
  }

  lemma {:induction false} PowPositive(b: nat, k: nat)
    requires b > 0
    ensures Pow(b, k) > 0
  {
    if k > 0 { PowPositive(b, k - 1); }
  }

  lemma Associate(a: nat, b: nat, c: nat)
    ensures a * (b * c) == (a * b) * c == b * (a * c)
  {
    assert (a * b) * c == (b * a) * c;
  }

  lemma {:induction false} PowAdd(b: nat, i: nat, j: nat)
    ensures Pow(b, i + j) == Pow(b, i) * Pow(b, j)
  {
    hide Pow;
    PowZero(b);
    if i > 0 {
      PowAdd(b, i - 1, j);
      PowStep(b, i - 1);
      PowStep(b, i - 1 + j);
      Associate(b, Pow(b, i - 1), Pow(b, j));
    }
  }

  lemma {:induction false} PowMonotone(b: nat, i: nat, j: nat)
    requires i <= j && b > 0
    ensures Pow(b, i) <= Pow(b, j)
  {
    if i < j {
      PowMonotone(b, i, j - 1);
      MulMonotone(1, b, Pow(b, j - 1), Pow(b, j - 1));
    }
  }

  lemma {:induction false} PowMul(b: nat, i: nat, j: nat)
    ensures Pow(Pow(b, i), j) == Pow(b, i * j)
  {
    if j > 0 {
      PowMul(b, i, j - 1);
      assert i * j == i + i * (j - 1);
      PowAdd(b, i, i * (j - 1));
    }
  }

  lemma {:induction false} PowBase(a: nat, b: nat, k: nat)
    requires a <= b
    ensures Pow(a, k) <= Pow(b, k)
  {
    if k > 0 {
      PowBase(a, b, k - 1);
      MulMonotone(a, b, Pow(a, k - 1), Pow(b, k - 1));
    }
  }

  lemma {:induction false} PowBaseStrict(a: nat, b: nat, k: nat)
    requires a < b && k > 0
    ensures Pow(a, k) < Pow(b, k)
  {
    PowBase(a, b, k - 1);
    PowPositive(b, k - 1);
    MulMonotone(a, a, Pow(a, k - 1), Pow(b, k - 1));
    assert a * Pow(b, k - 1) < b * Pow(b, k - 1);
  }

  lemma PowSwap(b: nat, i: nat, j: nat)
    ensures Pow(Pow(b, i), j) == Pow(Pow(b, j), i)
  {
    hide Pow;
    PowMul(b, i, j);
    PowMul(b, j, i);
    assert i * j == j * i;
  }

  lemma PowOrder(b: nat, q: nat, n: nat, c: nat, p: nat)
    requires b > 0 && n * q <= c * p
    ensures Pow(Pow(b, q), n) <= Pow(Pow(b, c), p)
  {
    hide Pow;
    PowMul(b, q, n);
    PowMul(b, c, p);
    assert n * q == q * n;
    PowMonotone(b, q * n, c * p);
  }

  /** If m^p is at most b^q then m^n is at most b^c for every c of at least n * q / p. */
  lemma Capacity(m: nat, p: nat, b: nat, q: nat, n: nat, c: nat)
    requires b > 0 && p > 0 && Pow(m, p) <= Pow(b, q) && n * q <= c * p
    ensures Pow(m, n) <= Pow(b, c)
  {
    hide Pow;
    PowSwap(m, n, p);
    PowBase(Pow(m, p), Pow(b, q), n);
    PowOrder(b, q, n, c, p);
    if Pow(m, n) > Pow(b, c) {
      PowBaseStrict(Pow(b, c), Pow(m, n), p);
    }
  }

  // ---- Digits -------------------------------------------------------------

  ghost predicate Digits(b: nat, s: seq<nat>)
  {
    forall i | 0 <= i < |s| :: s[i] < b
  }

  function Val(b: nat, s: seq<nat>): nat
  {
    if s == [] then 0 else s[0] * Pow(b, |s| - 1) + Val(b, s[1..])
  }

  /** Leading zeros. */
  function Lead(s: seq<nat>): nat
  {
    if s != [] && s[0] == 0 then 1 + Lead(s[1..]) else 0
  }

  lemma PowZero(b: nat)
    ensures Pow(b, 0) == 1
  {
  }

  lemma PowStep(b: nat, k: nat)
    ensures Pow(b, k + 1) == b * Pow(b, k)
  {
  }

  lemma DigitBound(b: nat, d: nat, p: nat, v: nat)
    requires d < b && v < p
    ensures d * p + v < b * p
  {
    MulMonotone(d + 1, b, p, p);
  }

  lemma DigitUnique(d: nat, e: nat, p: nat, v: nat, w: nat)
    requires v < p && w < p && d * p + v == e * p + w
    ensures d == e && v == w
  {
    if d < e {
      DigitBound(e, d, p, v);
    } else if e < d {
      DigitBound(d, e, p, w);
    }
  }

  lemma {:induction false} ValBound(b: nat, s: seq<nat>)
    requires Digits(b, s)
    ensures Val(b, s) < Pow(b, |s|)
  {
    hide Pow;
    if s == [] {
      PowZero(b);
    } else {
      ValBound(b, s[1..]);
      PowStep(b, |s| - 1);
      DigitBound(b, s[0], Pow(b, |s| - 1), Val(b, s[1..]));
    }
  }

  lemma Distribute(a: nat, b: nat, c: nat)
    ensures a * (b + c) == a * b + a * c
  {
  }

  lemma {:induction false} ValLast(b: nat, s: seq<nat>, d: nat)
    ensures Val(b, s + [d]) == b * Val(b, s) + d
  {
    hide Pow;
    PowZero(b);
    if s == [] {
      assert s + [d] == [d] && [d][1..] == [];
    } else {
      ValLast(b, s[1..], d);
      assert (s + [d])[1..] == s[1..] + [d];
      PowStep(b, |s| - 1);
      Associate(b, s[0], Pow(b, |s| - 1));
      Distribute(b, s[0] * Pow(b, |s| - 1), Val(b, s[1..]));
    }
  }

  lemma {:induction false} ValSkip(b: nat, s: seq<nat>, k: nat)
    requires k <= |s| && forall i | 0 <= i < k :: s[i] == 0
    ensures Val(b, s) == Val(b, s[k..])
  {
    if k == 0 {
      assert s[0..] == s;
    } else {
      ValSkip(b, s[1..], k - 1);
      assert s[1..][k - 1..] == s[k..];
    }
  }

  lemma {:induction false} LeadZeros(s: seq<nat>, k: nat)
    requires k <= |s| && (forall i | 0 <= i < k :: s[i] == 0) && (k < |s| ==> s[k] != 0)
    ensures Lead(s) == k
  {
    if k > 0 { LeadZeros(s[1..], k - 1); }
  }

  lemma {:induction false} LeadMeaning(s: seq<nat>)
    ensures Lead(s) <= |s| && (forall i | 0 <= i < Lead(s) :: s[i] == 0)
    ensures Lead(s) < |s| ==> s[Lead(s)] != 0
  {
    if s != [] && s[0] == 0 {
      LeadMeaning(s[1..]);
      forall i | 0 <= i < Lead(s) ensures s[i] == 0 { if i > 0 { assert s[i] == s[1..][i - 1]; } }
    }
  }

  lemma TopDigit(b: nat, s: seq<nat>)
    requires s != [] && s[0] != 0
    ensures Val(b, s) >= Pow(b, |s| - 1)
  {
    MulMonotone(1, s[0], Pow(b, |s| - 1), Pow(b, |s| - 1));
  }

  lemma {:induction false} SameLength(b: nat, s: seq<nat>, t: seq<nat>)
    requires Digits(b, s) && Digits(b, t) && |s| == |t| && Val(b, s) == Val(b, t)
    ensures s == t
  {
    hide Pow;
    if s != [] {
      var p := Pow(b, |s| - 1);
      ValBound(b, s[1..]);
      ValBound(b, t[1..]);
      DigitUnique(s[0], t[0], p, Val(b, s[1..]), Val(b, t[1..]));
      SameLength(b, s[1..], t[1..]);
      assert s == [s[0]] + s[1..] && t == [t[0]] + t[1..];
    }
  }

  lemma NotLonger(b: nat, s: seq<nat>, t: seq<nat>)
    requires b > 0 && Digits(b, s) && Val(b, s) == Val(b, t) && t != [] && t[0] != 0
    ensures |t| <= |s|
  {
    ValBound(b, s);
    TopDigit(b, t);
    if |t| > |s| { PowMonotone(b, |s|, |t| - 1); }
  }

  /** In one base a number of leading zeros and a value leave one digit string. */
  lemma Unique(b: nat, s: seq<nat>, t: seq<nat>)
    requires b > 0 && Digits(b, s) && Digits(b, t) && Lead(s) == Lead(t) && Val(b, s) == Val(b, t)
    ensures s == t
  {
    hide Val, Pow, Lead;
    LeadMeaning(s);
    LeadMeaning(t);
    var k := Lead(s);
    ValSkip(b, s, k);
    ValSkip(b, t, k);
    var x, y := s[k..], t[k..];
    SameCore(b, x, y);
    assert s == s[..k] + x && t == t[..k] + y && s[..k] == t[..k];
  }

  lemma SameCore(b: nat, x: seq<nat>, y: seq<nat>)
    requires b > 0 && Digits(b, x) && Digits(b, y) && Val(b, x) == Val(b, y)
    requires (x != [] ==> x[0] != 0) && (y != [] ==> y[0] != 0)
    ensures x == y
  {
    if x != [] { NotLonger(b, y, x); }
    if y != [] { NotLonger(b, x, y); }
    SameLength(b, x, y);
  }
}
