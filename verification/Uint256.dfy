/** Unsigned integers of a fixed width that wrap around, in limbs updated in place. */
module Uint256 {
  import opened Bits
  import opened Limbs

  /** x * y in arithmetic modulo m. */
  ghost function TimesMod(x: nat, y: nat, m: nat): nat
    requires m > 0
  {
    x * y % m
  }

  /** x plus d * y moved up j limbs, in arithmetic modulo the weight of limb n. */
  ghost function RowSum(x: nat, j: nat, d: nat, y: nat, n: nat): nat
  {
    (x + Cell(j) * (d * y)) % Cell(n)
  }

  /** x - y in arithmetic modulo m. */
  ghost function MinusMod(x: nat, y: nat, m: nat): nat
    requires x < m && y < m
  {
    if x >= y then x - y else m - (y - x)
  }

  class BaseUint {
    const pn: array<nat>

    ghost predicate Valid()
      reads this, pn
    {
      pn.Length > 0 && AreLimbs(pn[..])
    }

    ghost function Value(): nat
      reads this, pn
    {
      LVal(pn[..])
    }

    /** One more than the largest value. */
    ghost function Modulus(): nat
    {
      Cell(pn.Length)
    }

    /** An operand is this object or has limbs of its own. */
    ghost predicate Operand(b: BaseUint)
      reads this, b, b.pn
    {
      b.Valid() && b.pn.Length == pn.Length && (b == this || b.pn != pn)
    }

    constructor (width: nat)
      requires width > 0
      ensures Valid() && fresh(pn) && pn.Length == width && Value() == 0
    {
      pn := new nat[width](_ => 0);
      new;
      LZero(pn[..]);
    }

    constructor Copy(b: BaseUint)
      requires b.Valid()
      ensures Valid() && fresh(pn) && pn.Length == b.pn.Length && pn[..] == b.pn[..]
    {
      pn := new nat[b.pn.Length](i requires 0 <= i < b.pn.Length reads b.pn => b.pn[i]);
    }

    method AddAssign(b: BaseUint)
      requires Valid() && Operand(b)
      modifies pn
      ensures Valid() && Value() == (old(Value()) + old(b.Value())) % Modulus()
    {
      hide LVal, Cell, Added;
      ghost var x, y := pn[..], b.pn[..];
      var carry: nat, n := 0, pn.Length;
      AddStart();
      for i := 0 to n
        invariant AreLimbs(pn[..]) && carry <= 1
        invariant forall j | i <= j < n :: pn[j] == x[j] && b.pn[j] == y[j]
        invariant Added(pn[..i], x[..i], y[..i], carry)
      {
        var t := carry + pn[i] + b.pn[i];
        assert t < 0x1_0000_0000_0000_0000;
        ghost var before, c := pn[..i], carry;
        pn[i] := t % BASE;
        carry := t / BASE;
        assert pn[..i] == before;
        assert pn[..i + 1] == before + [pn[i]] && x[..i + 1] == x[..i] + [x[i]] && y[..i + 1] == y[..i] + [y[i]];
        AddStep(before, x[..i], y[..i], c, x[i], y[i], pn[i], carry);
      }
      assert pn[..n] == pn[..] && x[..n] == x && y[..n] == y;
      AddEnd(pn[..], x, y, carry);
    }

    /** Flips every bit. */
    method Complement() returns (r: BaseUint)
      requires Valid()
      ensures r.Valid() && fresh(r) && fresh(r.pn) && r.pn.Length == pn.Length
      ensures r.Value() == Modulus() - 1 - Value()
    {
      hide LVal, Cell;
      r := new BaseUint(pn.Length);
      ghost var x := pn[..];
      for i := 0 to pn.Length
        invariant AreLimbs(r.pn[..]) && pn[..] == x
        invariant forall j | 0 <= j < i :: r.pn[j] == BASE - 1 - x[j]
      {
        r.pn[i] := BASE - 1 - pn[i];
      }
      ComplementVal(x, r.pn[..]);
    }

    method Negate() returns (r: BaseUint)
      requires Valid()
      ensures r.Valid() && fresh(r) && fresh(r.pn) && r.pn.Length == pn.Length
      ensures r.Value() == (Modulus() - Value()) % Modulus()
    {
      hide LVal, Cell;
      LBound(pn[..]);
      r := Complement();
      r.Increment();
    }

    method Increment()
      requires Valid()
      modifies pn
      ensures Valid() && Value() == (old(Value()) + 1) % Modulus()
    {
      hide LVal, Cell;
      ghost var x := pn[..];
      var i, n := 0, pn.Length;
      var going := true;
      while i < n && going
        invariant i <= n && AreLimbs(pn[..])
        invariant forall j | 0 <= j < i :: x[j] == BASE - 1
        invariant forall j | i <= j < n :: going ==> pn[j] == x[j]
        invariant going ==> forall j | 0 <= j < i :: pn[j] == 0
        invariant !going ==> i < n && pn[..] == Bumped(x, i)
        decreases n - i, going
      {
        pn[i] := (pn[i] + 1) % BASE;
        if pn[i] == 0 {
          i := i + 1;
        } else {
          assert pn[..] == Bumped(x, i);
          going := false;
        }
      }
      IncrementVal(x, pn[..], i);
    }

    method SubAssign(b: BaseUint)
      requires Valid() && Operand(b)
      modifies pn
      ensures Valid()
      ensures old(Value() < Modulus() && b.Value() < Modulus())
      ensures Value() == MinusMod(old(Value()), old(b.Value()), Modulus())
    {
      hide LVal, Cell;
      LBound(pn[..]);
      LBound(b.pn[..]);
      ghost var x, y := Value(), b.Value();
      var r := b.Negate();
      AddAssign(r);
      SubVal(x, y, Modulus());
    }

    method ShiftLeft(shift: nat)
      requires Valid()
      modifies pn
      ensures Valid() && Value() == old(Value()) * Pow2(shift) % Modulus()
    {
      hide LVal, Cell, Pow2, Kept, Moved, Or, UpLimb, Quot;
      var a, n := pn[..], pn.Length;
      for i := 0 to n
        invariant forall j | 0 <= j < i :: pn[j] == 0
      {
        pn[i] := 0;
      }
      var k, s := shift / 32, shift % 32;
      UpStart(a, k, s);
      for i := 0 to n
        invariant forall j | 0 <= j < n :: pn[j] == UpLimb(a, k, s, i, j)
      {
        KeptIs(a[i], s);
        UpStep(a, k, s, i);
        if i + k + 1 < n && s != 0 {
          pn[i + k + 1] := Or(pn[i + k + 1], Quot(a[i], Pow2(32 - s)));
        }
        if i + k < n {
          pn[i + k] := Or(pn[i + k], Kept(a[i], s));
        }
      }
      UpDone(a, k, s, pn[..]);
    }

    method ShiftRight(shift: nat)
      requires Valid()
      modifies pn
      ensures Valid() && Value() == Quot(old(Value()), Pow2(shift))
    {
      hide LVal, Cell, Pow2, Kept, Moved, Or, Down, Quot, DownLimb;
      var a, n := pn[..], pn.Length;
      for i := 0 to n
        invariant forall j | 0 <= j < i :: pn[j] == 0
      {
        pn[i] := 0;
      }
      var k, s := shift / 32, shift % 32;
      DownStart(a, k, s);
      for i := 0 to n
        invariant forall j | 0 <= j < n :: pn[j] == DownLimb(a, k, s, i, j)
      {
        DownStep(a, k, s, i);
        if i - k - 1 >= 0 && s != 0 {
          pn[i - k - 1] := Or(pn[i - k - 1], Kept(a[i], 32 - s));
        }
        if i - k >= 0 {
          pn[i - k] := Or(pn[i - k], Down(a[i], s));
        }
      }
      DownDone(a, k, s, pn[..]);
    }

    /** Assignment of a 64-bit value. */
    method Assign(b: nat)
      requires pn.Length >= 2 && b < BASE * BASE
      modifies pn
      ensures Valid() && Value() == b
    {
      hide LVal;
      pn[0] := b % BASE;
      pn[1] := b / BASE;
      for i := 2 to pn.Length
        invariant pn[0] == b % BASE && pn[1] == b / BASE && forall j | 2 <= j < i :: pn[j] == 0
      {
        pn[i] := 0;
      }
      TwoLimbs(pn[..]);
    }

    method CompareTo(b: BaseUint) returns (r: int)
      requires Valid() && Operand(b)
      ensures r < 0 <==> Value() < b.Value()
      ensures r == 0 <==> Value() == b.Value()
      ensures -1 <= r <= 1
    {
      hide LVal;
      var i := pn.Length;
      while i > 0
        invariant 0 <= i <= pn.Length && pn[i..] == b.pn[i..]
      {
        i := i - 1;
        if pn[i] < b.pn[i] {
          LOrder(pn[..], b.pn[..], i);
          return -1;
        }
        if pn[i] > b.pn[i] {
          LOrder(b.pn[..], pn[..], i);
          return 1;
        }
      }
      assert pn[..] == pn[0..] == b.pn[0..] == b.pn[..];
      return 0;
    }

    /** The position of the highest bit set plus one, or zero. */
    method BitLength() returns (r: nat)
      requires Valid()
      ensures IsBitLength(Value(), r) && r <= 32 * pn.Length
    {
      hide LVal, Cell, Pow2, And;
      var pos := pn.Length;
      while pos > 0
        invariant 0 <= pos <= pn.Length && forall j | pos <= j < pn.Length :: pn[j] == 0
      {
        pos := pos - 1;
        if pn[pos] != 0 {
          var nbits := 31;
          Pow2Values();
          while nbits > 0
            invariant 0 <= nbits <= 31 && pn[pos] < Pow2(nbits + 1)
          {
            AndPow2(pn[pos], nbits);
            TopBit(pn[pos], nbits);
            if And(pn[pos], Pow2(nbits)) != 0 {
              LimbLength(pn[..], pos, nbits);
              return 32 * pos + nbits + 1;
            }
            nbits := nbits - 1;
          }
          Pow2Step(0);
          LimbLength(pn[..], pos, 0);
          return 32 * pos + 1;
        }
      }
      LZero(pn[..]);
      return 0;
    }

    method MulAssign(b: BaseUint)
      requires Valid() && Operand(b)
      modifies pn
      ensures Valid() && Value() == TimesMod(old(Value()), old(b.Value()), Modulus())
    {
      hide LVal, Cell, TimesMod, RowSum;
      var n := pn.Length;
      var a := new nat[n](_ => 0);
      ghost var x, y := pn[..], b.pn[..];
      MulStart(y, a[..]);
      assert x[..0] == [];
      for j := 0 to n
        invariant AreLimbs(a[..]) && pn[..] == x && b.pn[..] == y
        invariant LVal(a[..]) == TimesMod(LVal(x[..j]), LVal(y), Cell(n))
      {
        ghost var was := LVal(a[..]);
        MulRow(a, pn[j], j, b.pn);
        NextRow(x, y, j, was, LVal(a[..]));
      }
      assert x[..n] == x;
      for i := 0 to n
        invariant AreLimbs(pn[..]) && forall j | 0 <= j < i :: pn[j] == a[j]
        invariant AreLimbs(a[..]) && LVal(a[..]) == TimesMod(LVal(x), LVal(y), Cell(n))
      {
        pn[i] := a[i];
      }
      assert pn[..] == a[..];
    }
  }

  // ---- Multiplication -----------------------------------------------------

  /** Limbs r hold those of r0 plus d times y moved up j limbs, but for a carry. */
  ghost predicate RowAdded(r: seq<nat>, r0: seq<nat>, y: seq<nat>, d: nat, j: nat, carry: nat)
  {
    |r| == |r0| == j + |y| && LVal(r) + Cell(j + |y|) * carry == LVal(r0) + Cell(j) * (d * LVal(y))
  }

  lemma RowStart(r0: seq<nat>, d: nat)
    ensures RowAdded(r0, r0, [], d, |r0|, 0)
  {
    assert d * LVal([]) == 0;
    assert Cell(|r0|) * 0 == 0;
  }

  function Accumulate(c: nat, x: nat, d: nat, y: nat): nat { c + x + d * y }

  lemma RowStep(r: seq<nat>, r0: seq<nat>, y: seq<nat>, d: nat, j: nat, c: nat, ai: nat, yi: nat, ri: nat, carry: nat)
    requires RowAdded(r, r0, y, d, j, c) && Accumulate(c, ai, d, yi) == ri + BASE * carry
    ensures RowAdded(r + [ri], r0 + [ai], y + [yi], d, j, carry)
  {
    hide LVal, Cell;
    LAppend(r, ri);
    LAppend(r0, ai);
    LAppend(y, yi);
    CellStep(j + |y|);
    CellSum(Cell(j + |y|), c, ai, d * yi, ri, carry);
    CellAdd(j, |y|);
    Times(d, LVal(y), Cell(|y|) * yi);
    Times(Cell(j), d * LVal(y), d * (Cell(|y|) * yi));
    MoveFactor(Cell(j), d, Cell(|y|), yi);
  }

  lemma MoveFactor(p: nat, d: nat, q: nat, yi: nat)
    ensures p * (d * (q * yi)) == (p * q) * (d * yi)
  {
    calc {
      p * (d * (q * yi));
      { Times(d, q, yi); }
      p * (q * (d * yi));
      { Times(p, q, d * yi); }
      (p * q) * (d * yi);
    }
  }

  /** Limbs of y that reach past the width only add multiples of the modulus. */
  lemma RowEnd(r: seq<nat>, r0: seq<nat>, y: seq<nat>, d: nat, j: nat, carry: nat)
    requires AreLimbs(r) && |y| == |r| && j <= |r| && RowAdded(r, r0, y[..|r| - j], d, j, carry)
    ensures LVal(r) == RowSum(LVal(r0), j, d, LVal(y), |r|)
  {
    hide LVal, Cell, RowSum, Balanced;
    var k := |r| - j;
    AddedBalance(r, r0, y[..k], d, j, carry);
    var carry' := WholeRow(LVal(r), LVal(r0), j, k, d, y, carry);
    RowTruncated(r, carry', LVal(r0), j, d, LVal(y));
  }

  /** r and a carry of weight m make up x plus d times y of weight p. */
  ghost predicate Balanced(r: nat, m: nat, carry: nat, x: nat, p: nat, d: nat, y: nat)
  {
    r + m * carry == x + p * (d * y)
  }

  lemma AddedBalance(r: seq<nat>, r0: seq<nat>, y: seq<nat>, d: nat, j: nat, carry: nat)
    requires RowAdded(r, r0, y, d, j, carry)
    ensures Balanced(LVal(r), Cell(|r|), carry, LVal(r0), Cell(j), d, LVal(y))
  {
    hide LVal, Cell;
  }

  lemma RowTruncated(r: seq<nat>, carry: nat, x: nat, j: nat, d: nat, y: nat)
    requires AreLimbs(r) && Balanced(LVal(r), Cell(|r|), carry, x, Cell(j), d, y)
    ensures LVal(r) == RowSum(x, j, d, y, |r|)
  {
    hide LVal, Cell;
    Truncated(r, carry, x + Cell(j) * (d * y));
  }

  lemma WholeRow(r: nat, x: nat, j: nat, k: nat, d: nat, y: seq<nat>, carry: nat) returns (carry': nat)
    requires k <= |y| && Balanced(r, Cell(j + k), carry, x, Cell(j), d, LVal(y[..k]))
    ensures Balanced(r, Cell(j + k), carry', x, Cell(j), d, LVal(y))
  {
    hide LVal, Cell;
    LSplit(y, k);
    CellAdd(j, k);
    carry' := MoreCarry(r, x, Cell(j), Cell(k), d, LVal(y[..k]), LVal(y[k..]), carry);
  }

  lemma MoreCarry(r: nat, x: nat, p: nat, q: nat, d: nat, lo: nat, hi: nat, carry: nat) returns (carry': nat)
    requires Balanced(r, p * q, carry, x, p, d, lo)
    ensures Balanced(r, p * q, carry', x, p, d, lo + q * hi)
  {
    carry' := carry + d * hi;
    Times(p * q, carry, d * hi);
    MoveFactor(p, d, q, hi);
    Times(d, lo, q * hi);
    Times(p, d * lo, d * (q * hi));
  }

  method MulRow(a: array<nat>, d: nat, j: nat, b: array<nat>)
    requires a != b && a.Length == b.Length && j <= a.Length && d < BASE && AreLimbs(a[..]) && AreLimbs(b[..])
    modifies a
    ensures AreLimbs(a[..])
    ensures LVal(a[..]) == RowSum(old(LVal(a[..])), j, d, LVal(b[..]), a.Length)
  {
    hide LVal, Cell, RowAdded, RowSum, Accumulate;
    ghost var x, y := a[..], b[..];
    var carry: nat, n := 0, a.Length;
    RowStart(x[..j], d);
    assert y[..0] == [];
    var i := 0;
    while i + j < n
      invariant i + j <= n && AreLimbs(a[..]) && carry < BASE
      invariant forall k | i + j <= k < n :: a[k] == x[k]
      invariant RowAdded(a[..i + j], x[..i + j], y[..i], d, j, carry)
    {
      ProductFits(carry, a[i + j], d, b[i]);
      var t := Accumulate(carry, a[i + j], d, b[i]);
      assert t < 0x1_0000_0000_0000_0000;
      ghost var before, c := a[..i + j], carry;
      a[i + j] := t % BASE;
      carry := t / BASE;
      assert a[..i + j] == before;
      assert a[..i + j + 1] == before + [a[i + j]] && x[..i + j + 1] == x[..i + j] + [x[i + j]];
      assert y[..i + 1] == y[..i] + [y[i]];
      RowStep(before, x[..i + j], y[..i], d, j, c, x[i + j], y[i], a[i + j], carry);
      i := i + 1;
    }
    assert a[..n] == a[..] && x[..n] == x;
    RowEnd(a[..], x, y, d, j, carry);
  }

  lemma ProductFits(c: nat, x: nat, d: nat, y: nat)
    requires c < BASE && x < BASE && d < BASE && y < BASE
    ensures Accumulate(c, x, d, y) < BASE * BASE
  {
    MulMono(d, BASE - 1, y);
  }

  lemma MulStart(y: seq<nat>, a: seq<nat>)
    requires forall i | 0 <= i < |a| :: a[i] == 0
    ensures LVal(a) == TimesMod(LVal([]), LVal(y), Cell(|a|))
  {
    hide Cell, LVal;
    LZero(a);
    CellStep(|a|);
    EmptyLimbs();
    assert LVal([]) * LVal(y) == 0;
    DivModUnique(0, Cell(|a|), 0, 0);
  }

  lemma ModAdd(x: nat, t: nat, m: nat)
    requires m > 0
    ensures (x % m + t) % m == (x + t) % m
  {
    var q, r := (x % m + t) / m, (x % m + t) % m;
    Times(m, x / m, q);
    DivModUnique(x + t, m, x / m + q, r);
  }

  lemma NextRow(x: seq<nat>, y: seq<nat>, j: nat, was: nat, now: nat)
    requires j < |x| && was == TimesMod(LVal(x[..j]), LVal(y), Cell(|x|))
    requires now == RowSum(was, j, x[j], LVal(y), |x|)
    ensures now == TimesMod(LVal(x[..j + 1]), LVal(y), Cell(|x|))
  {
    hide LVal, Cell;
    assert x[..j + 1] == x[..j] + [x[j]];
    LAppend(x[..j], x[j]);
    Times(LVal(y), LVal(x[..j]), Cell(j) * x[j]);
    Times(Cell(j), x[j], LVal(y));
    CellStep(|x|);
    ModAdd(LVal(x[..j]) * LVal(y), Cell(j) * (x[j] * LVal(y)), Cell(|x|));
  }

  // ---- Comparison and length ----------------------------------------------

  ghost predicate IsBitLength(v: nat, r: nat)
  {
    if r == 0 then v == 0 else Pow2(r - 1) <= v < Pow2(r)
  }

  lemma TwoLimbs(s: seq<nat>)
    requires |s| >= 2 && forall j | 2 <= j < |s| :: s[j] == 0
    ensures LVal(s) == s[0] + BASE * s[1]
  {
    LZero(s[2..]);
    assert s[1..][1..] == s[2..];
  }

  lemma LimbLength(s: seq<nat>, pos: nat, nbits: nat)
    requires AreLimbs(s) && pos < |s| && Pow2(nbits) <= s[pos] < Pow2(nbits + 1)
    requires forall j | pos < j < |s| :: s[j] == 0
    ensures IsBitLength(LVal(s), 32 * pos + nbits + 1)
  {
    hide LVal, Pow2;
    LSplit(s, pos + 1);
    LZero(s[pos + 1..]);
    assert s[..pos + 1] == s[..pos] + [s[pos]];
    LAppend(s[..pos], s[pos]);
    LBound(s[..pos]);
    Pow2Add(32 * pos, nbits);
    Pow2Add(32 * pos, nbits + 1);
    Between(LVal(s[..pos]), s[pos], Cell(pos), Pow2(nbits), Pow2(nbits + 1));
  }

  lemma Between(lo: nat, x: nat, p: nat, a: nat, b: nat)
    requires lo < p && a <= x < b
    ensures p * a <= lo + p * x < p * b
  {
    MulMono(a, x, p);
    MulMono(x + 1, b, p);
    Times(p, x, 1);
  }

  // ---- Shifts -------------------------------------------------------------

  /** Limb j of a number moved up k limbs and s bits, once the first i limbs are handled. */
  ghost function UpLimb(a: seq<nat>, k: nat, s: nat, i: nat, j: nat): nat
    requires s < 32 && i <= |a|
  {
    (if k <= j < k + i then Kept(a[j - k], s) else 0) + (if k < j <= k + i then Moved(a[j - k - 1], s) else 0)
  }

  lemma UpStart(a: seq<nat>, k: nat, s: nat)
    requires s < 32
    ensures forall j: nat :: UpLimb(a, k, s, 0, j) == 0
  {
  }

  lemma DownStart(a: seq<nat>, k: nat, s: nat)
    requires s < 32
    ensures forall j: nat :: DownLimb(a, k, s, 0, j) == 0
  {
  }

  lemma MovedNothing(x: nat)
    requires x < BASE
    ensures Moved(x, 0) == 0
  {
    assert Pow2(0) == 1;
  }

  lemma OrZero(x: nat)
    ensures Or(0, x) == x
  {
  }

  lemma UpStep(a: seq<nat>, k: nat, s: nat, i: nat)
    requires AreLimbs(a) && s < 32 && i < |a|
    ensures UpLimb(a, k, s, i, i + k + 1) == 0 && UpLimb(a, k, s, i + 1, i + k + 1) == Moved(a[i], s)
    ensures Or(0, Moved(a[i], s)) == Moved(a[i], s) && (s == 0 ==> Moved(a[i], s) == 0)
    ensures UpLimb(a, k, s, i + 1, i + k) == Or(UpLimb(a, k, s, i, i + k), Kept(a[i], s))
    ensures forall j: nat | j != i + k && j != i + k + 1 :: UpLimb(a, k, s, i + 1, j) == UpLimb(a, k, s, i, j)
  {
    hide Kept, Moved, Or;
    OrZero(Moved(a[i], s));
    OrZero(Kept(a[i], s));
    if s == 0 { MovedNothing(a[i]); }
    if i > 0 { OrUp(a[i], a[i - 1], s); }
  }

  lemma UpDone(a: seq<nat>, k: nat, s: nat, r: seq<nat>)
    requires AreLimbs(a) && s < 32 && |r| == |a| && forall j | 0 <= j < |a| :: r[j] == UpLimb(a, k, s, |a|, j)
    ensures AreLimbs(r) && LVal(r) == LVal(a) * Pow2(32 * k + s) % Cell(|a|)
  {
    hide LVal, Pow2, Kept, Moved, Or;
    var u, z := ShiftedUp(a, s, 0), seq(k, _ => 0);
    ShiftedUpAt(a, s, 0, |a|);
    forall j | 0 <= j < |a| ensures r[j] == (z + u)[j] && r[j] < BASE {
      UpLimbIs(a, k, s, j);
    }
    assert r == (z + u)[..|a|];
    UpLimbs(a, s, |a|);
    LDivMod(z + u, |a|);
    ShiftedUpVal(a, s, 0);
    LSplit(z + u, k);
    assert (z + u)[..k] == z && (z + u)[k..] == u;
    LZeros(k);
    Pow2Add(32 * k, s);
    Times(Pow2(32 * k), LVal(a), Pow2(s));
  }

  lemma UpLimbs(a: seq<nat>, s: nat, n: nat)
    requires AreLimbs(a) && s < 32 && n == |a|
    ensures AreLimbs(ShiftedUp(a, s, 0)) && |ShiftedUp(a, s, 0)| == n + 1
  {
    hide Pow2, Kept, Moved, ShiftedUp, Or;
    ShiftedUpAt(a, s, 0, 0);
    forall j | 0 <= j <= n ensures ShiftedUp(a, s, 0)[j] < BASE {
      ShiftedUpAt(a, s, 0, j);
      if j > 0 && j < n { OrUp(a[j], a[j - 1], s); }
      if j < n { KeptIs(a[j], s); }
      if j > 0 {
        MovedBound(a[j - 1], s);
        Pow2Monotone(s, 32);
        Pow2Values();
      }
    }
  }

  lemma UpLimbIs(a: seq<nat>, k: nat, s: nat, j: nat)
    requires AreLimbs(a) && s < 32 && j < |a|
    ensures UpLimb(a, k, s, |a|, j) < BASE && |ShiftedUp(a, s, 0)| == |a| + 1
    ensures UpLimb(a, k, s, |a|, j) == (seq(k, _ => 0) + ShiftedUp(a, s, 0))[j]
  {
    hide Pow2, Kept, Moved, ShiftedUp;
    ShiftedUpAt(a, s, 0, 0);
    UpLimbs(a, s, |a|);
    if j >= k { ShiftedUpAt(a, s, 0, j - k); }
  }

  /** Limb j of a number moved down k limbs and s bits, once the first i limbs are handled. */
  ghost function DownLimb(a: seq<nat>, k: nat, s: nat, i: nat, j: nat): nat
    requires s < 32 && i <= |a|
  {
    (if j + k < i then Down(a[j + k], s) else 0) + (if j + k + 1 < i then Incoming(a, j + k + 1, s) else 0)
  }

  lemma DownStep(a: seq<nat>, k: nat, s: nat, i: nat)
    requires AreLimbs(a) && s < 32 && i < |a|
    ensures i >= k ==> DownLimb(a, k, s, i, i - k) == 0 && DownLimb(a, k, s, i + 1, i - k) == Or(0, Down(a[i], s))
    ensures i > k && s == 0 ==> DownLimb(a, k, s, i + 1, i - k - 1) == DownLimb(a, k, s, i, i - k - 1)
    ensures i > k && s > 0 ==>
      DownLimb(a, k, s, i + 1, i - k - 1) == Or(DownLimb(a, k, s, i, i - k - 1), Kept(a[i], 32 - s))
    ensures forall j: nat | j + k != i && j + k + 1 != i :: DownLimb(a, k, s, i + 1, j) == DownLimb(a, k, s, i, j)
  {
    hide Kept, Down, Or, Pow2;
    OrZero(Down(a[i], s));
    if s > 0 && i > k { OrDown(a[i - 1], a[i], s); }
    if s == 0 { NothingIn(a, i); }
  }

  lemma NothingIn(a: seq<nat>, j: nat)
    ensures Incoming(a, j, 0) == 0
  {
    assert Pow2(0) == 1;
  }

  lemma DownDone(a: seq<nat>, k: nat, s: nat, r: seq<nat>)
    requires AreLimbs(a) && s < 32 && |r| == |a| && forall j | 0 <= j < |a| :: r[j] == DownLimb(a, k, s, |a|, j)
    ensures AreLimbs(r) && LVal(r) == Quot(LVal(a), Pow2(32 * k + s))
  {
    hide LVal, Pow2, Down, Quot;
    forall j | 0 <= j < |a| ensures r[j] < BASE { DownLimbBound(a, k, s, j); }
    if k <= |a| {
      var c, z := a[k..], seq(k, _ => 0);
      var d := ShiftedDown(c, s);
      if c == [] { NoLimbs(s); } else { ShiftedDownAt(c, s, 0); }
      forall j | 0 <= j < |a| ensures r[j] == (d + z)[j] {
        if j < |c| { ShiftedDownAt(c, s, j); }
      }
      assert r == d + z;
      LSplit(d + z, |d|);
      assert (d + z)[..|d|] == d && (d + z)[|d|..] == z;
      LZeros(k);
      ShiftedDownVal(c, s);
      LDivMod(a, k);
      DivTwice(LVal(a), 32 * k, s);
    } else {
      LZero(r);
      LBound(a);
      Pow2Monotone(32 * |a|, 32 * k + s);
      DivZero(LVal(a), Pow2(32 * k + s));
    }
  }

  lemma NoLimbs(s: nat)
    requires s < 32
    ensures ShiftedDown([], s) == []
  {
  }

  lemma DivZero(x: nat, p: nat)
    requires x < p
    ensures Quot(x, p) == 0
  {
  }

  lemma DivTwice(x: nat, m: nat, n: nat)
    ensures x / Pow2(m) / Pow2(n) == Quot(x, Pow2(m + n))
  {
    hide Pow2;
    Pow2Add(m, n);
    var p, q := Pow2(m), Pow2(n);
    var y, r := x / p, x % p;
    var z, t := y / q, y % q;
    calc {
      x;
      p * y + r;
      p * (q * z + t) + r;
      { Times(p, q * z, t); }
      p * (q * z) + p * t + r;
      { Times(p, q, z); }
      z * (p * q) + (p * t + r);
    }
    MulMono(t + 1, q, p);
    Times(p, t, 1);
    DivModUnique(x, p * q, z, p * t + r);
  }

  lemma DownLimbBound(a: seq<nat>, k: nat, s: nat, j: nat)
    requires AreLimbs(a) && s < 32 && j < |a|
    ensures DownLimb(a, k, s, |a|, j) < BASE
  {
    hide Pow2, Down, Or;
    if j + k < |a| {
      DownBound(a[j + k], s);
      Pow2Monotone(32 - s, 32);
      Pow2Values();
      if s == 0 { NothingIn(a, j + k + 1); }
      if s > 0 && j + k + 1 < |a| { OrDown(a[j + k], a[j + k + 1], s); }
    }
  }

  // ---- Addition -----------------------------------------------------------

  /** Limbs r hold the sum of x and y but for a carry out of them. */
  ghost predicate Added(r: seq<nat>, x: seq<nat>, y: seq<nat>, carry: nat)
  {
    |r| == |x| == |y| && LVal(r) + Cell(|r|) * carry == LVal(x) + LVal(y)
  }

  lemma AddStart()
    ensures Added([], [], [], 0)
  {
  }

  lemma AddStep(r: seq<nat>, x: seq<nat>, y: seq<nat>, c: nat, xi: nat, yi: nat, ri: nat, carry: nat)
    requires Added(r, x, y, c) && c + xi + yi == ri + BASE * carry
    ensures Added(r + [ri], x + [xi], y + [yi], carry)
  {
    hide LVal, Cell;
    LAppend(r, ri);
    LAppend(x, xi);
    LAppend(y, yi);
    CellStep(|r|);
    CellSum(Cell(|r|), c, xi, yi, ri, carry);
  }

  lemma CellSum(p: nat, c: nat, xi: nat, yi: nat, ri: nat, carry: nat)
    requires c + xi + yi == ri + BASE * carry
    ensures p * c + p * xi + p * yi == p * ri + BASE * p * carry
  {
    calc {
      p * c + p * xi + p * yi;
      p * (c + xi + yi);
      p * (ri + BASE * carry);
      p * ri + p * (BASE * carry);
    }
  }

  lemma AddEnd(r: seq<nat>, x: seq<nat>, y: seq<nat>, carry: nat)
    requires AreLimbs(r) && Added(r, x, y, carry)
    ensures LVal(r) == (LVal(x) + LVal(y)) % Cell(|r|)
  {
    hide LVal, Cell;
    Truncated(r, carry, LVal(x) + LVal(y));
  }

  /** Dropping the last carry leaves the remainder. */
  lemma Truncated(r: seq<nat>, carry: nat, total: nat)
    requires AreLimbs(r) && LVal(r) + Cell(|r|) * carry == total
    ensures LVal(r) == total % Cell(|r|)
  {
    hide LVal, Cell;
    LBound(r);
    CellStep(|r|);
    Times(carry, Cell(|r|), 0);
    DivModUnique(total, Cell(|r|), carry, LVal(r));
  }

  lemma {:induction false} ComplementVal(x: seq<nat>, r: seq<nat>)
    requires AreLimbs(x) && |r| == |x| && forall j | 0 <= j < |x| :: r[j] == BASE - 1 - x[j]
    ensures LVal(x) + LVal(r) == Cell(|x|) - 1
  {
    hide Cell;
    CellStep(0);
    if x != [] {
      CellStep(|x| - 1);
      ComplementVal(x[1..], r[1..]);
    }
  }

  /** Limbs below i back to zero and limb i up by one. */
  ghost function Bumped(x: seq<nat>, i: nat): seq<nat>
    requires i < |x|
  {
    seq(i, _ => 0) + [x[i] + 1] + x[i + 1..]
  }

  lemma {:induction false} IncrementVal(x: seq<nat>, r: seq<nat>, i: nat)
    requires AreLimbs(x) && AreLimbs(r) && |r| == |x| && i <= |x|
    requires forall j | 0 <= j < i :: x[j] == BASE - 1
    requires i < |x| ==> r == Bumped(x, i)
    requires i == |x| ==> forall j | 0 <= j < i :: r[j] == 0
    ensures LVal(r) == (LVal(x) + 1) % Cell(|x|)
  {
    hide Cell, LVal;
    LBound(x);
    LBound(r);
    CellStep(|x|);
    AllOnes(x[..i]);
    LZero(r[..i]);
    LSplit(x, i);
    LSplit(r, i);
    if i == |x| {
      assert x[i..] == [] == r[i..] && x[..i] == x && r[..i] == r;
      EmptyLimbs();
      assert LVal(r) == 0 && LVal(x) + 1 == Cell(|x|);
      DivModUnique(Cell(|x|), Cell(|x|), 1, 0);
    } else {
      var u, v := x[i..], r[i..];
      assert v == [x[i] + 1] + x[i + 1..] && u == [x[i]] + x[i + 1..];
      HeadUp(x[i], x[i + 1..]);
      Times(Cell(i), LVal(u), 1);
      DivModUnique(LVal(r), Cell(|x|), 0, LVal(r));
    }
  }

  lemma EmptyLimbs()
    ensures LVal([]) == 0
  {
  }

  lemma HeadUp(d: nat, s: seq<nat>)
    ensures LVal([d + 1] + s) == LVal([d] + s) + 1
  {
    assert ([d + 1] + s)[1..] == s == ([d] + s)[1..];
  }

  lemma {:induction false} AllOnes(x: seq<nat>)
    requires forall j | 0 <= j < |x| :: x[j] == BASE - 1
    ensures LVal(x) == Cell(|x|) - 1
  {
    hide Cell;
    CellStep(0);
    if x != [] {
      CellStep(|x| - 1);
      AllOnes(x[1..]);
    }
  }

  lemma SubVal(x: nat, y: nat, m: nat)
    requires x < m && y < m
    ensures (x + (m - y) % m) % m == MinusMod(x, y, m)
  {
    if y == 0 {
      DivModUnique(m, m, 1, 0);
      DivModUnique(x, m, 0, x);
    } else {
      DivModUnique(m - y, m, 0, m - y);
      if x >= y {
        DivModUnique(x + (m - y), m, 1, x - y);
      } else {
        DivModUnique(x + (m - y), m, 0, x + (m - y));
      }
    }
  }
}
