/** Bits of 64-bit words. */
module Words {

  predicate IsSet(w: bv64, b: bv64)
    requires b < 64
  {
    (w >> b) & 1 == 1
  }

  function And64(x: bv64, y: bv64): bv64 { x & y }
  function Or64(x: bv64, y: bv64): bv64 { x | y }
  function Xor64(x: bv64, y: bv64): bv64 { x ^ y }
  function Not64(x: bv64): bv64 { !x }
  function Shifted(v: bv64, b: bv64): bv64 requires b < 64 { v << b }

  /** All ones for one, zero for zero. */
  function Spread(v: bv64): bv64 { 0 - v }

  /** A bit is set when it meets the mask with this bit alone. */
  predicate Meets(x: bv64, m: bv64) { x & m != 0 }

  lemma SetMeets(x: bv64, b: bv64)
    requires b < 64
    ensures IsSet(x, b) <==> Meets(x, Shifted(1, b))
  {
  }

  /** A mask with one bit covers all of a word's bits it meets. */
  predicate Single(x: bv64, m: bv64) { m != 0 && (x & m == 0 || x & m == m) }

  lemma OneBit(x: bv64, b: bv64)
    requires b < 64
    ensures Single(x, Shifted(1, b))
  {
  }

  lemma RawAnd(x: bv64, y: bv64, m: bv64)
    requires m != 0 && (x & m == 0 || x & m == m) && (y & m == 0 || y & m == m)
    ensures (x & y) & m != 0 <==> x & m != 0 && y & m != 0
  {
  }

  lemma RawOr(x: bv64, y: bv64, m: bv64)
    requires m != 0 && (x & m == 0 || x & m == m) && (y & m == 0 || y & m == m)
    ensures (x | y) & m != 0 <==> x & m != 0 || y & m != 0
  {
  }

  lemma RawXor(x: bv64, y: bv64, m: bv64)
    requires m != 0 && (x & m == 0 || x & m == m) && (y & m == 0 || y & m == m)
    ensures (x ^ y) & m != 0 <==> !(x & m != 0 <==> y & m != 0)
  {
  }

  lemma AndMeets(x: bv64, y: bv64, m: bv64)
    requires Single(x, m) && Single(y, m)
    ensures Meets(And64(x, y), m) <==> Meets(x, m) && Meets(y, m)
  {
    calc <==> {
      Meets(And64(x, y), m);
      Meets(x & y, m);
      (x & y) & m != 0;
      { RawAnd(x, y, m); }
      x & m != 0 && y & m != 0;
      Meets(x, m) && Meets(y, m);
    }
  }

  lemma OrMeets(x: bv64, y: bv64, m: bv64)
    requires Single(x, m) && Single(y, m)
    ensures Meets(Or64(x, y), m) <==> Meets(x, m) || Meets(y, m)
  {
    calc <==> {
      Meets(Or64(x, y), m);
      Meets(x | y, m);
      (x | y) & m != 0;
      { RawOr(x, y, m); }
      x & m != 0 || y & m != 0;
      Meets(x, m) || Meets(y, m);
    }
  }

  lemma XorMeets(x: bv64, y: bv64, m: bv64)
    requires Single(x, m) && Single(y, m)
    ensures Meets(Xor64(x, y), m) <==> !(Meets(x, m) <==> Meets(y, m))
  {
    calc <==> {
      Meets(Xor64(x, y), m);
      Meets(x ^ y, m);
      (x ^ y) & m != 0;
      { RawXor(x, y, m); }
      !(x & m != 0 <==> y & m != 0);
      !(Meets(x, m) <==> Meets(y, m));
    }
  }

  lemma AndSet(x: bv64, y: bv64, c: bv64)
    requires c < 64
    ensures IsSet(And64(x, y), c) <==> IsSet(x, c) && IsSet(y, c)
  {
    hide IsSet, And64, Shifted, Meets, Single;
    SetMeets(x, c);
    SetMeets(y, c);
    SetMeets(And64(x, y), c);
    OneBit(x, c);
    OneBit(y, c);
    AndMeets(x, y, Shifted(1, c));
  }

  lemma OrSet(x: bv64, y: bv64, c: bv64)
    requires c < 64
    ensures IsSet(Or64(x, y), c) <==> IsSet(x, c) || IsSet(y, c)
  {
    hide IsSet, Or64, Shifted, Meets, Single;
    SetMeets(x, c);
    SetMeets(y, c);
    SetMeets(Or64(x, y), c);
    OneBit(x, c);
    OneBit(y, c);
    OrMeets(x, y, Shifted(1, c));
  }

  lemma XorSet(x: bv64, y: bv64, c: bv64)
    requires c < 64
    ensures IsSet(Xor64(x, y), c) <==> !(IsSet(x, c) <==> IsSet(y, c))
  {
    hide IsSet, Xor64, Shifted, Meets, Single;
    SetMeets(x, c);
    SetMeets(y, c);
    SetMeets(Xor64(x, y), c);
    OneBit(x, c);
    OneBit(y, c);
    XorMeets(x, y, Shifted(1, c));
  }

  lemma NotSet(x: bv64, c: bv64)
    requires c < 64
    ensures IsSet(Not64(x), c) <==> !IsSet(x, c)
  {
  }

  lemma SpreadSet(v: bv64, c: bv64)
    requires c < 64 && v < 2
    ensures IsSet(Spread(v), c) <==> v == 1
  {
  }

  lemma ShiftedSet(v: bv64, b: bv64, c: bv64)
    requires b < 64 && c < 64 && v < 2
    ensures IsSet(Shifted(v, b), c) <==> v == 1 && b == c
  {
  }
}
