/** What the CashAddr checksum computes: a remainder of polynomials over the field of 32 elements. */
module CashAddrField {
  import opened CashAddr
  import opened CashAddrCodec
  import opened Words

  // ---- The field ----------------------------------------------------------

  /** Multiplication by a, where a^5 == a^3 + 1. */
  function Double(b: Sym): Sym
  {
    ((b << 1) & 0x1f) ^ (if b & 0x10 != 0 then 9 else 0)
  }

  /** The summand of one bit of a factor. */
  function Part(c: Sym, mask: Sym, b: Sym): Sym
  {
    if c & mask != 0 then b else 0
  }

  /** Multiplication in the field: the bits of c select the products of b by the powers of a. */
  function Mul(c: Sym, b: Sym): Sym
  {
    var b2 := Double(b);
    var b4 := Double(b2);
    var b8 := Double(b4);
    Xor8(Xor8(Xor8(Xor8(Part(c, 1, b), Part(c, 2, b2)), Part(c, 4, b4)), Part(c, 8, b8)), Part(c, 16, Double(b8)))
  }

  /** The example of a sum and a product in the source. */
  lemma FieldExample()
    ensures Xor8(27, 13) == 22 && Mul(5, 26) == 9
  {
  }

  lemma MulOne(c: Sym)
    requires c < 32
    ensures Mul(c, 1) == c
  {
  }

  // ---- Polynomials, highest coefficient first -----------------------------

  /** x^8 + {19}x^7 + {3}x^6 + {25}x^5 + {11}x^4 + {25}x^3 + {3}x^2 + {19}x + {1}. */
  function Coefficient(k: nat): Sym
    requires k <= 8
  {
    if k == 0 || k == 8 then 1 else if k == 1 || k == 7 then 19 else if k == 2 || k == 6 then 3
    else if k == 3 || k == 5 then 25 else 11
  }

  function Gen(): seq<Sym>
  {
    seq(9, k requires 0 <= k < 9 => Coefficient(k))
  }

  function Scale(c: Sym, p: seq<Sym>): seq<Sym>
  {
    seq(|p|, i requires 0 <= i < |p| => Mul(c, p[i]))
  }

  function ZeroPoly(n: nat): seq<Sym>
  {
    seq(n, _ => 0)
  }

  /** q * g, for a quotient q: each further coefficient moves the product up and adds its multiple of g. */
  ghost function Product(q: seq<Sym>): (p: seq<Sym>)
    ensures |p| == |q| + 8
  {
    if q == [] then ZeroPoly(8)
    else
      var n := |q| - 1;
      Xor(Product(q[..n]) + [0], ZeroPoly(n) + Scale(q[n], Gen()))
  }

  /** w is q * g plus a remainder of fewer than nine terms. */
  ghost predicate Divided(w: seq<Sym>, q: seq<Sym>, r: seq<Sym>)
  {
    |q| == |w| && |r| == 8 && ZeroPoly(8) + w == Xor(Product(q), ZeroPoly(|w|) + r)
  }

  // ---- One step -----------------------------------------------------------

  function Group(x: bv64, k: nat): Sym
    requires k < 8
  {
    Low5(ShiftOut(x, k))
  }

  lemma TopShift(x: bv64)
    ensures Shift5Out(x >> 30) == x >> 35 && Shift5Out(x) == x >> 5
  {
  }

  lemma NextShift(x: bv64, k: nat)
    requires k < 7
    ensures ShiftOut(x, k) == Shift5Out(ShiftOut(x, k + 1))
  {
    hide Shift5Out;
    if k == 6 {
      calc {
        ShiftOut(x, 6);
        x >> 5;
        { TopShift(x); }
        Shift5Out(x);
        Shift5Out(ShiftOut(x, 7));
      }
    } else if k == 0 {
      TopShift(x);
    } else if k <= 3 {
      MiddleShifts(x);
    } else {
      LastShifts(x);
    }
  }

  lemma Shift5OutXor(x: bv64, y: bv64)
    ensures Shift5Out(Xor64(x, y)) == Xor64(Shift5Out(x), Shift5Out(y))
  {
  }

  lemma NoShift(x: bv64)
    ensures ShiftOut(x, 7) == x
  {
  }

  lemma {:induction false} ShiftOutXor(a: bv64, b: bv64, k: nat)
    requires k < 8
    ensures ShiftOut(Xor64(a, b), k) == Xor64(ShiftOut(a, k), ShiftOut(b, k))
    decreases 8 - k
  {
    hide ShiftOut, Shift5Out, Xor64;
    if k == 7 {
      NoShift(a);
      NoShift(b);
      NoShift(Xor64(a, b));
    } else {
      NextShift(a, k);
      NextShift(b, k);
      NextShift(Xor64(a, b), k);
      ShiftOutXor(a, b, k + 1);
      Shift5OutXor(ShiftOut(a, k + 1), ShiftOut(b, k + 1));
    }
  }

  lemma Low5Xor(x: bv64, y: bv64)
    ensures Low5(Xor64(x, y)) == Xor8(Low5(x), Low5(y))
  {
  }

  lemma GroupXor(a: bv64, b: bv64, k: nat)
    requires k < 8
    ensures Group(Xor64(a, b), k) == Xor8(Group(a, k), Group(b, k))
  {
    hide Low5, ShiftOut, Xor8, Xor64;
    ShiftOutXor(a, b, k);
    Low5Xor(ShiftOut(a, k), ShiftOut(b, k));
  }

  lemma GroupShift(c: bv64, k: nat)
    requires c < LIMIT_40 && k < 8
    ensures Group(Shift5(c), k) == if k < 7 then Group(c, k + 1) else 0
  {
    hide Group, Shift5;
    if k < 4 { GroupShiftHigh(c, k); } else { GroupShiftLow(c, k); }
  }

  lemma GroupShiftHigh(c: bv64, k: nat)
    requires c < LIMIT_40 && k < 4
    ensures Group(Shift5(c), k) == Group(c, k + 1)
  {
  }

  lemma GroupShiftLow(c: bv64, k: nat)
    requires c < LIMIT_40 && 4 <= k < 8
    ensures Group(Shift5(c), k) == if k < 7 then Group(c, k + 1) else 0
  {
  }

  lemma GroupWide(d: Sym, k: nat)
    requires d < 32 && k < 8
    ensures Group(Wide(d), k) == if k < 7 then 0 else d
  {
  }

  /** The constants are the multiples of g, without its leading term, by the powers of a. */
  lemma Constants1(k: nat)
    requires k < 8
    ensures Group(0x98f2bc8e61, k) == Coefficient(k + 1)
    ensures Group(0x79b76d99e2, k) == Double(Coefficient(k + 1))
  {
  }

  lemma Constants2(k: nat)
    requires k < 8
    ensures Group(0xf33e5fb3c4, k) == Double(Double(Coefficient(k + 1)))
    ensures Group(0xae2eabe2a8, k) == Double(Double(Double(Coefficient(k + 1))))
  {
  }

  lemma Constants3(k: nat)
    requires k < 8
    ensures Group(0x1e4f43e470, k) == Double(Double(Double(Double(Coefficient(k + 1)))))
  {
  }

  lemma SameBit(c0: bv64, mask: Sym)
    requires c0 < 32 && (mask == 1 || mask == 2 || mask == 4 || mask == 8 || mask == 16)
    ensures Meets(c0, Wide(mask)) <==> Low5(c0) & mask != 0
  {
  }

  lemma GroupTerm(c0: bv64, mask: bv64, narrow: Sym, x: bv64, k: nat, b: Sym)
    requires k < 8 && c0 < 32 && mask == Wide(narrow) && Group(x, k) == b
    requires narrow == 1 || narrow == 2 || narrow == 4 || narrow == 8 || narrow == 16
    ensures Group(Term(c0, mask, x), k) == Part(Low5(c0), narrow, b)
  {
    hide Meets, Wide, Group, Low5;
    SameBit(c0, narrow);
    GroupZero(k);
  }

  lemma GroupZero(k: nat)
    requires k < 8
    ensures Group(0, k) == 0
  {
  }

  lemma Narrow()
    ensures Wide(1) == 1 && Wide(2) == 2 && Wide(4) == 4 && Wide(8) == 8 && Wide(16) == 16
  {
  }

  lemma GroupGenerator(c0: bv64, k: nat)
    requires c0 < 32 && k < 8
    ensures Group(Generator(c0), k) == Mul(Low5(c0), Coefficient(k + 1))
  {
    hide Group, Term, Part, Xor64, Xor8, Wide, Low5, Double, Coefficient;
    var b := Coefficient(k + 1);
    Constants1(k);
    Constants2(k);
    Constants3(k);
    Narrow();
    var t1, t2, t4 := Term(c0, 1, 0x98f2bc8e61), Term(c0, 2, 0x79b76d99e2), Term(c0, 4, 0xf33e5fb3c4);
    var t8, t16 := Term(c0, 8, 0xae2eabe2a8), Term(c0, 16, 0x1e4f43e470);
    GroupTerm(c0, 1, 1, 0x98f2bc8e61, k, b);
    GroupTerm(c0, 2, 2, 0x79b76d99e2, k, Double(b));
    GroupTerm(c0, 4, 4, 0xf33e5fb3c4, k, Double(Double(b)));
    GroupTerm(c0, 8, 8, 0xae2eabe2a8, k, Double(Double(Double(b))));
    GroupTerm(c0, 16, 16, 0x1e4f43e470, k, Double(Double(Double(Double(b)))));
    GroupXor(t1, t2, k);
    GroupXor(Xor64(t1, t2), t4, k);
    GroupXor(Xor64(Xor64(t1, t2), t4), t8, k);
    GroupXor(Xor64(Xor64(Xor64(t1, t2), t4), t8), t16, k);
  }

  lemma TopGroup(c: bv64)
    requires c < LIMIT_40
    ensures Top5(c) < 32 && Low5(Top5(c)) == Group(c, 0)
  {
  }

  lemma Xor8Right(x: Sym)
    ensures Xor8(x, 0) == x && Xor8(0, x) == x
  {
  }

  /** A step multiplies by x, takes the symbol in and subtracts the multiple of g that clears the top. */
  lemma GroupStep(c: bv64, d: Sym, k: nat)
    requires c < LIMIT_40 && d < 32 && k < 8
    ensures Group(PolyStep(c, d), k) == Xor8(if k < 7 then Group(c, k + 1) else d, Mul(Group(c, 0), Coefficient(k + 1)))
  {
    hide Group, Generator, Xor64, Xor8, Wide, Shift5, Top5, Low5, Mul, Coefficient;
    TopGroup(c);
    GroupXor(Xor64(Shift5(c), Wide(d)), Generator(Top5(c)), k);
    GroupXor(Shift5(c), Wide(d), k);
    GroupShift(c, k);
    GroupWide(d, k);
    GroupGenerator(Top5(c), k);
    Xor8Right(if k < 7 then Group(c, k + 1) else d);
  }

  // ---- The remainder ------------------------------------------------------

  /** The quotient: the symbols shifted out of the top. */
  ghost function Quotient(w: seq<Sym>): (q: seq<Sym>)
    ensures |q| == |w|
  {
    if w == [] then [] else var n := |w| - 1; Quotient(w[..n]) + [Group(Fold(0, w[..n]), 0)]
  }

  lemma FoldLast(w: seq<Sym>)
    requires w != []
    ensures Fold(0, w) == PolyStep(Fold(0, w[..|w| - 1]), w[|w| - 1])
  {
    hide PolyStep;
    var n := |w| - 1;
    assert w == w[..n] + [w[n]] && [w[n]][1..] == [];
    FoldConcat(0, w[..n], [w[n]]);
  }

  lemma ProductStep(q: seq<Sym>, c: Sym)
    ensures Product(q + [c]) == Xor(Product(q) + [0], ZeroPoly(|q|) + Scale(c, Gen()))
  {
    hide Scale, Xor, ZeroPoly;
    assert (q + [c])[..|q|] == q;
  }

  lemma ProductAt(q: seq<Sym>, c: Sym, i: nat)
    requires i < |q| + 9
    ensures Product(q + [c])[i] ==
      Xor8(if i < |q| + 8 then Product(q)[i] else 0, if i < |q| then 0 else Mul(c, Coefficient(i - |q|)))
  {
    hide Mul, Coefficient, Xor8, Product, Scale, Gen, Xor, ZeroPoly;
    ProductStep(q, c);
    ScaledAt(|q|, c, i);
    XorAt(Product(q) + [0], ZeroPoly(|q|) + Scale(c, Gen()), i);
  }

  lemma ScaledAt(n: nat, c: Sym, i: nat)
    requires i < n + 9
    ensures |ZeroPoly(n)| == n && |Scale(c, Gen())| == 9
    ensures (ZeroPoly(n) + Scale(c, Gen()))[i] == if i < n then 0 else Mul(c, Coefficient(i - n))
  {
    hide Mul, Coefficient;
    if i >= n { assert (ZeroPoly(n) + Scale(c, Gen()))[i] == Scale(c, Gen())[i - n]; }
  }

  lemma XorAt(a: seq<Sym>, b: seq<Sym>, i: nat)
    requires |a| == |b| && i < |a|
    ensures Xor(a, b)[i] == Xor8(a[i], b[i])
  {
    hide Xor8;
  }

  /** What a division says of one place. */
  ghost predicate PlaceOk(w: seq<Sym>, q: seq<Sym>, r: seq<Sym>, i: nat)
    requires |q| == |w| && |r| == 8 && i < |w| + 8
  {
    (if i < 8 then 0 else w[i - 8]) == Xor8(Product(q)[i], if i < |w| then 0 else r[i - |w|])
  }

  lemma DividedPlaces(w: seq<Sym>, q: seq<Sym>, r: seq<Sym>)
    requires |q| == |w| && |r| == 8
    ensures Divided(w, q, r) <==> forall i | 0 <= i < |w| + 8 :: PlaceOk(w, q, r, i)
  {
    hide Product, Xor8;
    var x, y := ZeroPoly(8) + w, Xor(Product(q), ZeroPoly(|w|) + r);
    forall i | 0 <= i < |w| + 8 ensures x[i] == y[i] <==> PlaceOk(w, q, r, i) {
      assert (ZeroPoly(|w|) + r)[i] == if i < |w| then 0 else r[i - |w|];
    }
    if forall i | 0 <= i < |w| + 8 :: PlaceOk(w, q, r, i) {
      assert forall i | 0 <= i < |x| :: x[i] == y[i];
    }
  }

  /** One more coefficient of the dividend, place by place. */
  lemma NextPlace(w: seq<Sym>, d: Sym, q: seq<Sym>, c: bv64, i: nat)
    requires c < LIMIT_40 && d < 32 && |q| == |w| && i < |w| + 9
    requires forall j | 0 <= j < |w| + 8 :: PlaceOk(w, q, Groups(c), j)
    ensures PlaceOk(w + [d], q + [Group(c, 0)], Groups(PolyStep(c, d)), i)
  {
    hide Group, Groups, Mul, Coefficient, PolyStep, Xor8, Product;
    var n, c0 := |w|, Group(c, 0);
    ProductAt(q, c0, i);
    GroupsAre(c);
    GroupsAre(PolyStep(c, d));
    GroupBound(c, 0);
    if i < n + 8 { assert PlaceOk(w, q, Groups(c), i); }
    if i < n {
      Xor8Right(Product(q)[i]);
    } else {
      var k := i - n;
      if k > 0 { GroupStep(c, d, k - 1); }
      var x := if k < 8 then Product(q)[i] else 0;
      var was := if k < 8 then Group(c, k) else d;
      PlaceSum(x, c0, k, was, if k > 0 then Group(PolyStep(c, d), k - 1) else 0);
      Xor8Right(d);
    }
  }

  /** Running the checksum from the zero state divides by g. */
  lemma {:induction false} FoldDivides(w: seq<Sym>)
    requires Symbols(w)
    ensures forall i | 0 <= i < |w| + 8 :: PlaceOk(w, Quotient(w), Groups(Fold(0, w)), i)
  {
    hide Group, Groups, PolyStep, Xor8, PlaceOk, Fold;
    if w == [] {
      forall i | 0 <= i < 8 ensures PlaceOk([], [], Groups(0), i) { NothingDivided(i); }
      NoFold();
    } else {
      var n := |w| - 1;
      FoldDivides(w[..n]);
      FoldLast(w);
      FoldBound(0, w[..n]);
      assert w == w[..n] + [w[n]];
      forall i | 0 <= i < |w| + 8 ensures PlaceOk(w, Quotient(w), Groups(Fold(0, w)), i) {
        NextPlace(w[..n], w[n], Quotient(w[..n]), Fold(0, w[..n]), i);
      }
    }
  }

  lemma NoFold()
    ensures Fold(0, []) == 0
  {
  }

  lemma NothingDivided(i: nat)
    requires i < 8
    ensures PlaceOk([], [], Groups(0), i)
  {
    hide Group, Groups;
    GroupsAre(0);
    GroupZero(i);
    Xor8Right(0);
  }

  lemma StartsFromZero(v: seq<Sym>)
    ensures Fold(0, [1] + v) == Fold(1, v)
  {
    hide PolyStep;
    assert ([1] + v)[1..] == v;
    FirstStep();
  }

  lemma FirstStep()
    ensures PolyStep(0, 1) == 1
  {
  }

  /** There is no other quotient and remainder. */
  lemma RemainderUnique(w: seq<Sym>, q: seq<Sym>, r: seq<Sym>, q2: seq<Sym>, r2: seq<Sym>)
    requires Divided(w, q, r) && Divided(w, q2, r2) && Symbols(q) && Symbols(q2)
    ensures q == q2 && r == r2
  {
    hide Product, Xor8, Divided, PlaceOk;
    LengthsOf(w, q, r);
    LengthsOf(w, q2, r2);
    DividedPlaces(w, q, r);
    DividedPlaces(w, q2, r2);
    forall i | 0 <= i < |w| ensures Product(q)[i] == Product(q2)[i] {
      SameHigh(w, q, r, q2, r2, i);
    }
    QuotientUnique(q, q2);
    forall i | 0 <= i < 8 ensures r[i] == r2[i] { SameLow(w, q, r, r2, i); }
  }

  lemma LengthsOf(w: seq<Sym>, q: seq<Sym>, r: seq<Sym>)
    requires Divided(w, q, r)
    ensures |q| == |w| && |r| == 8
  {
  }

  lemma SameHigh(w: seq<Sym>, q: seq<Sym>, r: seq<Sym>, q2: seq<Sym>, r2: seq<Sym>, i: nat)
    requires |q| == |q2| == |w| && |r| == |r2| == 8 && i < |w| && PlaceOk(w, q, r, i) && PlaceOk(w, q2, r2, i)
    ensures Product(q)[i] == Product(q2)[i]
  {
    hide Product, Xor8;
    Xor8Right(Product(q)[i]);
    Xor8Right(Product(q2)[i]);
  }

  lemma SameLow(w: seq<Sym>, q: seq<Sym>, r: seq<Sym>, r2: seq<Sym>, i: nat)
    requires |q| == |w| && |r| == |r2| == 8 && i < 8 && PlaceOk(w, q, r, |w| + i) && PlaceOk(w, q, r2, |w| + i)
    ensures r[i] == r2[i]
  {
    hide Product, Xor8;
    XorInjective(Product(q)[|w| + i], r[i], r2[i]);
  }

  lemma XorInjective(x: Sym, y: Sym, z: Sym)
    ensures Xor8(x, y) == Xor8(x, z) ==> y == z
  {
  }

  /** g is monic, so the high places of a product give the factor. */
  lemma {:induction false} QuotientUnique(q: seq<Sym>, q2: seq<Sym>)
    requires |q| == |q2| && Symbols(q) && Symbols(q2)
    requires forall i | 0 <= i < |q| :: Product(q)[i] == Product(q2)[i]
    ensures q == q2
  {
    hide Product, Xor8, Mul;
    if q != [] {
      var n := |q| - 1;
      var p, p2 := q[..n], q2[..n];
      assert q == p + [q[n]] && q2 == p2 + [q2[n]];
      forall i | 0 <= i < n ensures Product(p)[i] == Product(p2)[i] {
        ProductAt(p, q[n], i);
        ProductAt(p2, q2[n], i);
        Xor8Right(Product(p)[i]);
        Xor8Right(Product(p2)[i]);
      }
      QuotientUnique(p, p2);
      ProductAt(p, q[n], n);
      ProductAt(p2, q2[n], n);
      MulOne(q[n]);
      MulOne(q2[n]);
      XorInjective(Product(p)[n], q[n], q2[n]);
    }
  }

  lemma GroupsAre(x: bv64)
    ensures |Groups(x)| == 8 && forall k | 0 <= k < 8 :: Groups(x)[k] == Group(x, k)
  {
  }

  lemma GroupBound(x: bv64, k: nat)
    requires k < 8
    ensures Group(x, k) < 32
  {
    Low5Bound(ShiftOut(x, k));
  }

  /** The multiple of g accounts for the difference between the two remainders at place k. */
  lemma PlaceSum(x: Sym, c0: Sym, k: nat, was: Sym, now: Sym)
    requires k <= 8 && c0 < 32
    requires k == 0 ==> was == c0 && now == 0
    requires k > 0 ==> now == Xor8(was, Mul(c0, Coefficient(k)))
    ensures Xor8(x, was) == Xor8(Xor8(x, Mul(c0, Coefficient(k))), now)
  {
    hide Mul;
    if k == 0 {
      MulOne(c0);
      Xor8Right(Xor8(x, c0));
    } else {
      XorThrough(x, was, Mul(c0, Coefficient(k)));
    }
  }

  lemma XorThrough(x: Sym, y: Sym, z: Sym)
    ensures Xor8(x, y) == Xor8(Xor8(x, z), Xor8(y, z))
  {
  }

  lemma {:induction false} QuotientSymbols(w: seq<Sym>)
    ensures Symbols(Quotient(w))
  {
    hide Group, Fold;
    if w != [] {
      QuotientSymbols(w[..|w| - 1]);
      GroupBound(Fold(0, w[..|w| - 1]), 0);
    }
  }

  /** The state after any symbols is the remainder, modulo g, of the polynomial with these coefficients
      and a leading one: dividing by g gives this remainder and no other. */
  lemma FoldIsRemainder(v: seq<Sym>, q: seq<Sym>, r: seq<Sym>)
    requires Symbols(v) && Symbols(q)
    ensures Divided([1] + v, q, r) <==> q == Quotient([1] + v) && r == Groups(Fold(1, v))
  {
    hide Fold, Groups, Quotient, Divided, PlaceOk;
    var w, q2, r2 := [1] + v, Quotient([1] + v), Groups(Fold(1, v));
    FoldDivides(w);
    StartsFromZero(v);
    DividedPlaces(w, q2, r2);
    QuotientSymbols(w);
    if Divided(w, q, r) { RemainderUnique(w, q, r, q2, r2); }
  }
}
