/** Division, the compact format of targets, and the proof of work of a block. */
module Arith256 {
  import opened Bits
  import opened Limbs
  import opened Uint256

  // ---- Division -----------------------------------------------------------

  lemma LUpdate(s: seq<nat>, l: nat, d: nat)
    requires l < |s|
    ensures LVal(s[l := s[l] + d]) == LVal(s) + Cell(l) * d
  {
    hide LVal, Cell;
    var t := s[l := s[l] + d];
    LSplit(s, l);
    LSplit(t, l);
    assert t[..l] == s[..l] && t[l..] == [s[l] + d] + s[l + 1..] && s[l..] == [s[l]] + s[l + 1..];
    HeadBy(s[l], d, s[l + 1..]);
    Times(Cell(l), LVal(s[l..]), d);
  }

  lemma HeadBy(x: nat, d: nat, s: seq<nat>)
    ensures LVal([x + d] + s) == LVal([x] + s) + d
  {
    assert ([x + d] + s)[1..] == s == ([x] + s)[1..];
  }

  /** Below the bits in use the limbs are clear. */
  lemma ClearBits(s: seq<nat>, h: nat, l: nat, k: nat)
    requires AreLimbs(s) && l < |s| && k <= 32 && LVal(s) == h * Pow2(32 * l + k)
    ensures s[l] % Pow2(k) == 0
  {
    hide LVal, Pow2;
    LDivMod(s, l);
    Pow2Add(32 * l, k);
    var p, q := Cell(l), Pow2(k);
    Times(h, p, q);
    Times(p, h, q);
    DivModUnique(LVal(s), p, h * q, 0);
    LowBits(s[l..], k);
    DivModUnique(h * q, q, h, 0);
  }

  lemma OrBitIsSum(x: nat, k: nat)
    requires k < 32 && x < BASE && x % Pow2(k + 1) == 0
    ensures Or(x, Pow2(k)) == x + Pow2(k) < BASE
  {
    hide Or;
    var p := Pow2(k + 1);
    Times(x / p, p, 0);
    assert x == x / p * p;
    OrIsSum(x / p, Pow2(k), k + 1);
    Pow2Monotone(k + 1, 32);
    Pow2Values();
    OrBelow(x, Pow2(k), 32);
  }

  method SetBit(q: BaseUint, ghost h: nat, shift: nat)
    requires q.Valid() && shift < 32 * q.pn.Length && q.Value() == h * Pow2(shift + 1)
    modifies q.pn
    ensures q.Valid() && q.Value() == old(q.Value()) + Pow2(shift)
  {
    hide LVal, Cell, Pow2, Or;
    var l, k := shift / 32, shift % 32;
    ghost var x := q.pn[..];
    ClearBits(x, h, l, k + 1);
    OrBitIsSum(x[l], k);
    q.pn[l] := Or(q.pn[l], Pow2(k));
    assert q.pn[..] == x[l := x[l] + Pow2(k)];
    LUpdate(x, l, Pow2(k));
    CellPow(l, k);
  }

  lemma CellPow(l: nat, k: nat)
    ensures Cell(l) * Pow2(k) == Pow2(32 * l + k)
  {
    Pow2Add(32 * l, k);
  }

  ghost function Scaled(d: nat, k: nat): nat
  {
    d * Pow2(k)
  }

  /** n is q times d plus the rest, with h the bits of q found so far and n2 of them still to find. */
  ghost predicate Dividing(n: nat, d: nat, q: nat, rest: nat, h: nat, n2: nat)
  {
    n == q * d + rest && rest < Scaled(d, n2) && q == h * Pow2(n2)
  }

  lemma DivideStart(n: nat, d: nat, nb: nat, db: nat)
    requires IsBitLength(n, nb) && IsBitLength(d, db) && 0 < db <= nb
    ensures Scaled(d, nb - db) < Pow2(nb) && Dividing(n, d, 0, n, 0, nb - db + 1)
  {
    hide Pow2;
    Pow2Add(db, nb - db);
    Pow2Add(db - 1, nb - db + 1);
    MulMono(d + 1, Pow2(db), Pow2(nb - db));
    Times(Pow2(nb - db), d, 1);
    MulMono(Pow2(db - 1), d, Pow2(nb - db + 1));
  }

  lemma DivideStep(n: nat, d: nat, q: nat, rest: nat, h: nat, n2: nat)
    requires Dividing(n, d, q, rest, h, n2 + 1)
    ensures rest >= Scaled(d, n2) ==> Dividing(n, d, q + Pow2(n2), rest - Scaled(d, n2), 2 * h + 1, n2)
    ensures rest < Scaled(d, n2) ==> Dividing(n, d, q, rest, 2 * h, n2)
  {
    hide Pow2;
    Pow2Step(n2);
    var p := Pow2(n2);
    Times(d, p, p);
    assert h * (2 * p) == 2 * h * p;
    Times(p, 2 * h, 1);
    Times(d, q, p);
  }

  lemma DivideEnd(n: nat, d: nat, q: nat, rest: nat, h: nat)
    requires d > 0 && Dividing(n, d, q, rest, h, 0)
    ensures q == Quot(n, d)
  {
    Pow2Step(0);
    DivModUnique(n, d, q, rest);
  }

  /** Moves the divisor up to the length of the dividend. */
  method Align(div: BaseUint, ghost d: nat, shift: nat, ghost numBits: nat)
    requires div.Valid() && div.Value() == d && Scaled(d, shift) < Pow2(numBits) && numBits <= 32 * div.pn.Length
    modifies div.pn
    ensures div.Valid() && div.Value() == Scaled(d, shift)
  {
    hide LVal, Pow2;
    Pow2Monotone(numBits, 32 * div.pn.Length);
    NoWrap(Scaled(d, shift), div.Modulus());
    div.ShiftLeft(shift);
  }

  /** One round of the long division: subtracts if possible, sets the bit, and halves the divisor. */
  method DivBit(q: BaseUint, num: BaseUint, div: BaseUint, ghost n: nat, ghost d: nat, ghost h: nat, shift: nat)
    returns (ghost h2: nat)
    requires q.Valid() && num.Valid() && num.Operand(div) && num != div && num.pn != q.pn && div.pn != q.pn
    requires shift < 32 * q.pn.Length && div.Value() == Scaled(d, shift)
    requires Dividing(n, d, q.Value(), num.Value(), h, shift + 1)
    modifies q.pn, num.pn, div.pn
    ensures q.Valid() && num.Valid() && div.Valid()
    ensures shift > 0 ==> div.Value() == Scaled(d, shift - 1)
    ensures Dividing(n, d, q.Value(), num.Value(), h2, shift)
  {
    hide LVal, Pow2, Quot, Dividing, Cell, Scaled;
    DivideStep(n, d, q.Value(), num.Value(), h, shift);
    DividingMeans(n, d, q.Value(), num.Value(), h, shift + 1);
    var c := num.CompareTo(div);
    if c >= 0 {
      num.SubAssign(div);
      SetBit(q, h, shift);
    }
    h2 := if c >= 0 then 2 * h + 1 else 2 * h;
    HalfOf(d, shift);
    div.ShiftRight(1);
  }

  /** q := q / b; a division by zero is refused after q is cleared. */
  method DivAssign(q: BaseUint, b: BaseUint) returns (ok: bool)
    requires q.Valid() && q.Operand(b) && q.pn.Length >= 2
    modifies q.pn
    ensures q.Valid() && (ok <==> old(b.Value()) != 0)
    ensures ok ==> q.Value() == Quot(old(q.Value()), old(b.Value()))
    ensures !ok ==> q.Value() == 0
  {
    hide LVal, Pow2, Quot, Dividing, Cell, Scaled, IsBitLength;
    ghost var n, d := q.Value(), b.Value();
    var div := new BaseUint.Copy(b);
    var num := new BaseUint.Copy(q);
    q.Assign(0);
    var numBits := num.BitLength();
    var divBits := div.BitLength();
    LengthPositive(d, divBits);
    if divBits == 0 {
      return false;
    }
    if divBits > numBits {
      ShorterIsSmaller(n, numBits, d, divBits);
      return true;
    }
    DivideStart(n, d, numBits, divBits);
    var shift: int := numBits - divBits;
    Align(div, d, shift, numBits);
    ghost var h: nat := 0;
    while shift >= 0
      invariant -1 <= shift < 32 * q.pn.Length
      invariant q.Valid() && num.Valid() && div.Valid() && num.Operand(div)
      invariant fresh(num.pn) && fresh(div.pn) && num.pn != q.pn && div.pn != q.pn
      invariant shift >= 0 ==> div.Value() == Scaled(d, shift)
      invariant Dividing(n, d, q.Value(), num.Value(), h, shift + 1)
    {
      h := DivBit(q, num, div, n, d, h, shift);
      shift := shift - 1;
    }
    DivideEnd(n, d, q.Value(), num.Value(), h);
    return true;
  }

  lemma DividingMeans(n: nat, d: nat, q: nat, rest: nat, h: nat, n2: nat)
    requires Dividing(n, d, q, rest, h, n2)
    ensures q == h * Pow2(n2)
  {
  }

  lemma LengthPositive(d: nat, r: nat)
    requires IsBitLength(d, r)
    ensures d > 0 <==> r > 0
  {
  }

  lemma ShorterIsSmaller(n: nat, nb: nat, d: nat, db: nat)
    requires IsBitLength(n, nb) && IsBitLength(d, db) && nb < db
    ensures Quot(n, d) == 0
  {
    hide Pow2;
    if nb > 0 { Pow2Monotone(nb, db - 1); }
    DivZero(n, d);
  }

  lemma NoWrap(x: nat, m: nat)
    requires x < m
    ensures x % m == x
  {
    DivModUnique(x, m, 0, x);
  }

  lemma HalfOf(d: nat, shift: nat)
    ensures shift > 0 ==> Quot(Scaled(d, shift), Pow2(1)) == Scaled(d, shift - 1)
  {
    hide Pow2;
    Pow2Step(0);
    if shift > 0 {
      Pow2Step(shift - 1);
      assert d * (2 * Pow2(shift - 1)) == 2 * (Scaled(d, shift - 1));
    }
  }

  // ---- The compact format -------------------------------------------------

  /** The fields of a compact number: a base-256 exponent, a sign and a 23-bit mantissa. */
  function CompactSize(c: nat): nat { c / 0x100_0000 }
  predicate CompactSign(c: nat) { c / 0x80_0000 % 2 == 1 }
  function CompactWord(c: nat): nat { c % 0x80_0000 }

  /** The number that a compact number stands for, without its sign. */
  ghost function CompactTarget(c: nat): nat
  {
    var size, word := CompactSize(c), CompactWord(c);
    if size <= 3 then Quot(word, Pow2(8 * (3 - size))) else Scaled(word, 8 * (size - 3))
  }

  lemma MantissaAndShift(word: nat, k: nat)
    requires word < 0x80_0000
    ensures Scaled(word, 8 * k) >= Pow2(256) <==>
      word != 0 && (k > 31 || (word > 0xff && k > 30) || (word > 0xffff && k > 29))
  {
    hide Pow2;
    Pow2Values();
    if k >= 32 {
      Pow2Monotone(256, 8 * k);
      if word > 0 { MulMono(1, word, Pow2(8 * k)); }
    } else if k == 31 {
      Pow2Add(8, 248);
      Compare(word, 0x100, Pow2(248));
    } else if k == 30 {
      Pow2Add(16, 240);
      Compare(word, 0x1_0000, Pow2(240));
    } else {
      Pow2Add(24, 232);
      Pow2Monotone(8 * k, 232);
      Compare(word, 0x100_0000, Pow2(232));
      MulLess(word, Pow2(8 * k), Pow2(232));
    }
  }

  lemma Compare(x: nat, y: nat, p: nat)
    requires p > 0
    ensures x * p >= y * p <==> x >= y
  {
    if x >= y { MulMono(y, x, p); } else { MulMono(x + 1, y, p); Times(p, x, 1); }
  }

  lemma MulLess(x: nat, p: nat, q: nat)
    requires p <= q
    ensures x * p <= x * q
  {
    MulMono(p, q, x);
    Times(x, p, 0);
    Times(x, q, 0);
  }

  /** Sets a target from its compact form; the overflow flag says exactly when it is not a 256-bit number. */
  method SetCompact(u: BaseUint, c: nat) returns (negative: bool, overflow: bool)
    requires u.pn.Length == 8 && c < BASE
    modifies u.pn
    ensures u.Valid() && u.Value() == CompactTarget(c) % Pow2(256)
    ensures overflow <==> CompactTarget(c) >= Pow2(256)
    ensures negative <==> CompactTarget(c) != 0 && CompactSign(c)
  {
    hide LVal, Pow2, CompactSign;
    var size := CompactSize(c);
    var word := CompactWord(c);
    Pow2Values();
    if size <= 3 {
      word := Quot(word, Pow2(8 * (3 - size)));
      SmallTarget(CompactWord(c), 8 * (3 - size));
      u.Assign(word);
      NoWrap(word, Pow2(256));
    } else {
      u.Assign(word);
      u.ShiftLeft(8 * (size - 3));
      MantissaAndShift(word, size - 3);
      ScaledZero(word, 8 * (size - 3));
    }
    negative := word != 0 && CompactSign(c);
    overflow := word != 0 && (size > 34 || (word > 0xff && size > 33) || (word > 0xffff && size > 32));
  }

  lemma ScaledZero(x: nat, k: nat)
    ensures Scaled(x, k) == 0 <==> x == 0
  {
    MulMono(1, Pow2(k), x);
  }

  lemma SmallTarget(word: nat, k: nat)
    requires word < 0x80_0000
    ensures Quot(word, Pow2(k)) < 0x80_0000 && Quot(word, Pow2(k)) < Pow2(256)
  {
    hide Pow2;
    Pow2Values();
    Pow2Monotone(24, 256);
    DivLess(word, Pow2(k), word + 1);
    MulMono(1, Pow2(k), word + 1);
  }

  /** The compact form of v: a mantissa of 16 to 23 bits that keeps the leading bytes of v. */
  ghost predicate IsCompactOf(c: nat, v: nat, negative: bool)
  {
    && c < BASE && (v == 0 ==> c == 0) && (CompactSign(c) <==> negative && v != 0)
    && (v != 0 ==> CompactWord(c) >= 0x8000)
    && (v != 0 ==> CompactWord(c) == Quot(v * 0x100_0000, Pow2(8 * CompactSize(c))))
  }

  method GetLow64(u: BaseUint) returns (r: nat)
    requires u.Valid() && u.pn.Length >= 2
    ensures r == u.Value() % (BASE * BASE)
  {
    hide LVal;
    LowTwo(u.pn[..]);
    r := u.pn[0] + BASE * u.pn[1];
  }

  lemma LowTwo(s: seq<nat>)
    requires AreLimbs(s) && |s| >= 2
    ensures LVal(s) % (BASE * BASE) == s[0] + BASE * s[1]
  {
    var rest := LVal(s[2..]);
    assert s[1..][1..] == s[2..];
    assert LVal(s[1..]) == s[1] + BASE * rest && LVal(s) == s[0] + BASE * (s[1] + BASE * rest);
    assert LVal(s) == rest * (BASE * BASE) + (s[0] + BASE * s[1]);
    DivModUnique(LVal(s), BASE * BASE, rest, s[0] + BASE * s[1]);
  }

  method GetCompact(u: BaseUint, negative: bool) returns (c: nat)
    requires u.Valid() && u.pn.Length == 8
    ensures IsCompactOf(c, u.Value(), negative)
  {
    hide LVal, Pow2, Quot, IsCompactOf, IsBitLength;
    ghost var v := u.Value();
    var bits := u.BitLength();
    var size: nat := (bits + 7) / 8;
    LeadingBytes(v, bits, size);
    var word: nat;
    if size <= 3 {
      var low := GetLow64(u);
      NoWrap(v, BASE * BASE);
      word := low * Pow2(8 * (3 - size)) % BASE;
      NoWrap(v * Pow2(8 * (3 - size)), BASE);
    } else {
      var bn := new BaseUint.Copy(u);
      bn.ShiftRight(8 * (size - 3));
      var low := GetLow64(bn);
      NoWrap(Quot(v, Pow2(8 * (size - 3))), BASE * BASE);
      word := low % BASE;
      NoWrap(Quot(v, Pow2(8 * (size - 3))), BASE);
    }
    if word >= 0x80_0000 {
      OneByteLess(v, size);
      word := word / 0x100;
      size := size + 1;
    }
    assert word < 0x80_0000 && size < 256;
    c := size * 0x100_0000 + (if negative && word != 0 then 0x80_0000 else 0) + word;
    CompactFields(v, size, word, negative, c);
  }

  lemma LeadingBytes(v: nat, bits: nat, size: nat)
    requires IsBitLength(v, bits) && size == (bits + 7) / 8
    ensures Quot(v * 0x100_0000, Pow2(8 * size)) < 0x100_0000
    ensures v != 0 ==> Quot(v * 0x100_0000, Pow2(8 * size)) >= 0x1_0000
    ensures size <= 3 ==>
              && v < 0x100_0000
              && v * Pow2(8 * (3 - size)) == Quot(v * 0x100_0000, Pow2(8 * size)) < 0x100_0000
    ensures size > 3 ==> Quot(v, Pow2(8 * (size - 3))) == Quot(v * 0x100_0000, Pow2(8 * size)) < 0x100_0000
    ensures v == 0 ==> size == 0 && bits == 0
  {
    hide Pow2;
    Pow2Values();
    var p := Pow2(8 * size);
    DivLess(v * 0x100_0000, p, 0x100_0000);
    Times(p, 0x100_0000, 0);
    if bits > 0 {
      Pow2Monotone(bits, 8 * size);
      Pow2Monotone(8 * (size - 1), bits - 1);
      Pow2Add(8, 8 * (size - 1));
      DivLess(v * 0x100_0000, p, 0x1_0000);
    }
    if size <= 3 {
      Pow2Monotone(8 * size, 24);
      Pow2Add(8 * size, 8 * (3 - size));
      Times(v, p, Pow2(8 * (3 - size)));
      Times(p, v, Pow2(8 * (3 - size)));
      DivModUnique(v * 0x100_0000, p, v * Pow2(8 * (3 - size)), 0);
    } else {
      Pow2Add(24, 8 * (size - 3));
      CancelDiv(v, Pow2(8 * (size - 3)), 0x100_0000);
    }
  }

  lemma CancelDiv(x: nat, p: nat, k: nat)
    requires p > 0 && k > 0
    ensures Quot(x, p) == Quot(x * k, k * p)
  {
    var q, r := x / p, x % p;
    assert x == p * q + r;
    Times(k, p * q, r);
    Times(k, p, q);
    MulMono(r + 1, p, k);
    Times(k, r, 1);
    Times(q, k * p, 0);
    DivModUnique(x * k, k * p, q, r * k);
  }

  lemma OneByteLess(v: nat, size: nat)
    ensures Quot(v * 0x100_0000, Pow2(8 * size)) / 0x100 == Quot(v * 0x100_0000, Pow2(8 * (size + 1)))
  {
    hide Pow2;
    Pow2Values();
    DivTwice(v * 0x100_0000, 8 * size, 8);
  }

  lemma CompactFields(v: nat, size: nat, word: nat, negative: bool, c: nat)
    requires word < 0x80_0000 && size < 256 && (v != 0 ==> word >= 0x8000) && (v == 0 ==> size == 0)
    requires word == Quot(v * 0x100_0000, Pow2(8 * size))
    requires c == size * 0x100_0000 + (if negative && word != 0 then 0x80_0000 else 0) + word
    ensures IsCompactOf(c, v, negative)
  {
    hide Pow2;
    assert CompactSize(c) == size && CompactWord(c) == word;
    Pow2Step(0);
    assert v == 0 ==> word == 0;
  }

  /** Scaling the compact mantissa back: v with its bytes below the mantissa cleared. */
  lemma CompactTruncates(c: nat, v: nat, negative: bool)
    requires IsCompactOf(c, v, negative)
    ensures CompactSize(c) <= 3 ==> CompactTarget(c) == v
    ensures CompactSize(c) > 3 ==> CompactTarget(c) <= v < CompactTarget(c) + Pow2(8 * (CompactSize(c) - 3))
    ensures CompactTarget(c) <= v && (CompactTarget(c) != 0 <==> v != 0)
  {
    hide Pow2, CompactSize, CompactWord, CompactSign;
    var size, word := CompactSize(c), CompactWord(c);
    Pow2Values();
    if v == 0 {
      ZeroFields();
      DivZero(0, Pow2(24));
    } else if size <= 3 {
      Pow2Add(8 * size, 8 * (3 - size));
      var p, q := Pow2(8 * size), Pow2(8 * (3 - size));
      Times(v, p, q);
      Times(p, v, q);
      DivModUnique(v * 0x100_0000, p, v * q, 0);
      DivModUnique(v * q, q, v, 0);
    } else {
      var p := Pow2(8 * (size - 3));
      Pow2Add(24, 8 * (size - 3));
      CancelDiv(v, p, 0x100_0000);
      Times(p, word, 0);
      ScaledZero(word, 8 * (size - 3));
    }
  }

  lemma ZeroFields()
    ensures CompactSize(0) == 0 && CompactWord(0) == 0
  {
  }

  /** A number has one compact form. */
  lemma CompactUnique(c: nat, d: nat, v: nat, negative: bool)
    requires IsCompactOf(c, v, negative) && IsCompactOf(d, v, negative)
    ensures c == d
  {
    hide Pow2, Quot;
    if v != 0 {
      if CompactSize(c) < CompactSize(d) {
        SmallerMantissa(v, CompactSize(c), CompactSize(d));
      } else if CompactSize(d) < CompactSize(c) {
        SmallerMantissa(v, CompactSize(d), CompactSize(c));
      }
    }
  }

  lemma SmallerMantissa(v: nat, s: nat, t: nat)
    requires s < t && Quot(v * 0x100_0000, Pow2(8 * s)) < 0x80_0000
    ensures Quot(v * 0x100_0000, Pow2(8 * t)) < 0x8000
  {
    hide Pow2;
    OneByteLess(v, s);
    var x := v * 0x100_0000;
    Pow2Monotone(8 * (s + 1), 8 * t);
    DivLess(x, Pow2(8 * (s + 1)), 0x8000);
    DivLess(x, Pow2(8 * t), 0x8000);
  }

  /** Compact numbers that are the compact form of what they stand for: zero, or with a mantissa of at
      least 16 bits of which none is shifted out. */
  ghost predicate Canonical(c: nat)
  {
    var size, word := CompactSize(c), CompactWord(c);
    c == 0 || (word >= 0x8000 && (size <= 3 ==> word == Scaled(CompactTarget(c), 8 * (3 - size))))
  }

  lemma CanonicalFixed(c: nat)
    requires c < BASE
    ensures IsCompactOf(c, CompactTarget(c), CompactSign(c)) <==> Canonical(c)
  {
    hide Pow2, CompactSize, CompactWord, CompactSign;
    var size, word, v := CompactSize(c), CompactWord(c), CompactTarget(c);
    ZeroFields();
    Pow2Values();
    if c == 0 {
      DivZero(0, Pow2(24));
      ZeroSign();
    } else {
      if size <= 3 {
        var p, q := Pow2(8 * size), Pow2(8 * (3 - size));
        Pow2Add(8 * size, 8 * (3 - size));
        Times(v, p, q);
        Times(p, v, q);
        DivModUnique(v * 0x100_0000, p, v * q, 0);
        ScaledZero(v, 8 * (3 - size));
      } else {
        var p := Pow2(8 * (size - 3));
        Pow2Add(24, 8 * (size - 3));
        Times(word, p, 0x100_0000);
        Times(0x100_0000, p, 0);
        DivModUnique(v * 0x100_0000, 0x100_0000 * p, word, 0);
        ScaledZero(word, 8 * (size - 3));
      }
    }
  }

  lemma ZeroSign()
    ensures !CompactSign(0)
  {
  }

  // ---- Proof of work ------------------------------------------------------

  method EqualTo(u: BaseUint, b: nat) returns (r: bool)
    requires u.Valid() && u.pn.Length >= 2 && b < BASE * BASE
    ensures r <==> u.Value() == b
  {
    hide LVal;
    var i := u.pn.Length;
    while i > 2
      invariant 2 <= i <= u.pn.Length && forall j | i <= j < u.pn.Length :: u.pn[j] == 0
    {
      i := i - 1;
      if u.pn[i] != 0 {
        HighLimb(u.pn[..], i);
        return false;
      }
    }
    TwoLimbs(u.pn[..]);
    r := u.pn[1] == b / BASE && u.pn[0] == b % BASE;
  }

  lemma HighLimb(s: seq<nat>, i: nat)
    requires 2 <= i < |s| && s[i] != 0
    ensures LVal(s) >= BASE * BASE
  {
    LZero(s[2..]);
    assert s[2..][i - 2] == s[i];
    assert s[1..][1..] == s[2..];
  }

  /** A target from a compact number is never all ones. */
  lemma TargetNotMax(c: nat)
    requires CompactTarget(c) < Pow2(256)
    ensures CompactTarget(c) + 1 < Pow2(256)
  {
    hide Pow2;
    var size, word := CompactSize(c), CompactWord(c);
    Pow2Values();
    Pow2Monotone(24, 256);
    if size <= 3 {
      SmallTarget(word, 8 * (3 - size));
    } else {
      Pow2Step(8 * (size - 3) - 1);
      Pow2Step(255);
      var p := Pow2(8 * (size - 3) - 1);
      assert word * (2 * p) == 2 * (word * p);
    }
  }

  lemma ProofValue(m: nat, t: nat)
    requires t + 1 < m
    ensures Quot(m - 1 - t, t + 1) + 1 == Quot(m, t + 1)
  {
    var d := t + 1;
    var q, r := (m - d) / d, (m - d) % d;
    assert m - d == d * q + r;
    Times(d, q, 1);
    DivModUnique(m, d, q + 1, r);
  }

  lemma ProofBound(m: nat, t: nat)
    requires 0 < t && t + 1 < m
    ensures Quot(m, t + 1) < m
  {
    DivLess(m, t + 1, m);
    MulMono(2, t + 1, m);
  }

  /** The expected number of hashes for a block: the integer quotient of 2^256 by the target plus one, or
      zero for a target that is negative, too large or zero. */
  ghost function BlockProof(c: nat): nat
  {
    var t := CompactTarget(c);
    if CompactSign(c) || t >= Pow2(256) || t == 0 then 0 else Quot(Pow2(256), t + 1)
  }

  lemma EightLimbs()
    ensures Cell(8) == Pow2(256)
  {
  }

  /** x := x + 1 when that does not wrap around. */
  method AddOne(x: BaseUint)
    requires x.Valid() && x.pn.Length >= 2 && x.Value() + 1 < x.Modulus()
    modifies x.pn
    ensures x.Valid() && x.Value() == old(x.Value()) + 1
  {
    hide LVal, Cell;
    var one := new BaseUint(x.pn.Length);
    one.Assign(1);
    NoWrap(x.Value() + 1, x.Modulus());
    x.AddAssign(one);
  }

  /** ~target / (target + 1) + 1 */
  method ProofOf(target: BaseUint) returns (r: BaseUint)
    requires target.Valid() && target.pn.Length == 8 && 0 < target.Value() && target.Value() + 1 < Pow2(256)
    modifies target.pn
    ensures fresh(r) && fresh(r.pn) && r.Valid() && r.pn.Length == 8
    ensures r.Value() == Quot(Pow2(256), old(target.Value()) + 1)
  {
    hide LVal, Pow2, Quot, Cell;
    ghost var t := target.Value();
    EightLimbs();
    ProofValue(Pow2(256), t);
    ProofBound(Pow2(256), t);
    r := target.Complement();
    AddOne(target);
    var ok := DivAssign(r, target);
    assert ok;
    AddOne(r);
  }

  method GetBlockProof(nBits: nat) returns (r: BaseUint)
    requires nBits < BASE
    ensures fresh(r) && r.Valid() && r.pn.Length == 8 && r.Value() == BlockProof(nBits)
  {
    hide LVal, Pow2, CompactTarget, CompactSign, Quot, Cell;
    ghost var t := CompactTarget(nBits);
    var target := new BaseUint(8);
    var negative, overflow := SetCompact(target, nBits);
    if negative || overflow {
      r := new BaseUint(8);
      return;
    }
    NoWrap(t, Pow2(256));
    var zero := EqualTo(target, 0);
    if zero {
      r := new BaseUint(8);
      return;
    }
    TargetNotMax(nBits);
    r := ProofOf(target);
  }
}
