/** Strings that CashAddr decoding catches, and the ones for which it reads outside its values. */
module CashAddrFaults {
  import opened CashAddr
  import opened CashAddrCodec
  import opened Words
  import opened Wrappers

  // ---- Fewer than eight symbols -------------------------------------------

  /** The values that the checksum runs over once the separator is found. */
  ghost function Values(str: string, p: nat, defaultPrefix: string): seq<Sym>
    requires (p < |str| || p == 0) && AllSymbols(Tail(str, p))
  {
    ExpandPrefix(PrefixAt(str, p, defaultPrefix)) + SymbolsOf(Tail(str, p))
  }

  /** The last eight of these values are the checksum of those before, although fewer than eight of
      them come from after the separator: the end of the prefix stands in for a part of the checksum. */
  ghost predicate Collides(str: string, p: nat, defaultPrefix: string)
  {
    && WellFormed(str, p) && !MixedCase(str) && AllSymbols(Tail(str, p)) && |Tail(str, p)| < 8
    && var v := Values(str, p, defaultPrefix); |v| >= 8 && v[|v| - 8..] == ChecksumOf(v[..|v| - 8])
  }

  /** Strings shorter than a checksum never verify. */
  lemma ShortNeverVerifies(v: seq<Sym>)
    requires Symbols(v) && 0 < |v| < 8
    ensures PolyModOf(v) != 0
  {
    hide PolyStep, Xor64, Xor8;
    var a, b := [1] + v, seq(|v|, _ => 0 as Sym) + [1];
    if PolyModOf(v) == 0 {
      XorOne(Fold(1, v));
      FirstSymbol();
      assert a[1..] == v;
      FoldConcat(0, b[..|v|], [1]);
      assert b == b[..|v|] + [1] && [1 as Sym][1..] == [];
      FoldZeros(0, b[..|v|]);
      assert Fold(0, a) == 1 == Fold(0, b);
      FoldLinear(0, a, 0, b);
      XorSame(0);
      XorSame(1);
      XorSyms(a, b);
      FoldFromZero(Xor(a, b));
      assert Xor(a, b)[0] == Xor8(1, 0);
      OneZero();
    }
  }

  lemma XorOne(x: bv64)
    requires Xor64(x, 1) == 0
    ensures x == 1
  {
  }

  lemma FirstSymbol()
    ensures PolyStep(0, 1) == 1
  {
  }

  lemma OneZero()
    ensures Xor8(1, 0) == 1
  {
  }

  lemma SymbolsOfTail(s: string)
    requires AllSymbols(s)
    ensures Symbols(SymbolsOf(s))
  {
    hide SymOf, CharOf;
    forall i | 0 <= i < |s| ensures SymbolsOf(s)[i] < 32 { SymbolIsChar(s[i]); }
  }

  /** The values verify exactly when there are eight of them that are the checksum of the rest. */
  lemma VerifiesIff(v: seq<Sym>)
    requires Symbols(v) && v != []
    ensures PolyModOf(v) == 0 <==> |v| >= 8 && v[|v| - 8..] == ChecksumOf(v[..|v| - 8])
  {
    hide PolyModOf, ChecksumOf;
    if |v| < 8 {
      ShortNeverVerifies(v);
    } else {
      assert v == v[..|v| - 8] + v[|v| - 8..];
      ChecksumUnique(v[..|v| - 8], v[|v| - 8..]);
    }
  }

  /** Decoding reads outside its values exactly for the strings that collide. */
  lemma TooShortIff(str: string, defaultPrefix: string, r: Decoded)
    requires DecodesTo(str, defaultPrefix, r)
    ensures r == TooShort <==> exists p: nat :: Collides(str, p, defaultPrefix)
  {
    hide MixedCase, PolyModOf, ChecksumOf, ExpandPrefix, SymbolsOf, AllSymbols;
    forall p: nat | WellFormed(str, p) && !MixedCase(str)
      ensures r == TooShort <==> Collides(str, p, defaultPrefix)
    {
      if AllSymbols(Tail(str, p)) {
        ExpandSymbols(PrefixAt(str, p, defaultPrefix));
        SymbolsOfTail(Tail(str, p));
        ExpandLength(PrefixAt(str, p, defaultPrefix));
        VerifiesIff(Values(str, p, defaultPrefix));
        LengthOf(Tail(str, p));
      }
    }
  }

  lemma ExpandLength(prefix: string)
    ensures |ExpandPrefix(prefix)| == |prefix| + 1
  {
  }

  lemma LengthOf(s: string)
    requires AllSymbols(s)
    ensures |SymbolsOf(s)| == |s|
  {
  }

  /** So a caller who finds no separator among the last eight characters gets a definite answer. */
  lemma EightAreEnough(str: string, defaultPrefix: string, r: Decoded)
    requires DecodesTo(str, defaultPrefix, r) && |str| >= 8 && ':' !in str[|str| - 8..]
    ensures r.Rejected? || r.Accepted?
  {
    hide MixedCase, ChecksumOf, ExpandPrefix, SymbolsOf, AllSymbols;
    TooShortIff(str, defaultPrefix, r);
    forall p: nat ensures !Collides(str, p, defaultPrefix) {
      if Collides(str, p, defaultPrefix) { LateSeparator(str, p, defaultPrefix); }
    }
  }

  lemma LateSeparator(str: string, p: nat, defaultPrefix: string)
    requires Collides(str, p, defaultPrefix)
    ensures |str| < 8 || ':' in str[|str| - 8..]
  {
    hide MixedCase, ChecksumOf, ExpandPrefix, SymbolsOf, AllSymbols;
    if |str| >= 8 { assert str[|str| - 8..][p - (|str| - 8)] == ':'; }
  }

  const STRAY: string := "anutbtuna:"
  const STRAY_VALUES: seq<Sym> := [1, 14, 21, 20, 2, 20, 21, 14, 1, 0]

  lemma StrayStart()
    ensures PolyStep(1, 1) == 0x21
    ensures PolyStep(0x21, 14) == 0x42e
    ensures PolyStep(0x42e, 21) == 0x85d5
    ensures PolyStep(0x85d5, 20) == 0x10bab4
    ensures PolyStep(0x10bab4, 2) == 0x2175682
  {
  }

  lemma StrayEnd()
    ensures PolyStep(0x2175682, 20) == 0x42ead054
    ensures PolyStep(0x42ead054, 21) == 0x85d5a0a95
    ensures PolyStep(0x85d5a0a95, 14) == 0x9359fddccf
    ensures PolyStep(0x9359fddccf, 1) == 0xcc795e473
    ensures PolyStep(0xcc795e473, 0) == 1
  {
  }

  lemma StrayFold()
    ensures Fold(1, STRAY_VALUES) == 1
  {
    hide PolyStep;
    StrayStart();
    StrayEnd();
    var v := STRAY_VALUES;
    FoldNext(1, v, 0);
    FoldNext(0x21, v, 1);
    FoldNext(0x42e, v, 2);
    FoldNext(0x85d5, v, 3);
    FoldNext(0x10bab4, v, 4);
    FoldNext(0x2175682, v, 5);
    FoldNext(0x42ead054, v, 6);
    FoldNext(0x85d5a0a95, v, 7);
    FoldNext(0x9359fddccf, v, 8);
    FoldNext(0xcc795e473, v, 9);
    assert v[0..] == v && v[10..] == [];
  }

  lemma FoldNext(c: bv64, v: seq<Sym>, i: nat)
    requires i < |v|
    ensures Fold(c, v[i..]) == Fold(PolyStep(c, v[i]), v[i + 1..])
  {
    hide PolyStep;
    assert v[i..][1..] == v[i + 1..];
  }

  lemma StrayPrefix()
    ensures ExpandPrefix(Lowered(STRAY[..9])) == STRAY_VALUES
  {
    assert LowBits('a') == 1 && LowBits('n') == 14 && LowBits('u') == 21 && LowBits('t') == 20 && LowBits('b') == 2;
    assert Lowered(STRAY[..9]) == "anutbtuna";
  }

  lemma StrayShape()
    ensures WellFormed(STRAY, 9) && !MixedCase(STRAY)
  {
  }

  /** A string that decoding does not reject, with nothing after its separator: the prefix folds back to
      the starting state, so the checksum verifies and the payload would end eight before its beginning. */
  lemma StrayIsTooShort(defaultPrefix: string, r: Decoded)
    ensures DecodesTo(STRAY, defaultPrefix, r) <==> r == TooShort
  {
    hide PolyStep, WellFormed, MixedCase, ExpandPrefix, Lowered, Fold, SymOf;
    StrayShape();
    StrayPrefix();
    StrayFold();
    XorSame(1);
    assert STRAY[10..] == "" && SymbolsOf("") == [] && STRAY_VALUES + [] == STRAY_VALUES;
    DecodesAt(STRAY, 9, defaultPrefix, r);
  }

  // ---- Typing errors ------------------------------------------------------

  function Bits5(n: int): Sym
    requires 0 <= n < 256
  {
    n as bv8 & 0x1f
  }

  lemma BitsToM()
    ensures Bits5(97) == 1 && Bits5(98) == 2 && Bits5(99) == 3 && Bits5(100) == 4 && Bits5(101) == 5
    ensures Bits5(102) == 6 && Bits5(103) == 7 && Bits5(104) == 8 && Bits5(105) == 9 && Bits5(106) == 10
    ensures Bits5(107) == 11 && Bits5(108) == 12 && Bits5(109) == 13
  {
  }

  lemma BitsToZ()
    ensures Bits5(110) == 14 && Bits5(111) == 15 && Bits5(112) == 16 && Bits5(113) == 17 && Bits5(114) == 18
    ensures Bits5(115) == 19 && Bits5(116) == 20 && Bits5(117) == 21 && Bits5(118) == 22 && Bits5(119) == 23
    ensures Bits5(120) == 24 && Bits5(121) == 25 && Bits5(122) == 26
  {
  }

  lemma LowBitsOf(c: char)
    requires c as int < 256
    ensures LowBits(c) == Bits5(c as int)
  {
    assert c as int % 256 == c as int;
  }

  lemma LettersDiffer(c: char, d: char)
    requires IsLower(c) && IsLower(d)
    ensures LowBits(c) != 0 && (LowBits(c) == LowBits(d) ==> c == d)
  {
    hide LowBits, Bits5;
    LowBitsOf(c);
    LowBitsOf(d);
    BitsToM();
    BitsToZ();
  }

  /** With a separator written out there is one value for each character. */
  lemma ValueAt(str: string, p: nat, defaultPrefix: string, i: nat)
    requires WellFormed(str, p) && p > 0 && AllSymbols(Tail(str, p)) && i < |str|
    ensures var v := Values(str, p, defaultPrefix);
      && |v| == |str|
      && (i < p ==> v[i] == LowBits(LowerCase(str[i])))
      && (i == p ==> v[i] == 0)
      && (i > p ==> SymOf(str[i]) == Some(v[i]))
  {
    hide SymOf, LowBits, LowerCase, IsAlnum, IsDigit;
    var tail := Tail(str, p);
    if i > p { assert tail[i - p - 1] == str[i]; }
  }

  lemma PrefixLetter(str: string, p: nat, i: nat)
    requires WellFormed(str, p) && i < p
    ensures IsLower(LowerCase(str[i]))
  {
  }

  /** Neighbouring changes reach across the separator only if both separators lie among them. */
  lemma SameSide(s: string, t: string, start: nat, p: nat, q: nat, i: nat)
    requires WellFormed(s, p) && WellFormed(t, q) && p > 0 && q > 0 && |s| == |t| && i < |s|
    requires forall j | 0 <= j < |s| && !(start <= j < start + 8) :: s[j] == t[j]
    requires !(start <= i < start + 8)
    ensures (i < p <==> i < q) && (i == p <==> i == q)
  {
    if p != q {
      assert s[p] == ':' && t[p] != ':' && s[q] != ':' && t[q] == ':';
    }
  }

  lemma ValuesDifferWithin(s: string, t: string, start: nat, p: nat, q: nat, defaultPrefix: string)
    requires WellFormed(s, p) && WellFormed(t, q) && p > 0 && q > 0 && |s| == |t|
    requires AllSymbols(Tail(s, p)) && AllSymbols(Tail(t, q))
    requires forall i | 0 <= i < |s| && !(start <= i < start + 8) :: s[i] == t[i]
    ensures DifferWithin(Values(s, p, defaultPrefix), Values(t, q, defaultPrefix), start)
  {
    hide WellFormed, AllSymbols, Values, SymOf, LowBits, LowerCase;
    InRange(s, p);
    InRange(t, q);
    var v, w := Values(s, p, defaultPrefix), Values(t, q, defaultPrefix);
    ValueAt(s, p, defaultPrefix, 0);
    ValueAt(t, q, defaultPrefix, 0);
    forall i | 0 <= i < |v| && !(start <= i < start + 8) ensures v[i] == w[i] {
      SameSide(s, t, start, p, q, i);
      ValueAt(s, p, defaultPrefix, i);
      ValueAt(t, q, defaultPrefix, i);
    }
  }

  lemma InRange(s: string, p: nat)
    requires WellFormed(s, p) && p > 0
    ensures p < |s|
  {
  }

  /** The values show where the separator is. */
  lemma NotLater(s: string, t: string, p: nat, q: nat, defaultPrefix: string)
    requires WellFormed(s, p) && WellFormed(t, q) && p > 0 && q > 0
    requires AllSymbols(Tail(s, p)) && AllSymbols(Tail(t, q))
    requires Values(s, p, defaultPrefix) == Values(t, q, defaultPrefix)
    ensures p >= q
  {
    hide AllSymbols, Values, SymOf, LowBits, LowerCase;
    ValueAt(s, p, defaultPrefix, p);
    ValueAt(t, q, defaultPrefix, 0);
    if p < q {
      ValueAt(t, q, defaultPrefix, p);
      PrefixLetter(t, q, p);
      LettersDiffer(LowerCase(t[p]), 'a');
    }
  }

  /** And the values with the separator give the characters up to case. */
  lemma ValuesSpell(s: string, t: string, p: nat, defaultPrefix: string)
    requires WellFormed(s, p) && WellFormed(t, p) && p > 0
    requires AllSymbols(Tail(s, p)) && AllSymbols(Tail(t, p))
    requires Values(s, p, defaultPrefix) == Values(t, p, defaultPrefix)
    ensures Lowered(s) == Lowered(t)
  {
    hide AllSymbols, Values, SymOf, CharOf, LowBits, LowerCase, IsAlnum, IsDigit;
    ValueAt(s, p, defaultPrefix, 0);
    ValueAt(t, p, defaultPrefix, 0);
    forall i | 0 <= i < |s| ensures LowerCase(s[i]) == LowerCase(t[i]) {
      ValueAt(s, p, defaultPrefix, i);
      ValueAt(t, p, defaultPrefix, i);
      if i < p {
        PrefixLetter(s, p, i);
        PrefixLetter(t, p, i);
        LettersDiffer(LowerCase(s[i]), LowerCase(t[i]));
      } else if i > p {
        SymbolIsChar(s[i]);
        SymbolIsChar(t[i]);
      }
    }
  }

  lemma SeparatorIn(s: string, p: nat)
    requires WellFormed(s, p)
    ensures ':' in s <==> p > 0
  {
  }

  lemma ValuesAreSymbols(s: string, p: nat, defaultPrefix: string)
    requires WellFormed(s, p) && AllSymbols(Tail(s, p))
    ensures Symbols(Values(s, p, defaultPrefix))
  {
    hide AllSymbols, SymbolsOf, ExpandPrefix;
    ExpandSymbols(PrefixAt(s, p, defaultPrefix));
    SymbolsOfTail(Tail(s, p));
  }

  lemma BareDifferWithin(s: string, t: string, start: nat, defaultPrefix: string)
    requires |s| == |t| && AllSymbols(s) && AllSymbols(t)
    requires forall i | 0 <= i < |s| && !(start <= i < start + 8) :: s[i] == t[i]
    ensures DifferWithin(Values(s, 0, defaultPrefix), Values(t, 0, defaultPrefix), |defaultPrefix| + 1 + start)
  {
    hide SymOf, LowBits;
    var x, v, w := ExpandPrefix(defaultPrefix), SymbolsOf(s), SymbolsOf(t);
    forall i | 0 <= i < |s| && !(start <= i < start + 8) ensures v[i] == w[i] { assert s[i] == t[i]; }
    forall i | 0 <= i < |x + v| && !(|x| + start <= i < |x| + start + 8) ensures (x + v)[i] == (x + w)[i] {
      if i >= |x| { assert (x + v)[i] == v[i - |x|] && (x + w)[i] == w[i - |x|]; }
    }
  }

  /** Equal values under one prefix come from equal tails up to case. */
  lemma SameTail(s: string, t: string, p: nat, defaultPrefix: string)
    requires WellFormed(s, p) && WellFormed(t, p) && AllSymbols(Tail(s, p)) && AllSymbols(Tail(t, p))
    requires Values(s, p, defaultPrefix) == Values(t, p, defaultPrefix)
    requires PrefixAt(s, p, defaultPrefix) == PrefixAt(t, p, defaultPrefix)
    ensures SymbolsOf(Tail(s, p)) == SymbolsOf(Tail(t, p)) && |Tail(s, p)| == |Tail(t, p)|
  {
    hide AllSymbols, SymbolsOf, ExpandPrefix, IsAlnum, IsDigit;
    var x := ExpandPrefix(PrefixAt(s, p, defaultPrefix));
    var v, w := SymbolsOf(Tail(s, p)), SymbolsOf(Tail(t, p));
    assert (x + v)[|x|..] == v && (x + w)[|x|..] == w;
    LengthOf(Tail(s, p));
    LengthOf(Tail(t, p));
  }

  lemma BareSpell(s: string, t: string, defaultPrefix: string)
    requires AllSymbols(s) && AllSymbols(t) && SymbolsOf(s) == SymbolsOf(t)
    ensures Lowered(s) == Lowered(t)
  {
    hide SymOf, CharOf, LowerCase;
    assert |s| == |SymbolsOf(s)| == |t|;
    forall i | 0 <= i < |s| ensures LowerCase(s[i]) == LowerCase(t[i]) {
      assert SymbolsOf(s)[i] == SymbolsOf(t)[i];
      SymbolIsChar(s[i]);
      SymbolIsChar(t[i]);
    }
  }

  lemma SamePrefix(s: string, t: string, p: nat, defaultPrefix: string)
    requires Lowered(s) == Lowered(t) && (p < |s| || p == 0) && (p < |t| || p == 0)
    ensures PrefixAt(s, p, defaultPrefix) == PrefixAt(t, p, defaultPrefix)
  {
    hide LowerCase;
    if p > 0 {
      assert Lowered(s[..p]) == Lowered(s)[..p] && Lowered(t[..p]) == Lowered(t)[..p];
    }
  }

  /** Two accepted strings of one length, both with or both without a separator, that differ only within
      eight neighbouring characters are the same up to case, also where the changes cross the separator. */
  lemma TypoDetected(s: string, t: string, start: nat, defaultPrefix: string, r: Decoded, u: Decoded)
    requires |s| == |t| && (':' in s <==> ':' in t)
    requires forall i | 0 <= i < |s| && !(start <= i < start + 8) :: s[i] == t[i]
    requires DecodesTo(s, defaultPrefix, r) && DecodesTo(t, defaultPrefix, u) && r.Accepted? && u.Accepted?
    ensures r == u && Lowered(s) == Lowered(t)
  {
    hide SymOf, CharOf, MixedCase, PolyModOf, ChecksumOf, LowerCase, DecodesTo, AllSymbols, SymbolsOf, Lowered, LowBits,
      ExpandPrefix, IsAlnum, IsDigit, DifferWithin;
    var p := AcceptedAt(s, defaultPrefix, r.prefix, r.payload);
    var q := AcceptedAt(t, defaultPrefix, u.prefix, u.payload);
    SeparatorIn(s, p);
    SeparatorIn(t, q);
    var v, w := Values(s, p, defaultPrefix), Values(t, q, defaultPrefix);
    ValuesAreSymbols(s, p, defaultPrefix);
    ValuesAreSymbols(t, q, defaultPrefix);
    if p > 0 {
      ValuesDifferWithin(s, t, start, p, q, defaultPrefix);
      BurstDetected(v, w, start);
      NotLater(s, t, p, q, defaultPrefix);
      NotLater(t, s, q, p, defaultPrefix);
      ValuesSpell(s, t, p, defaultPrefix);
      SamePrefix(s, t, p, defaultPrefix);
      SameTail(s, t, p, defaultPrefix);
    } else {
      BareDifferWithin(s, t, start, defaultPrefix);
      BurstDetected(v, w, |defaultPrefix| + 1 + start);
      SameTail(s, t, 0, defaultPrefix);
      BareSpell(s, t, defaultPrefix);
    }
  }
}
