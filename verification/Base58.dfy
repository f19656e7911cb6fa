/** Base58 strings: conversion between base 256 and base 58 in a fixed buffer, in both directions. */
module Base58 {
  import opened Bits
  import opened Radix
  import opened Wrappers

  // ---- The alphabet -------------------------------------------------------

  /** Letters and digits without "0", "I", "O" and "l". */
  function CharOf(d: nat): char
    requires d < 58
  {
    if d < 9 then ('1' as int + d) as char
    else if d < 17 then ('A' as int + d - 9) as char
    else if d < 22 then ('J' as int + d - 17) as char
    else if d < 33 then ('P' as int + d - 22) as char
    else if d < 44 then ('a' as int + d - 33) as char
    else ('m' as int + d - 44) as char
  }

  function DigitOf(c: char): Option<nat>
  {
    if '1' <= c <= '9' then Some(c as int - '1' as int)
    else if 'A' <= c <= 'H' then Some(c as int - 'A' as int + 9)
    else if 'J' <= c <= 'N' then Some(c as int - 'J' as int + 17)
    else if 'P' <= c <= 'Z' then Some(c as int - 'P' as int + 22)
    else if 'a' <= c <= 'k' then Some(c as int - 'a' as int + 33)
    else if 'm' <= c <= 'z' then Some(c as int - 'm' as int + 44)
    else None
  }

  predicate IsSpace(c: char)
  {
    c as int == 32 || 9 <= c as int <= 13
  }

  lemma Alphabet(d: nat, c: char)
    ensures d < 58 ==> DigitOf(CharOf(d)) == Some(d)
    ensures DigitOf(c).Some? ==> DigitOf(c).value < 58 && CharOf(DigitOf(c).value) == c && !IsSpace(c)
    ensures DigitOf(c) == Some(0) <==> c == '1'
  {
  }

  /** The alphabet in increasing order: exactly the letters and digits without "0", "I", "O" and "l". */
  lemma AlphabetIs(d: nat, e: nat, c: char)
    ensures d < e < 58 ==> CharOf(d) < CharOf(e)
    ensures (exists k: nat :: k < 58 && CharOf(k) == c) <==>
              ('0' <= c <= '9' || 'A' <= c <= 'Z' || 'a' <= c <= 'z') && c !in "0IOl"
  {
    assert c in "0IOl" <==> c == '0' || c == 'I' || c == 'O' || c == 'l';
    forall k: nat | k < 58 ensures DigitOf(CharOf(k)) == Some(k) { Alphabet(k, 'a'); }
    Alphabet(0, c);
    if DigitOf(c).Some? { assert CharOf(DigitOf(c).value) == c; }
  }

  /** White space: tab, line feed, vertical tab, form feed, carriage return and blank. */
  lemma SpaceIs(c: char)
    ensures IsSpace(c) <==> c as int in {9, 10, 11, 12, 13, 32}
  {
  }

  // ---- What a string stands for -------------------------------------------

  ghost predicate IsBase58(s: string)
  {
    forall i | 0 <= i < |s| :: DigitOf(s[i]).Some?
  }

  ghost function DigitsOf(s: string): seq<nat>
    requires IsBase58(s)
  {
    seq(|s|, i requires 0 <= i < |s| => DigitOf(s[i]).value)
  }

  /** A string and bytes with the same number of leading zero digits and the same value. */
  ghost predicate Same(s: string, v: seq<nat>)
  {
    && IsBase58(s) && Digits(256, v)
    && Lead(DigitsOf(s)) == Lead(v)
    && Val(58, DigitsOf(s)) == Val(256, v)
  }

  /** The part between the surrounding white space. */
  ghost predicate Core(str: string, lo: nat, hi: nat)
  {
    && lo <= hi <= |str|
    && (forall i | 0 <= i < lo :: IsSpace(str[i]))
    && (forall i | hi <= i < |str| :: IsSpace(str[i]))
    && IsBase58(str[lo..hi])
  }

  /** A string decodes to the bytes its core stands for, unless it has no core or they are too many. */
  ghost predicate Decodes(str: string, maxLen: nat, r: Option<seq<nat>>)
  {
    match r
    case Some(v) => |v| <= maxLen && exists lo: nat, hi: nat :: Core(str, lo, hi) && Same(str[lo..hi], v)
    case None => forall lo: nat, hi: nat, v: seq<nat> | Core(str, lo, hi) && Same(str[lo..hi], v) :: |v| > maxLen
  }

  // ---- Multiply and add in the buffer -------------------------------------

  /** Digits with exactly the last `length` places in use. */
  ghost predicate Normal(b: nat, s: seq<nat>, length: nat)
  {
    && Digits(b, s) && length <= |s|
    && (forall i | 0 <= i < |s| - length :: s[i] == 0)
    && (length > 0 ==> s[|s| - length] != 0)
  }

  function Rem(t: nat, b: nat): nat requires b > 0 { t % b }

  lemma QuotRem(t: nat, b: nat)
    requires b > 0
    ensures t == b * Quot(t, b) + Rem(t, b) && Rem(t, b) < b
  {
  }

  lemma Cons(b: nat, d: nat, s: seq<nat>)
    ensures Val(b, [d] + s) == d * Pow(b, |s|) + Val(b, s)
  {
    assert ([d] + s)[1..] == s;
  }

  /** Places x hold those of m * y + c, but for a carry into the next place. */
  ghost predicate Partial(b: nat, m: nat, c: nat, x: seq<nat>, y: seq<nat>, carry: nat)
  {
    |x| == |y| && Val(b, x) + carry * Pow(b, |x|) == m * Val(b, y) + c
  }

  lemma PartialStart(b: nat, m: nat, c: nat)
    ensures Partial(b, m, c, [], [], c)
  {
  }

  lemma PartialEnd(b: nat, m: nat, c: nat, x: seq<nat>, y: seq<nat>, carry: nat)
    requires Partial(b, m, c, x, y, carry)
    ensures carry == 0 ==> Val(b, x) == m * Val(b, y) + c
    ensures m * Val(b, y) + c < Pow(b, |x|) ==> carry == 0
  {
    hide Pow, Val;
    if carry > 0 { MulMonotone(1, carry, Pow(b, |x|), Pow(b, |x|)); }
  }

  lemma MulAddStep(b: nat, m: nat, c: nat, x: seq<nat>, y: seq<nat>, d: nat, carry: nat, q: nat, r: nat)
    requires Partial(b, m, c, x, y, carry) && carry + m * d == b * q + r
    ensures Partial(b, m, c, [r] + x, [d] + y, q)
  {
    hide Pow, Val;
    var p := Pow(b, |x|);
    Cons(b, r, x);
    Cons(b, d, y);
    PowStep(b, |x|);
    CarryOver(b, m, d, carry, p, q, r);
    Distribute(m, d * p, Val(b, y));
  }

  lemma CarryOver(b: nat, m: nat, d: nat, carry: nat, p: nat, q: nat, r: nat)
    requires carry + m * d == b * q + r
    ensures r * p + q * (b * p) == m * (d * p) + carry * p
  {
    calc {
      r * p + q * (b * p);
      r * p + (b * q) * p;
      (r + b * q) * p;
      (carry + m * d) * p;
      carry * p + (m * d) * p;
      carry * p + m * (d * p);
    }
  }

  /** The buffer's last places, once the carry is spent, hold the whole value. */
  lemma MulAddDone(b: nat, m: nat, c: nat, was: seq<nat>, now: seq<nat>, length: nat, i: nat)
    requires b > 0 && m > 0 && Normal(b, was, length) && Digits(b, now)
    requires |was| == |now| && length <= i <= |was|
    requires forall k | 0 <= k < |was| - i :: now[k] == was[k]
    requires Val(b, now[|now| - i..]) == m * Val(b, was[|was| - i..]) + c
    requires i > length ==> now[|now| - i] != 0
    ensures Val(b, now) == m * Val(b, was) + c && Normal(b, now, i)
  {
    hide Pow, Val;
    var k := |was| - i;
    ValSkip(b, was, k);
    ValSkip(b, now, k);
    if i > 0 && now[k] == 0 {
      MulMonotone(1, m, Val(b, was), Val(b, was));
      var old_, new_ := was[k..], now[k..];
      TopDigit(b, old_);
      ValSkip(b, new_, 1);
      ValBound(b, new_[1..]);
      assert false;
    }
  }

  /** buffer := buffer * m + c, touching no more places than needed. */
  method MulAdd(a: array<nat>, b: nat, m: nat, c: nat, length: nat) returns (i: nat)
    requires b > 1 && m > 0 && Normal(b, a[..], length)
    requires m * Val(b, a[..]) + c < Pow(b, a.Length)
    modifies a
    ensures Val(b, a[..]) == m * old(Val(b, a[..])) + c && Normal(b, a[..], i) && i >= length
  {
    hide Val, Pow, Quot, Rem, Partial, WithCarry;
    ghost var was := a[..];
    var n, carry: nat := a.Length, c;
    i := 0;
    PartialStart(b, m, c);
    assert a[n..] == [] == was[n..];
    while (carry != 0 || i < length) && i < n
      invariant i <= n && Digits(b, a[..])
      invariant forall k | 0 <= k < n - i :: a[k] == was[k]
      invariant Partial(b, m, c, a[n - i..], was[n - i..], carry)
      invariant i > length && carry == 0 ==> a[n - i] != 0
      decreases n - i
    {
      var it := n - 1 - i;
      ghost var x, y, d := a[n - i..], was[n - i..], was[it];
      DigitStep(b, m, c, x, y, d, carry);
      carry := WithCarry(carry, m, a[it]);
      a[it] := Rem(carry, b);
      carry := Quot(carry, b);
      i := i + 1;
      assert a[n - i..] == [a[it]] + x && was[n - i..] == [d] + y;
    }
    assert i == n ==> was[n - i..] == was;
    PartialEnd(b, m, c, a[n - i..], was[n - i..], carry);
    MulAddDone(b, m, c, was, a[..], length, i);
  }

  function WithCarry(carry: nat, m: nat, d: nat): nat { carry + m * d }

  /** One place: the new digit, the carry into the next place, and no zero digit for a last carry. */
  lemma DigitStep(b: nat, m: nat, c: nat, x: seq<nat>, y: seq<nat>, d: nat, carry: nat)
    requires b > 1 && Partial(b, m, c, x, y, carry)
    ensures var t := WithCarry(carry, m, d);
      && Partial(b, m, c, [Rem(t, b)] + x, [d] + y, Quot(t, b)) && Rem(t, b) < b
      && (d == 0 && carry > 0 && Quot(t, b) == 0 ==> Rem(t, b) != 0)
  {
    hide Quot, Rem, Partial;
    var t := WithCarry(carry, m, d);
    QuotRem(t, b);
    MulAddStep(b, m, c, x, y, d, carry, Quot(t, b), Rem(t, b));
    if d == 0 {
      assert m * d == 0;
    }
    if Quot(t, b) == 0 {
      assert b * Quot(t, b) == 0;
    }
  }

  // ---- The buffers are long enough ----------------------------------------

  lemma PowOne(b: nat)
    ensures Pow(b, 1) == b
  {
    assert Pow(b, 0) == 1;
  }

  lemma Pow58To11()
    ensures Pow(58, 11) == 24986644000165537792
  {
    hide Pow;
    PowOne(58);
    PowAdd(58, 1, 1);
    assert Pow(58, 2) == 3364;
    PowAdd(58, 2, 1);
    assert Pow(58, 3) == 195112;
    PowAdd(58, 3, 2);
    assert Pow(58, 5) == 656356768;
    PowAdd(58, 5, 3);
    assert Pow(58, 8) == 128063081718016;
    PowAdd(58, 8, 3);
    assert Pow(58, 11) == 24986644000165537792;
  }

  lemma Pow256To8()
    ensures Pow(256, 8) == 18446744073709551616
  {
    hide Pow;
    PowOne(256);
    PowAdd(256, 1, 1);
    assert Pow(256, 2) == 65536;
    PowAdd(256, 2, 2);
    assert Pow(256, 4) == 4294967296;
    PowAdd(256, 4, 4);
    assert Pow(256, 8) == 18446744073709551616;
  }

  // Powers of the two bases, for comparing the buffer sizes.
  const POW_58_64 :=
    0x7853026ae25f4ce0c69893e6f1f86f67aef4db69563516064adeb967a9d66f4fe64b09ec94e5010000000000000000
  const POW_58_71 :=
    0xf1a10f76073f997e1af0b37f5c795ecf145633452837a5de3fa17ac74b86f60a0ebe5446f358940a4ca12a800000000000000000
  const POW_256_48 :=
    0x1000000000000000000000000000000000000000000000000000000000000000000000000000000000000000000000000
  const POW_256_52 :=
    0x100000000000000000000000000000000000000000000000000000000000000000000000000000000000000000000000000000000

  lemma Pow58To71()
    ensures Pow(58, 71) == POW_58_71
  {
    hide Pow;
    PowOne(58);
    PowAdd(58, 1, 1);
    assert Pow(58, 2) == 3364;
    PowAdd(58, 2, 2);
    assert Pow(58, 4) == 11316496;
    PowAdd(58, 2, 1);
    assert Pow(58, 3) == 195112;
    PowAdd(58, 4, 3);
    assert Pow(58, 7) == 2207984167552;
    PowAdd(58, 4, 4);
    assert Pow(58, 8) == 128063081718016;
    PowAdd(58, 8, 8);
    assert Pow(58, 16) == 16400152899115243850138976256;
    PowAdd(58, 16, 16);
    assert Pow(58, 32) == 268965015114358137726910587140455987105619365599731777536;
    PowAdd(58, 32, 32);
    assert Pow(58, 64) == POW_58_64;
    PowAdd(58, 64, 7);
    assert Pow(58, 71) == POW_58_71;
  }

  lemma Pow256To52()
    ensures Pow(256, 52) == POW_256_52
  {
    hide Pow;
    PowOne(256);
    PowAdd(256, 1, 1);
    assert Pow(256, 2) == 65536;
    PowAdd(256, 2, 2);
    assert Pow(256, 4) == 4294967296;
    PowAdd(256, 4, 4);
    assert Pow(256, 8) == 18446744073709551616;
    PowAdd(256, 8, 8);
    assert Pow(256, 16) == 340282366920938463463374607431768211456;
    PowAdd(256, 16, 16);
    assert Pow(256, 32) == 115792089237316195423570985008687907853269984665640564039457584007913129639936;
    PowAdd(256, 32, 16);
    assert Pow(256, 48) == POW_256_48;
    PowAdd(256, 48, 4);
    assert Pow(256, 52) == POW_256_52;
  }

  /** n bytes fit the buffer of the encoder. */
  lemma EncodeCapacity(n: nat)
    ensures Pow(256, n) <= Pow(58, n * 138 / 100 + 1)
  {
    hide Pow;
    Pow58To11();
    Pow256To8();
    Capacity(256, 8, 58, 11, n, n * 138 / 100 + 1);
  }

  /** n characters fit the buffer of the decoder. */
  lemma DecodeCapacity(n: nat)
    ensures Pow(58, n) <= Pow(256, n * 733 / 1000 + 1)
  {
    hide Pow;
    Pow58To71();
    Pow256To52();
    Capacity(58, 71, 256, 52, n, n * 733 / 1000 + 1);
  }

  // ---- Encoding -----------------------------------------------------------

  ghost predicate AllZero(s: seq<nat>)
  {
    forall i | 0 <= i < |s| :: s[i] == 0
  }

  /** One more digit, still within the capacity of a buffer of `size` places. */
  lemma Room(m: nat, s: seq<nat>, d: nat, n: nat, b: nat, size: nat)
    requires m > 0 && Digits(m, s) && d < m && |s| < n && Pow(m, n) <= Pow(b, size)
    ensures m * Val(m, s) + d < Pow(b, size)
  {
    hide Pow, Val;
    ValLast(m, s, d);
    ValBound(m, s + [d]);
    PowMonotone(m, |s| + 1, n);
  }

  lemma ZeroBuffer(b: nat, s: seq<nat>)
    requires b > 0 && AllZero(s)
    ensures Val(b, s) == 0 && Normal(b, s, 0)
  {
    hide Pow;
    ValSkip(b, s, |s|);
  }

  method SkipZeroes(a: array<nat>, from: nat) returns (it: nat)
    requires from <= a.Length
    ensures from <= it <= a.Length && (forall i | from <= i < it :: a[i] == 0) && (it < a.Length ==> a[it] != 0)
  {
    it := from;
    while it < a.Length && a[it] == 0
      invariant from <= it <= a.Length && forall i | from <= i < it :: a[i] == 0
    {
      it := it + 1;
    }
  }

  method EncodeBase58(vch: seq<nat>) returns (str: string)
    requires Digits(256, vch)
    ensures Same(str, vch)
  {
    hide Val, Pow, Lead, CharOf, DigitOf;
    var zeroes := 0;
    while zeroes < |vch| && vch[zeroes] == 0
      invariant zeroes <= |vch| && forall i | 0 <= i < zeroes :: vch[i] == 0
    {
      zeroes := zeroes + 1;
    }
    var n := |vch| - zeroes;
    var size := n * 138 / 100 + 1;
    EncodeCapacity(n);
    var b58 := new nat[size](_ => 0);
    ZeroBuffer(58, b58[..]);
    var length, p := 0, zeroes;
    ValSkip(256, [], 0);
    assert vch[zeroes..p] == [];
    EmptyVal(256);
    while p < |vch|
      invariant zeroes <= p <= |vch| && Normal(58, b58[..], length)
      invariant Val(58, b58[..]) == Val(256, vch[zeroes..p])
    {
      Room(256, vch[zeroes..p], vch[p], n, 58, size);
      ValLast(256, vch[zeroes..p], vch[p]);
      assert vch[zeroes..p] + [vch[p]] == vch[zeroes..p + 1];
      length := MulAdd(b58, 58, 256, vch[p], length);
      p := p + 1;
    }
    assert vch[zeroes..p] == vch[zeroes..];
    var it := SkipZeroes(b58, size - length);
    ghost var buf := b58[..];
    str := seq(zeroes, _ => '1');
    ghost var from := it;
    while it < size
      invariant from <= it <= size && b58[..] == buf
      invariant |str| == zeroes + it - from
      invariant forall i | 0 <= i < zeroes :: str[i] == '1'
      invariant forall i | zeroes <= i < |str| :: DigitOf(str[i]) == Some(buf[from + i - zeroes])
    {
      Alphabet(b58[it], 'x');
      str := str + [CharOf(b58[it])];
      it := it + 1;
    }
    EncodedSame(vch, zeroes, buf, from, str);
  }

  lemma EmptyVal(b: nat)
    ensures Val(b, []) == 0
  {
  }

  /** Zeros followed by the used part of a buffer of the same value. */
  lemma EncodedSame(vch: seq<nat>, zeroes: nat, buf: seq<nat>, from: nat, str: string)
    requires Digits(256, vch) && Digits(58, buf) && zeroes <= |vch| && from <= |buf|
    requires (forall i | 0 <= i < zeroes :: vch[i] == 0) && (zeroes < |vch| ==> vch[zeroes] != 0)
    requires (forall i | 0 <= i < from :: buf[i] == 0) && (from < |buf| ==> buf[from] != 0)
    requires Val(58, buf) == Val(256, vch[zeroes..])
    requires |str| == zeroes + |buf| - from && forall i | 0 <= i < zeroes :: str[i] == '1'
    requires forall i | zeroes <= i < |str| :: DigitOf(str[i]) == Some(buf[from + i - zeroes])
    ensures Same(str, vch)
  {
    hide Val, Pow, Lead, CharOf, DigitOf;
    Alphabet(0, '1');
    var d := DigitsOf(str);
    forall i | 0 <= i < zeroes ensures d[i] == 0 {}
    forall i | zeroes <= i < |str| ensures d[i] == buf[from + i - zeroes] {}
    assert d[zeroes..] == buf[from..];
    LeadZeros(d, zeroes);
    LeadZeros(vch, zeroes);
    ValSkip(58, d, zeroes);
    ValSkip(58, buf, from);
    ValSkip(256, vch, zeroes);
  }

  // ---- Decoding -----------------------------------------------------------

  /** White space up to start, then `zeroes` ones, then other characters of the alphabet up to p. */
  ghost predicate Read(str: string, start: nat, zeroes: nat, p: nat)
  {
    && start + zeroes <= p <= |str| && IsBase58(str[start..p])
    && (forall i | 0 <= i < start :: IsSpace(str[i]))
    && (forall i | start <= i < start + zeroes :: str[i] == '1')
    && (p > start + zeroes ==> str[start + zeroes] != '1')
  }

  lemma NotSpace(str: string, lo: nat, hi: nat, k: nat)
    requires lo <= k < hi <= |str| && IsBase58(str[lo..hi])
    ensures DigitOf(str[k]).Some? && !IsSpace(str[k])
  {
    hide DigitOf, IsSpace;
    assert str[k] == str[lo..hi][k - lo];
    Alphabet(0, str[k]);
  }

  lemma CoreStart(str: string, start: nat, k: nat, lo: nat, hi: nat)
    requires start <= k < |str| && !IsSpace(str[start]) && !IsSpace(str[k])
    requires (forall i | 0 <= i < start :: IsSpace(str[i])) && Core(str, lo, hi)
    ensures lo == start && k < hi
  {
    hide IsSpace, DigitOf, IsBase58;
    if lo < start && lo < hi { NotSpace(str, lo, hi, lo); }
  }

  lemma {:induction false} ValPrefix(b: nat, s: seq<nat>, k: nat)
    requires b > 0 && k <= |s|
    ensures Val(b, s) >= Val(b, s[..k])
    decreases |s|
  {
    hide Val, Pow;
    if k == |s| {
      assert s[..k] == s;
    } else {
      var t := s[..|s| - 1];
      ValPrefix(b, t, k);
      ValLast(b, t, s[|s| - 1]);
      assert s == t + [s[|s| - 1]] && t[..k] == s[..k];
      MulMonotone(1, b, Val(b, t), Val(b, t));
    }
  }

  lemma LongEnough(v: seq<nat>, zeroes: nat, length: nat)
    requires Digits(256, v) && Lead(v) >= zeroes && (length > 0 ==> Val(256, v) >= Pow(256, length - 1))
    ensures |v| >= zeroes + length
  {
    hide Val, Pow, Lead;
    LeadMeaning(v);
    ValSkip(256, v, zeroes);
    ValBound(256, v[zeroes..]);
    if |v| < zeroes + length { PowMonotone(256, |v| - zeroes, length - 1); }
  }

  lemma LeadAtLeast(s: seq<nat>, k: nat)
    requires k <= |s| && forall i | 0 <= i < k :: s[i] == 0
    ensures Lead(s) >= k
  {
    hide Lead;
    LeadMeaning(s);
  }

  /** What is read already needs more bytes than allowed. */
  lemma TooLong(str: string, start: nat, zeroes: nat, p: nat, length: nat, maxLen: nat)
    requires Read(str, start, zeroes, p) && p > start && zeroes + length > maxLen
    requires IsBase58(str[start + zeroes..p])
    requires length > 0 ==> Val(58, DigitsOf(str[start + zeroes..p])) >= Pow(256, length - 1)
    ensures Decodes(str, maxLen, None)
  {
    hide Val, Pow, Lead, DigitOf, IsSpace;
    forall lo: nat, hi: nat, v: seq<nat> | Core(str, lo, hi) && Same(str[lo..hi], v) ensures |v| > maxLen {
      NotSpace(str, start, p, start);
      NotSpace(str, start, p, p - 1);
      CoreStart(str, start, p - 1, lo, hi);
      var d := DigitsOf(str[lo..hi]);
      ReadDigits(str, start, zeroes, p, hi);
      LeadAtLeast(d, zeroes);
      ValSkip(58, d, zeroes);
      ValPrefix(58, d[zeroes..], p - start - zeroes);
      LongEnough(v, zeroes, length);
    }
  }

  lemma ReadDigits(str: string, start: nat, zeroes: nat, p: nat, hi: nat)
    requires Read(str, start, zeroes, p) && p <= hi <= |str| && IsBase58(str[start..hi])
    ensures IsBase58(str[start + zeroes..p])
    ensures var d := DigitsOf(str[start..hi]);
      && (forall i | 0 <= i < zeroes :: d[i] == 0)
      && (p > start + zeroes ==> d[zeroes] != 0)
      && d[zeroes..][..p - start - zeroes] == DigitsOf(str[start + zeroes..p])
  {
    hide DigitOf, IsSpace;
    forall k | start <= k < hi ensures str[start..hi][k - start] == str[k]
      && (DigitOf(str[k]) == Some(0) <==> str[k] == '1') {
      Alphabet(0, str[k]);
    }
    assert str[start + zeroes..p] == str[start..hi][zeroes..p - start];
  }

  lemma BadCharacter(str: string, start: nat, p: nat, maxLen: nat)
    requires start <= p < |str| && !IsSpace(str[start]) && !IsSpace(str[p])
    requires (forall i | 0 <= i < start :: IsSpace(str[i]))
    requires exists k :: start <= k <= p && DigitOf(str[k]).None?
    ensures Decodes(str, maxLen, None)
  {
    hide DigitOf, IsSpace;
    var k :| start <= k <= p && DigitOf(str[k]).None?;
    forall lo: nat, hi: nat ensures !Core(str, lo, hi) {
      if Core(str, lo, hi) {
        CoreStart(str, start, p, lo, hi);
        NotSpace(str, lo, hi, k);
      }
    }
  }

  lemma NulRejected(str: string, maxLen: nat)
    requires '\0' in str
    ensures Decodes(str, maxLen, None)
  {
    var k :| 0 <= k < |str| && str[k] == '\0';
    forall lo: nat, hi: nat ensures !Core(str, lo, hi) {
      if lo <= k < hi <= |str| { assert str[k] == str[lo..hi][k - lo]; }
    }
  }

  /** Leading ones and the digits after them stand for zero bytes and the bytes after them. */
  lemma SameDigits(s: string, zeroes: nat, w: seq<nat>)
    requires IsBase58(s) && zeroes <= |s| && Digits(256, w) && (|w| > 0 ==> w[0] != 0)
    requires forall i | 0 <= i < zeroes :: DigitsOf(s)[i] == 0
    requires |s| > zeroes ==> DigitsOf(s)[zeroes] != 0
    requires Val(58, DigitsOf(s)[zeroes..]) == Val(256, w)
    ensures Same(s, seq(zeroes, _ => 0) + w)
  {
    hide Val, Pow, Lead, DigitOf;
    var d, v := DigitsOf(s), seq(zeroes, _ => 0) + w;
    assert v[zeroes..] == w;
    LeadZeros(v, zeroes);
    LeadZeros(d, zeroes);
    ValSkip(256, v, zeroes);
    ValSkip(58, d, zeroes);
  }

  lemma InUse(buf: seq<nat>, length: nat)
    requires Normal(256, buf, length)
    ensures var w := buf[|buf| - length..];
      Digits(256, w) && (|w| > 0 ==> w[0] != 0) && Val(256, w) == Val(256, buf)
  {
    hide Val, Pow;
    ValSkip(256, buf, |buf| - length);
  }

  lemma CoreDecodes(str: string, lo: nat, hi: nat, v: seq<nat>, maxLen: nat)
    requires Core(str, lo, hi) && Same(str[lo..hi], v) && |v| <= maxLen
    ensures Decodes(str, maxLen, Some(v))
  {
    hide Core, Same;
  }

  lemma Complete(str: string, start: nat, zeroes: nat, p: nat, buf: seq<nat>, length: nat, maxLen: nat)
    requires Read(str, start, zeroes, p) && Normal(256, buf, length) && IsBase58(str[start + zeroes..p])
    requires Val(256, buf) == Val(58, DigitsOf(str[start + zeroes..p]))
    requires (forall i | p <= i < |str| :: IsSpace(str[i])) && zeroes + length <= maxLen
    ensures Decodes(str, maxLen, Some(seq(zeroes, _ => 0) + buf[|buf| - length..]))
  {
    hide Val, Pow, Lead, DigitOf, IsSpace, Decodes, Same;
    var w := buf[|buf| - length..];
    ReadDigits(str, start, zeroes, p, p);
    var d := DigitsOf(str[start..p]);
    assert d[zeroes..][..p - start - zeroes] == d[zeroes..];
    InUse(buf, length);
    SameDigits(str[start..p], zeroes, w);
    CoreDecodes(str, start, p, seq(zeroes, _ => 0) + w, maxLen);
  }

  lemma OneMore(str: string, start: nat, zeroes: nat, p: nat)
    requires Read(str, start, zeroes, p) && p < |str| && DigitOf(str[p]).Some? && IsBase58(str[start + zeroes..p])
    requires str[start + zeroes] != '1'
    ensures Read(str, start, zeroes, p + 1) && IsBase58(str[start + zeroes..p + 1])
    ensures DigitsOf(str[start + zeroes..p + 1]) == DigitsOf(str[start + zeroes..p]) + [DigitOf(str[p]).value]
  {
    hide DigitOf, IsSpace;
    assert str[start..p + 1] == str[start..p] + [str[p]];
    assert str[start + zeroes..p + 1] == str[start + zeroes..p] + [str[p]];
  }

  lemma OneMoreZero(str: string, start: nat, zeroes: nat)
    requires Read(str, start, zeroes, start + zeroes) && start + zeroes < |str| && str[start + zeroes] == '1'
    ensures Read(str, start, zeroes + 1, start + zeroes + 1)
  {
    hide DigitOf, IsSpace;
    Alphabet(0, '1');
    var p := start + zeroes;
    assert str[start..p + 1] == str[start..p] + [str[p]];
  }

  lemma DigitsBound(s: string)
    requires IsBase58(s)
    ensures Digits(58, DigitsOf(s))
  {
    hide DigitOf;
    forall i | 0 <= i < |s| ensures DigitsOf(s)[i] < 58 { Alphabet(0, s[i]); }
  }

  lemma NormalBound(b: nat, s: seq<nat>, length: nat)
    requires Normal(b, s, length)
    ensures length > 0 ==> Val(b, s) >= Pow(b, length - 1)
  {
    hide Val, Pow;
    ValSkip(b, s, |s| - length);
    if length > 0 { TopDigit(b, s[|s| - length..]); }
  }

  /** Reads digits into the buffer up to white space or the end. */
  method DecodeBody(str: string, ghost start: nat, zeroes: nat, q: nat, maxLen: nat, b256: array<nat>)
    returns (ok: bool, p: nat, length: nat)
    requires q == start + zeroes && zeroes <= maxLen && Read(str, start, zeroes, q) && AllZero(b256[..])
    requires start < |str| ==> !IsSpace(str[start])
    requires q < |str| ==> str[q] != '1'
    requires b256.Length == (|str| - q) * 733 / 1000 + 1
    modifies b256
    ensures !ok ==> Decodes(str, maxLen, None)
    ensures ok ==> q <= p && Read(str, start, zeroes, p) && (p < |str| ==> IsSpace(str[p]))
    ensures ok ==> Normal(256, b256[..], length) && zeroes + length <= maxLen
    ensures ok ==> IsBase58(str[q..p]) && Val(256, b256[..]) == Val(58, DigitsOf(str[q..p]))
  {
    hide Val, Pow, Lead, DigitOf, IsSpace, Decodes, AllZero;
    var n := |str| - q;
    DecodeCapacity(n);
    p, length := q, 0;
    ZeroBuffer(256, b256[..]);
    assert DigitsOf(str[q..p]) == [];
    EmptyVal(58);
    while p < |str| && !IsSpace(str[p])
      invariant q <= p && Read(str, start, zeroes, p) && Normal(256, b256[..], length) && zeroes + length <= maxLen
      invariant IsBase58(str[q..p]) && Val(256, b256[..]) == Val(58, DigitsOf(str[q..p]))
    {
      var carry := DigitOf(str[p]);
      if carry.None? {
        BadCharacter(str, start, p, maxLen);
        return false, p, length;
      }
      Alphabet(0, str[p]);
      OneMore(str, start, zeroes, p);
      DigitsBound(str[q..p]);
      Room(58, DigitsOf(str[q..p]), carry.value, n, 256, b256.Length);
      ValLast(58, DigitsOf(str[q..p]), carry.value);
      length := MulAdd(b256, 256, 58, carry.value, length);
      if length + zeroes > maxLen {
        NormalBound(256, b256[..], length);
        TooLong(str, start, zeroes, p + 1, length, maxLen);
        return false, p, length;
      }
      p := p + 1;
    }
    ok := true;
  }

  method DecodeBase58(str: string, maxLen: nat) returns (r: Option<seq<nat>>)
    ensures Decodes(str, maxLen, r)
  {
    hide Val, Pow, Lead, DigitOf, IsSpace, Decodes;
    if '\0' in str {
      NulRejected(str, maxLen);
      return None;
    }
    var p := 0;
    while p < |str| && IsSpace(str[p])
      invariant p <= |str| && forall i | 0 <= i < p :: IsSpace(str[i])
    {
      p := p + 1;
    }
    ghost var start := p;
    var zeroes, length: nat := 0, 0;
    Alphabet(0, '1');
    while p < |str| && str[p] == '1'
      invariant p == start + zeroes && zeroes <= maxLen && Read(str, start, zeroes, p)
    {
      OneMoreZero(str, start, zeroes);
      zeroes := zeroes + 1;
      if zeroes > maxLen {
        TooLong(str, start, zeroes, p + 1, 0, maxLen);
        return None;
      }
      p := p + 1;
    }
    var q := p;
    var size := (|str| - q) * 733 / 1000 + 1;
    var b256 := new nat[size](_ => 0);
    var ok;
    ok, p, length := DecodeBody(str, start, zeroes, q, maxLen, b256);
    if !ok {
      return None;
    }
    ghost var hi, buf := p, b256[..];
    while p < |str| && IsSpace(str[p])
      invariant hi <= p <= |str| && b256[..] == buf && forall i | hi <= i < p :: IsSpace(str[i])
    {
      p := p + 1;
    }
    if p < |str| {
      Alphabet(0, str[hi]);
      BadCharacter(str, start, p, maxLen);
      return None;
    }
    Complete(str, start, zeroes, hi, buf, length, maxLen);
    r := Some(seq(zeroes, _ => 0) + b256[size - length..]);
  }

  // ---- Round trips --------------------------------------------------------

  lemma CoreUnique(str: string, lo: nat, hi: nat, lo2: nat, hi2: nat)
    requires Core(str, lo, hi) && Core(str, lo2, hi2)
    ensures str[lo..hi] == str[lo2..hi2]
  {
    hide DigitOf, IsSpace;
    if lo < hi { SameStart(str, lo, hi, lo2, hi2); }
    if lo2 < hi2 { SameStart(str, lo2, hi2, lo, hi); }
  }

  lemma SameStart(str: string, lo: nat, hi: nat, lo2: nat, hi2: nat)
    requires Core(str, lo, hi) && Core(str, lo2, hi2) && lo < hi
    ensures lo == lo2 && hi <= hi2
  {
    hide DigitOf, IsSpace;
    NotSpace(str, lo, hi, lo);
    NotSpace(str, lo, hi, hi - 1);
    CoreStart(str, lo, hi - 1, lo2, hi2);
  }

  lemma SameUnique(s: string, v: seq<nat>, w: seq<nat>)
    requires Same(s, v) && Same(s, w)
    ensures v == w
  {
    hide Val, Lead;
    Unique(256, v, w);
  }

  /** Decoding an encoding gives the bytes back, unless they are more than allowed. */
  lemma DecodeEncode(vch: seq<nat>, str: string, maxLen: nat, r: Option<seq<nat>>)
    requires Same(str, vch) && Decodes(str, maxLen, r)
    ensures r == if |vch| <= maxLen then Some(vch) else None
  {
    hide Same, DigitOf, IsSpace;
    assert str[0..|str|] == str;
    assert Core(str, 0, |str|) by { assert IsBase58(str) by { Readable(str, vch); } }
    match r
    case None =>
    case Some(v) =>
      var lo: nat, hi: nat :| Core(str, lo, hi) && Same(str[lo..hi], v);
      CoreUnique(str, 0, |str|, lo, hi);
      SameUnique(str, v, vch);
  }

  lemma Readable(s: string, v: seq<nat>)
    requires Same(s, v)
    ensures IsBase58(s)
  {
  }

  lemma CharsUnique(s: string, t: string)
    requires IsBase58(s) && IsBase58(t) && DigitsOf(s) == DigitsOf(t)
    ensures s == t
  {
    hide DigitOf, CharOf;
    assert |s| == |DigitsOf(s)| == |t|;
    forall i | 0 <= i < |s| ensures s[i] == t[i] {
      assert DigitsOf(s)[i] == DigitsOf(t)[i];
      Alphabet(0, s[i]);
      Alphabet(0, t[i]);
    }
  }

  /** Encoding what a string decodes to gives the string back without its white space. */
  lemma EncodeDecode(str: string, maxLen: nat, v: seq<nat>, s: string)
    requires Decodes(str, maxLen, Some(v)) && Same(s, v)
    ensures exists lo: nat, hi: nat :: Core(str, lo, hi) && s == str[lo..hi]
    ensures (forall i | 0 <= i < |str| :: !IsSpace(str[i])) ==> s == str
  {
    hide Val, Lead, DigitOf, IsSpace;
    var lo: nat, hi: nat :| Core(str, lo, hi) && Same(str[lo..hi], v);
    var t := str[lo..hi];
    DigitsBound(s);
    DigitsBound(t);
    Unique(58, DigitsOf(s), DigitsOf(t));
    CharsUnique(s, t);
    assert Core(str, lo, hi) && s == str[lo..hi];
    assert lo > 0 ==> IsSpace(str[0]);
    assert hi < |str| ==> IsSpace(str[hi]);
    assert lo == 0 && hi == |str| ==> t == str;
  }

  /** The specification leaves one result. */
  lemma DecodesOnce(str: string, maxLen: nat, r: Option<seq<nat>>, r2: Option<seq<nat>>)
    requires Decodes(str, maxLen, r) && Decodes(str, maxLen, r2)
    ensures r == r2
  {
    hide Same, DigitOf, IsSpace;
    if r.Some? && r2.Some? {
      var lo: nat, hi: nat :| Core(str, lo, hi) && Same(str[lo..hi], r.value);
      var lo2: nat, hi2: nat :| Core(str, lo2, hi2) && Same(str[lo2..hi2], r2.value);
      CoreUnique(str, lo, hi, lo2, hi2);
      SameUnique(str[lo..hi], r.value, r2.value);
    }
  }

  // ---- With a checksum ----------------------------------------------------

  /** The largest value of the source's length type. */
  const SIZE_MAX: nat := 0xffff_ffff_ffff_ffff

  /** The limit with room for the four bytes of the checksum, held to the length type. */
  function Limit(maxLen: nat): (r: nat)
    ensures r <= maxLen + 4 && r <= 0xffff_ffff_ffff_ffff
    ensures r == maxLen + 4 || r == 0xffff_ffff_ffff_ffff
  {
    if maxLen > SIZE_MAX - 4 then SIZE_MAX else maxLen + 4
  }

  /** A hash function that gives at least four bytes. */
  ghost predicate IsHash(h: seq<nat> -> seq<nat>)
  {
    forall v :: |h(v)| >= 4 && Digits(256, h(v))
  }

  function Checked(v: seq<nat>, h: seq<nat> -> seq<nat>): seq<nat>
  {
    v + if |h(v)| >= 4 then h(v)[..4] else []
  }

  method EncodeBase58Check(vchIn: seq<nat>, h: seq<nat> -> seq<nat>) returns (str: string)
    requires Digits(256, vchIn) && IsHash(h)
    ensures Same(str, Checked(vchIn, h))
  {
    str := EncodeBase58(vchIn + h(vchIn)[..4]);
  }

  method DecodeBase58Check(str: string, maxLen: nat, h: seq<nat> -> seq<nat>) returns (r: Option<seq<nat>>)
    requires IsHash(h)
    ensures r.Some? ==> Decodes(str, Limit(maxLen), Some(Checked(r.value, h)))
    ensures r.None? ==> forall v :: !Decodes(str, Limit(maxLen), Some(Checked(v, h)))
  {
    hide Decodes;
    var d := DecodeBase58(str, Limit(maxLen));
    forall x | Decodes(str, Limit(maxLen), x) ensures x == d { DecodesOnce(str, Limit(maxLen), x, d); }
    if d.None? || |d.value| < 4 {
      return None;
    }
    var body := d.value[..|d.value| - 4];
    assert forall v | Checked(v, h) == d.value :: v == body;
    if h(body)[..4] != d.value[|d.value| - 4..] {
      return None;
    }
    assert Checked(body, h) == d.value;
    r := Some(body);
  }

  /** A checked string decodes to its payload exactly when the payload is within the limit. */
  lemma CheckRoundTrip(v: seq<nat>, w: seq<nat>, h: seq<nat> -> seq<nat>, str: string, maxLen: nat)
    requires IsHash(h) && Same(str, Checked(v, h)) && |v| + 4 <= SIZE_MAX
    ensures Decodes(str, Limit(maxLen), Some(Checked(w, h))) <==> w == v && |v| <= maxLen
  {
    hide Same, IsSpace, DigitOf;
    var x := Checked(v, h);
    Readable(str, x);
    assert str[0..|str|] == str && Core(str, 0, |str|);
    assert |h(v)| >= 4 && |h(w)| >= 4 && |x| == |v| + 4;
    if |v| <= maxLen {
      assert Core(str, 0, |str|) && Same(str[0..|str|], x) && |x| <= Limit(maxLen);
      assert Decodes(str, Limit(maxLen), Some(x));
    }
    if Decodes(str, Limit(maxLen), Some(Checked(w, h))) {
      DecodeEncode(x, str, Limit(maxLen), Some(Checked(w, h)));
      assert Checked(w, h) == x;
      assert w == Checked(w, h)[..|x| - 4];
      assert v == x[..|x| - 4];
    }
  }
}
