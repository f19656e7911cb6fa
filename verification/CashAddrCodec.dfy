/** Encoding and decoding of CashAddr strings. */
module CashAddrCodec {
  import opened CashAddr
  import opened Words
  import opened Wrappers

  // ---- The character set --------------------------------------------------

  // The 32 characters in groups of eight.
  function CharA(d: Sym): char
  {
    if d == 0 then 'q' else if d == 1 then 'p' else if d == 2 then 'z' else if d == 3 then 'r'
    else if d == 4 then 'y' else if d == 5 then '9' else if d == 6 then 'x' else '8'
  }

  function CharB(d: Sym): char
  {
    if d == 8 then 'g' else if d == 9 then 'f' else if d == 10 then '2' else if d == 11 then 't'
    else if d == 12 then 'v' else if d == 13 then 'd' else if d == 14 then 'w' else '0'
  }

  function CharC(d: Sym): char
  {
    if d == 16 then 's' else if d == 17 then '3' else if d == 18 then 'j' else if d == 19 then 'n'
    else if d == 20 then '5' else if d == 21 then '4' else if d == 22 then 'k' else 'h'
  }

  function CharD(d: Sym): char
  {
    if d == 24 then 'c' else if d == 25 then 'e' else if d == 26 then '6' else if d == 27 then 'm'
    else if d == 28 then 'u' else if d == 29 then 'a' else if d == 30 then '7' else 'l'
  }

  function CharOf(d: Sym): char
  {
    if d < 8 then CharA(d) else if d < 16 then CharB(d) else if d < 24 then CharC(d) else CharD(d)
  }

  // The symbols of the same groups, for characters of either case.
  function SymA(c: char): Option<Sym>
  {
    if c == 'q' || c == 'Q' then Some(0) else if c == 'p' || c == 'P' then Some(1)
    else if c == 'z' || c == 'Z' then Some(2) else if c == 'r' || c == 'R' then Some(3)
    else if c == 'y' || c == 'Y' then Some(4) else if c == '9' then Some(5)
    else if c == 'x' || c == 'X' then Some(6) else if c == '8' then Some(7) else None
  }

  function SymB(c: char): Option<Sym>
  {
    if c == 'g' || c == 'G' then Some(8) else if c == 'f' || c == 'F' then Some(9)
    else if c == '2' then Some(10) else if c == 't' || c == 'T' then Some(11)
    else if c == 'v' || c == 'V' then Some(12) else if c == 'd' || c == 'D' then Some(13)
    else if c == 'w' || c == 'W' then Some(14) else if c == '0' then Some(15) else None
  }

  function SymC(c: char): Option<Sym>
  {
    if c == 's' || c == 'S' then Some(16) else if c == '3' then Some(17)
    else if c == 'j' || c == 'J' then Some(18) else if c == 'n' || c == 'N' then Some(19)
    else if c == '5' then Some(20) else if c == '4' then Some(21)
    else if c == 'k' || c == 'K' then Some(22) else if c == 'h' || c == 'H' then Some(23) else None
  }

  function SymD(c: char): Option<Sym>
  {
    if c == 'c' || c == 'C' then Some(24) else if c == 'e' || c == 'E' then Some(25)
    else if c == '6' then Some(26) else if c == 'm' || c == 'M' then Some(27)
    else if c == 'u' || c == 'U' then Some(28) else if c == 'a' || c == 'A' then Some(29)
    else if c == '7' then Some(30) else if c == 'l' || c == 'L' then Some(31) else None
  }

  function SymOf(c: char): Option<Sym>
  {
    if SymA(c).Some? then SymA(c) else if SymB(c).Some? then SymB(c) else if SymC(c).Some? then SymC(c) else SymD(c)
  }

  /** The characters in the order of their symbols. */
  lemma Charset()
    ensures [CharOf(0), CharOf(1), CharOf(2), CharOf(3), CharOf(4), CharOf(5), CharOf(6), CharOf(7)] ==
            "qpzry9x8"
    ensures [CharOf(8), CharOf(9), CharOf(10), CharOf(11), CharOf(12), CharOf(13), CharOf(14), CharOf(15)] ==
            "gf2tvdw0"
    ensures [CharOf(16), CharOf(17), CharOf(18), CharOf(19), CharOf(20), CharOf(21), CharOf(22), CharOf(23)] ==
            "s3jn54kh"
    ensures [CharOf(24), CharOf(25), CharOf(26), CharOf(27), CharOf(28), CharOf(29), CharOf(30), CharOf(31)] ==
            "ce6mua7l"
  {
  }

  predicate IsLower(c: char) { 'a' <= c <= 'z' }
  predicate IsUpper(c: char) { 'A' <= c <= 'Z' }
  predicate IsDigit(c: char) { '0' <= c <= '9' }
  predicate IsAlnum(c: char) { IsLower(c) || IsUpper(c) || IsDigit(c) }

  /** Sets bit 5 of a byte. */
  function LowerCase(c: char): char
  {
    if c as int / 32 % 2 == 0 && c as int < 224 then (c as int + 32) as char else c
  }

  function UpperCase(c: char): char
  {
    if IsLower(c) then (c as int - 32) as char else c
  }

  lemma GroupA(d: Sym, c: char)
    ensures 0 <= d < 8 ==> SymA(CharA(d)) == Some(d) && (IsLower(CharA(d)) || IsDigit(CharA(d)))
    ensures SymA(c).Some? ==> 0 <= SymA(c).value < 8 && CharA(SymA(c).value) == LowerCase(c)
  {
  }

  lemma GroupB(d: Sym, c: char)
    ensures 8 <= d < 16 ==> SymB(CharB(d)) == Some(d) && (IsLower(CharB(d)) || IsDigit(CharB(d)))
    ensures SymB(c).Some? ==> 8 <= SymB(c).value < 16 && CharB(SymB(c).value) == LowerCase(c)
  {
  }

  lemma GroupC(d: Sym, c: char)
    ensures 16 <= d < 24 ==> SymC(CharC(d)) == Some(d) && (IsLower(CharC(d)) || IsDigit(CharC(d)))
    ensures SymC(c).Some? ==> 16 <= SymC(c).value < 24 && CharC(SymC(c).value) == LowerCase(c)
  {
  }

  lemma GroupD(d: Sym, c: char)
    ensures 24 <= d < 32 ==> SymD(CharD(d)) == Some(d) && (IsLower(CharD(d)) || IsDigit(CharD(d)))
    ensures SymD(c).Some? ==> 24 <= SymD(c).value < 32 && CharD(SymD(c).value) == LowerCase(c)
  {
  }

  lemma DisjointAB(c: char)
    ensures SymA(c).Some? ==> SymB(c).None? && SymC(c).None? && SymD(c).None?
  {
  }

  lemma DisjointBC(c: char)
    ensures SymB(c).Some? ==> SymC(c).None? && SymD(c).None?
  {
  }

  lemma DisjointCD(c: char)
    ensures SymC(c).Some? ==> SymD(c).None?
  {
  }

  lemma CharIsSymbol(d: Sym)
    requires d < 32
    ensures SymOf(CharOf(d)) == Some(d) && (IsLower(CharOf(d)) || IsDigit(CharOf(d)))
  {
    hide CharA, CharB, CharC, CharD, SymA, SymB, SymC, SymD, IsLower, IsDigit;
    DisjointAB(CharOf(d));
    DisjointBC(CharOf(d));
    DisjointCD(CharOf(d));
    GroupA(d, 'x');
    GroupB(d, 'x');
    GroupC(d, 'x');
    GroupD(d, 'x');
  }

  /** Decoding a character and encoding its symbol gives its lower-case form. */
  lemma SymbolIsChar(c: char)
    requires SymOf(c).Some?
    ensures SymOf(c).value < 32 && CharOf(SymOf(c).value) == LowerCase(c)
  {
    hide CharA, CharB, CharC, CharD, SymA, SymB, SymC, SymD, LowerCase;
    GroupA(0, c);
    GroupB(0, c);
    GroupC(0, c);
    GroupD(0, c);
  }

  lemma UpperAB(c: char)
    requires IsLower(c) || IsDigit(c)
    ensures SymA(UpperCase(c)) == SymA(c) && SymB(UpperCase(c)) == SymB(c)
  {
  }

  lemma UpperCD(c: char)
    requires IsLower(c) || IsDigit(c)
    ensures SymC(UpperCase(c)) == SymC(c) && SymD(UpperCase(c)) == SymD(c)
  {
  }

  lemma UpperIsSymbol(c: char)
    requires IsLower(c) || IsDigit(c)
    ensures SymOf(UpperCase(c)) == SymOf(c) && (IsUpper(UpperCase(c)) || IsDigit(UpperCase(c)))
  {
    hide SymA, SymB, SymC, SymD;
    UpperAB(c);
    UpperCD(c);
  }

  // ---- The checksum -------------------------------------------------------

  /** The low five bits. */
  function Low5(x: bv64): Sym
  {
    (x & 0x1f) as bv8
  }

  /** A 40-bit remainder shifted right by 5 * (7 - i). */
  function ShiftOut(mod: bv64, i: nat): bv64
    requires i < 8
  {
    if i == 0 then mod >> 35 else if i == 1 then mod >> 30 else if i == 2 then mod >> 25 else if i == 3 then mod >> 20
    else if i == 4 then mod >> 15 else if i == 5 then mod >> 10 else if i == 6 then mod >> 5 else mod
  }

  /** The eight 5-bit groups of a 40-bit remainder, high ones first. */
  function Groups(mod: bv64): (r: seq<Sym>)
    ensures |r| == 8
  {
    seq(8, i requires 0 <= i < 8 => Low5(ShiftOut(mod, i)))
  }

  lemma Low5Bound(x: bv64)
    ensures Low5(x) < 32
  {
  }

  lemma AppendBack(x: bv64)
    ensures Append(Shift5Out(x), Low5(x)) == x
  {
  }

  function Shift5Out(x: bv64): bv64
  {
    x >> 5
  }

  lemma FirstShifts(mod: bv64)
    requires mod < LIMIT_40
    ensures Shift5Out(mod >> 35) == 0 && Shift5Out(mod >> 30) == mod >> 35
  {
  }

  lemma MiddleShifts(mod: bv64)
    ensures Shift5Out(mod >> 25) == mod >> 30 && Shift5Out(mod >> 20) == mod >> 25
    ensures Shift5Out(mod >> 15) == mod >> 20
  {
  }

  lemma LastShifts(mod: bv64)
    ensures Shift5Out(mod >> 10) == mod >> 15 && Shift5Out(mod >> 5) == mod >> 10
  {
  }

  lemma ShiftByFives(mod: bv64, i: nat)
    requires mod < LIMIT_40 && i < 8
    ensures Shift5Out(ShiftOut(mod, i)) == if i == 0 then 0 else ShiftOut(mod, i - 1)
  {
    hide Shift5Out;
    FirstShifts(mod);
    MiddleShifts(mod);
    LastShifts(mod);
    if i == 7 {
      calc {
        Shift5Out(mod);
        { ShiftOnce(mod); }
        mod >> 5;
      }
    }
  }

  lemma ShiftOnce(x: bv64)
    ensures Shift5Out(x) == x >> 5
  {
  }

  lemma AppendGroup(mod: bv64, i: nat)
    requires mod < LIMIT_40 && i < 8
    ensures Append(if i == 0 then 0 else ShiftOut(mod, i - 1), Low5(ShiftOut(mod, i))) == ShiftOut(mod, i)
  {
    hide Append, Low5, ShiftOut, Shift5Out;
    ShiftByFives(mod, i);
    AppendBack(ShiftOut(mod, i));
  }

  lemma {:induction false} PackGroups(mod: bv64, i: nat)
    requires mod < LIMIT_40 && i < 8
    ensures Pack(Groups(mod)[..i + 1]) == ShiftOut(mod, i)
  {
    hide Append, Low5, ShiftOut;
    PackNext(Groups(mod), i);
    AppendGroup(mod, i);
    if i > 0 {
      PackGroups(mod, i - 1);
    }
  }

  lemma GroupsPack(mod: bv64)
    requires mod < LIMIT_40
    ensures |Groups(mod)| == 8 && Symbols(Groups(mod)) && Pack(Groups(mod)) == mod
  {
    hide Low5, Pack;
    forall i | 0 <= i < 8 ensures Groups(mod)[i] < 32 { Low5Bound(ShiftOut(mod, i)); }
    PackGroups(mod, 7);
    assert Groups(mod)[..8] == Groups(mod);
  }

  lemma PackNext(v: seq<Sym>, i: nat)
    requires i < |v|
    ensures Pack(v[..i + 1]) == Append(Pack(v[..i]), v[i])
  {
    hide Append;
    assert v[..i + 1][..i] == v[..i];
  }

  const EIGHT_ZEROS: seq<Sym> := [0, 0, 0, 0, 0, 0, 0, 0]

  function ChecksumOf(v: seq<Sym>): seq<Sym>
  {
    Groups(PolyModOf(v + EIGHT_ZEROS))
  }

  /** Appending the checksum makes the remainder vanish. */
  lemma ChecksumVerifies(v: seq<Sym>)
    requires Symbols(v)
    ensures |ChecksumOf(v)| == 8 && Symbols(ChecksumOf(v)) && PolyModOf(v + ChecksumOf(v)) == 0
  {
    hide Fold, Pack, Groups, Xor64, PolyStep;
    var z, c := EIGHT_ZEROS, Fold(1, v);
    var mod := PolyModOf(v + z);
    FoldBound(1, v + z);
    XorOneBound(Fold(1, v + z));
    GroupsPack(mod);
    var cs := ChecksumOf(v);
    FoldConcat(1, v, z);
    FoldConcat(1, v, cs);
    FoldLinear(c, z, 0, cs);
    XorZero(c);
    ZerosXor(cs);
    FoldFromZero(cs);
    Cancel(Fold(c, z));
  }

  lemma XorOneBound(x: bv64)
    requires x < LIMIT_40
    ensures Xor64(x, 1) < LIMIT_40
  {
  }

  lemma XorZero(c: bv64)
    ensures Xor64(c, 0) == c
  {
  }

  lemma Cancel(x: bv64)
    ensures Xor64(Xor64(x, Xor64(x, 1)), 1) == 0
  {
    calc {
      Xor64(Xor64(x, Xor64(x, 1)), 1);
      Xor64(Xor64(x, x ^ 1), 1);
      Xor64(x ^ (x ^ 1), 1);
      (x ^ (x ^ 1)) ^ 1;
      0;
    }
  }

  lemma ZerosXor(v: seq<Sym>)
    requires |v| == 8
    ensures Xor(EIGHT_ZEROS, v) == v
  {
    forall i | 0 <= i < 8 ensures Xor8(EIGHT_ZEROS[i], v[i]) == v[i] { Xor8Id(v[i]); }
  }

  lemma Xor8Id(d: Sym)
    ensures Xor8(0, d) == d
  {
  }

  /** Eight symbols verify after v exactly when they are its checksum. */
  lemma ChecksumUnique(v: seq<Sym>, tail: seq<Sym>)
    requires Symbols(v) && Symbols(tail) && |tail| == 8
    ensures PolyModOf(v + tail) == 0 <==> tail == ChecksumOf(v)
  {
    hide PolyModOf, ChecksumOf;
    ChecksumVerifies(v);
    var cs := ChecksumOf(v);
    if PolyModOf(v + tail) == 0 {
      BurstDetected(v + tail, v + cs, |v|);
      assert (v + tail)[|v|..] == tail && (v + cs)[|v|..] == cs;
    }
  }

  // ---- Strings ------------------------------------------------------------

  function LowBits(c: char): Sym
  {
    (c as int % 256) as bv8 & 0x1f
  }

  function ExpandPrefix(prefix: string): seq<Sym>
  {
    seq(|prefix| + 1, i requires 0 <= i <= |prefix| => if i < |prefix| then LowBits(prefix[i]) else 0)
  }

  lemma ExpandSymbols(prefix: string)
    ensures Symbols(ExpandPrefix(prefix))
  {
    forall i | 0 <= i <= |prefix| ensures ExpandPrefix(prefix)[i] < 32 {
      if i < |prefix| { LowBound((prefix[i] as int % 256) as bv8); }
    }
  }

  lemma LowBound(x: bv8)
    ensures x & 0x1f < 32
  {
  }

  predicate VerifyChecksum(prefix: string, payload: seq<Sym>)
  {
    PolyModOf(ExpandPrefix(prefix) + payload) == 0
  }

  method CreateChecksum(prefix: string, payload: seq<Sym>) returns (ret: seq<Sym>)
    ensures ret == ChecksumOf(ExpandPrefix(prefix) + payload)
  {
    hide Low5, ShiftOut, PolyModOf;
    var enc := ExpandPrefix(prefix) + payload;
    var mod := PolyMod(enc + EIGHT_ZEROS);
    ret := [];
    for i := 0 to 8
      invariant |ret| == i && forall j | 0 <= j < i :: ret[j] == Groups(mod)[j]
    {
      ret := ret + [Low5(ShiftOut(mod, i))];
    }
  }

  function Chars(v: seq<Sym>): string
  {
    seq(|v|, i requires 0 <= i < |v| => CharOf(v[i] % 32))
  }

  function EncodeOf(prefix: string, payload: seq<Sym>): string
  {
    prefix + ":" + Chars(payload + ChecksumOf(ExpandPrefix(prefix) + payload))
  }

  method Encode(prefix: string, payload: seq<Sym>) returns (str: string)
    ensures str == EncodeOf(prefix, payload)
  {
    hide CharOf, ChecksumOf;
    var checksum := CreateChecksum(prefix, payload);
    var combined := payload + checksum;
    str := prefix + ":";
    for i := 0 to |combined|
      invariant str == prefix + ":" + Chars(combined)[..i]
    {
      str := str + [CharOf(combined[i] % 32)];
    }
    assert Chars(combined)[..|combined|] == Chars(combined);
  }

  /** Nothing; the prefix and payload; or undefined behaviour, when the checksum verifies over fewer than
      eight symbols and the payload would end before it begins. */
  datatype Decoded = Rejected | Accepted(prefix: string, payload: seq<Sym>) | TooShort

  /** The string is made of letters and digits but for one separator at p, or none when p is 0; the
      prefix before it is not empty and has no digits. */
  ghost predicate WellFormed(str: string, p: nat)
  {
    && (forall i | 0 <= i < |str| :: IsAlnum(str[i]) || (p > 0 && i == p && str[i] == ':'))
    && (p > 0 ==> p < |str| && str[p] == ':' && forall i | 0 <= i < p :: !IsDigit(str[i]))
  }

  ghost predicate MixedCase(str: string)
  {
    (exists i :: 0 <= i < |str| && IsLower(str[i])) && (exists i :: 0 <= i < |str| && IsUpper(str[i]))
  }

  function Lowered(str: string): string
  {
    seq(|str|, i requires 0 <= i < |str| => LowerCase(str[i]))
  }

  ghost predicate AllSymbols(str: string)
  {
    forall i | 0 <= i < |str| :: SymOf(str[i]).Some?
  }

  ghost function SymbolsOf(str: string): seq<Sym>
    requires AllSymbols(str)
  {
    seq(|str|, i requires 0 <= i < |str| => SymOf(str[i]).value)
  }

  ghost function PrefixAt(str: string, p: nat, defaultPrefix: string): string
    requires p < |str| || p == 0
  {
    if p == 0 then defaultPrefix else Lowered(str[..p])
  }

  ghost function Tail(str: string, p: nat): string
    requires p < |str| || p == 0
  {
    if p == 0 then str else str[p + 1..]
  }

  /** Decoding once the separator is found. */
  ghost function DecodeAt(str: string, p: nat, defaultPrefix: string): Decoded
    requires p < |str| || p == 0
  {
    var prefix, tail := PrefixAt(str, p, defaultPrefix), Tail(str, p);
    if !AllSymbols(tail) then Rejected
    else if !VerifyChecksum(prefix, SymbolsOf(tail)) then Rejected
    else if |tail| < 8 then TooShort
    else Accepted(prefix, SymbolsOf(tail)[..|tail| - 8])
  }

  ghost predicate DecodesTo(str: string, defaultPrefix: string, r: Decoded)
  {
    && (forall p: nat | WellFormed(str, p) && !MixedCase(str) :: r == DecodeAt(str, p, defaultPrefix))
    && ((forall p: nat :: !WellFormed(str, p)) || MixedCase(str) ==> r == Rejected)
  }

  /** The scan over the characters: no separator is at 0, and the digits seen lie after any separator. */
  ghost predicate Scanned(str: string, i: nat, p: nat, hasNumber: bool)
    requires i <= |str|
  {
    && (forall j | 0 <= j < i :: IsAlnum(str[j]) || (p > 0 && j == p && str[j] == ':'))
    && (p > 0 ==> p < i && str[p] == ':' && forall j | 0 <= j < p :: !IsDigit(str[j]))
    && (hasNumber <==> exists j :: 0 <= j < i && IsDigit(str[j]))
  }

  method Scan(str: string) returns (ok: bool, p: nat)
    ensures ok <==> !MixedCase(str) && exists q: nat :: WellFormed(str, q)
    ensures ok ==> WellFormed(str, p)
  {
    var lower, upper, hasNumber := false, false, false;
    p := 0;
    for i := 0 to |str|
      invariant Scanned(str, i, p, hasNumber)
      invariant lower <==> exists j :: 0 <= j < i && IsLower(str[j])
      invariant upper <==> exists j :: 0 <= j < i && IsUpper(str[j])
    {
      var c := str[i];
      if IsLower(c) {
        lower := true;
      } else if IsUpper(c) {
        upper := true;
      } else if IsDigit(c) {
        hasNumber := true;
      } else if c == ':' && !(hasNumber || i == 0 || p != 0) {
        p := i;
      } else {
        return false, p;
      }
    }
    assert WellFormed(str, p);
    return !(upper && lower), p;
  }

  method ReadSymbols(tail: string) returns (r: Option<seq<Sym>>)
    ensures r.Some? <==> AllSymbols(tail)
    ensures r.Some? ==> |r.value| == |tail| && r.value == SymbolsOf(tail)
  {
    hide SymOf;
    var values: seq<Sym> := [];
    for i := 0 to |tail|
      invariant |values| == i && forall j | 0 <= j < i :: SymOf(tail[j]) == Some(values[j])
    {
      if SymOf(tail[i]).None? {
        return None;
      }
      values := values + [SymOf(tail[i]).value];
    }
    return Some(values);
  }

  method Decode(str: string, defaultPrefix: string) returns (r: Decoded)
    ensures DecodesTo(str, defaultPrefix, r)
  {
    hide SymOf, LowerCase, PolyModOf, IsAlnum, IsDigit, MixedCase, SymbolsOf, AllSymbols, ExpandPrefix;
    var ok, p := Scan(str);
    if !ok {
      return Rejected;
    }
    forall q: nat | WellFormed(str, q) ensures q == p { OneSeparator(str, p, q); }
    var prefix, start := defaultPrefix, p;
    if p > 0 {
      prefix := "";
      for i := 0 to p
        invariant prefix == Lowered(str[..p])[..i]
      {
        prefix := prefix + [LowerCase(str[i])];
      }
      assert Lowered(str[..p])[..p] == Lowered(str[..p]);
      start := p + 1;
    }
    assert p == 0 ==> str[start..] == str;
    var tail := str[start..];
    var values := ReadSymbols(tail);
    if values.None? {
      return Rejected;
    }
    var enc := ExpandPrefix(prefix);
    var mod := PolyMod(enc + values.value);
    if mod != 0 {
      return Rejected;
    }
    return if |tail| < 8 then TooShort else Accepted(prefix, values.value[..|tail| - 8]);
  }

  lemma OneSeparator(str: string, p: nat, q: nat)
    requires WellFormed(str, p) && WellFormed(str, q)
    ensures p == q
  {
    assert p > 0 ==> str[p] == ':';
    assert q > 0 ==> str[q] == ':';
  }

  lemma DecodesAt(str: string, p: nat, defaultPrefix: string, r: Decoded)
    requires WellFormed(str, p) && !MixedCase(str)
    ensures DecodesTo(str, defaultPrefix, r) <==> r == DecodeAt(str, p, defaultPrefix)
  {
    hide WellFormed, MixedCase, DecodeAt;
    forall q: nat | WellFormed(str, q) ensures q == p { OneSeparator(str, p, q); }
  }

  // ---- Round trips --------------------------------------------------------

  ghost predicate LowerWord(s: string)
  {
    s != "" && forall i | 0 <= i < |s| :: IsLower(s[i])
  }

  ghost predicate LowerOrDigit(s: string)
  {
    forall i | 0 <= i < |s| :: IsLower(s[i]) || IsDigit(s[i])
  }

  function Raised(str: string): string
  {
    seq(|str|, i requires 0 <= i < |str| => UpperCase(str[i]))
  }

  lemma Mod32(d: Sym)
    ensures d < 32 ==> d % 32 == d
    ensures d % 32 < 32
  {
  }

  lemma CharsAreSymbols(v: seq<Sym>)
    ensures LowerOrDigit(Chars(v)) && AllSymbols(Chars(v))
    ensures Symbols(v) ==> SymbolsOf(Chars(v)) == v
  {
    hide CharOf, SymOf, IsLower, IsDigit;
    forall i | 0 <= i < |v|
      ensures SymOf(Chars(v)[i]) == Some(v[i] % 32) && (IsLower(Chars(v)[i]) || IsDigit(Chars(v)[i]))
      ensures v[i] < 32 ==> v[i] % 32 == v[i]
    {
      Mod32(v[i]);
      CharIsSymbol(v[i] % 32);
    }
  }

  /** The characters after the separator of an encoding are its payload and a checksum that verifies. */
  lemma EncodedTail(prefix: string, payload: seq<Sym>)
    requires Symbols(payload)
    ensures var tail := Chars(payload + ChecksumOf(ExpandPrefix(prefix) + payload));
      && |tail| == |payload| + 8 && LowerOrDigit(tail) && AllSymbols(tail)
      && SymbolsOf(tail)[..|payload|] == payload && VerifyChecksum(prefix, SymbolsOf(tail))
  {
    hide CharOf, SymOf, LowerOrDigit, AllSymbols, PolyModOf, ChecksumOf, ExpandPrefix;
    ExpandSymbols(prefix);
    var v := ExpandPrefix(prefix) + payload;
    ChecksumVerifies(v);
    CharsAreSymbols(payload + ChecksumOf(v));
    assert ExpandPrefix(prefix) + (payload + ChecksumOf(v)) == v + ChecksumOf(v);
  }

  /** The checksummed payload alone decodes under the default prefix, whatever that prefix is. */
  lemma RoundTripDefault(prefix: string, payload: seq<Sym>, r: Decoded)
    requires Symbols(payload)
    ensures DecodesTo(EncodeOf(prefix, payload)[|prefix| + 1..], prefix, r) <==> r == Accepted(prefix, payload)
  {
    hide CharOf, SymOf, ChecksumOf, PolyModOf, ExpandPrefix;
    EncodedTail(prefix, payload);
    var tail := Chars(payload + ChecksumOf(ExpandPrefix(prefix) + payload));
    assert EncodeOf(prefix, payload)[|prefix| + 1..] == tail;
    DecodesAt(tail, 0, prefix, r);
  }

  lemma EncodedShape(prefix: string, payload: seq<Sym>)
    requires LowerWord(prefix)
    ensures WellFormed(EncodeOf(prefix, payload), |prefix|) && !MixedCase(EncodeOf(prefix, payload))
    ensures Lowered(prefix) == prefix
  {
    hide CharOf, SymOf, ChecksumOf, Chars, AllSymbols, ExpandPrefix;
    CharsAreSymbols(payload + ChecksumOf(ExpandPrefix(prefix) + payload));
  }

  /** Encoding then decoding gives back the prefix and payload exactly when the prefix is a non-empty
      word of lower-case letters and every payload value fits five bits. */
  lemma RoundTrip(prefix: string, payload: seq<Sym>, defaultPrefix: string)
    ensures DecodesTo(EncodeOf(prefix, payload), defaultPrefix, Accepted(prefix, payload))
      <==> LowerWord(prefix) && Symbols(payload)
  {
    hide CharOf, SymOf, ChecksumOf, PolyModOf, ExpandPrefix, WellFormed, MixedCase, LowerOrDigit, LowerCase;
    var str := EncodeOf(prefix, payload);
    if LowerWord(prefix) && Symbols(payload) {
      EncodedTail(prefix, payload);
      EncodedShape(prefix, payload);
      assert str[..|prefix|] == prefix;
      assert str[|prefix| + 1..] == Chars(payload + ChecksumOf(ExpandPrefix(prefix) + payload));
      DecodesAt(str, |prefix|, defaultPrefix, Accepted(prefix, payload));
    }
    if DecodesTo(str, defaultPrefix, Accepted(prefix, payload)) {
      var p := AcceptedAt(str, defaultPrefix, prefix, payload);
      PrefixIsWord(str, prefix, p);
    }
  }

  /** An accepted string has its separator somewhere and lower-cases to what it decodes to. */
  lemma AcceptedAt(str: string, defaultPrefix: string, prefix: string, payload: seq<Sym>) returns (p: nat)
    requires DecodesTo(str, defaultPrefix, Accepted(prefix, payload))
    ensures WellFormed(str, p) && !MixedCase(str) && Symbols(payload)
    ensures DecodeAt(str, p, defaultPrefix) == Accepted(prefix, payload)
  {
    hide SymOf, MixedCase, PolyModOf, ExpandPrefix;
    p :| WellFormed(str, p);
    var tail := Tail(str, p);
    forall i | 0 <= i < |payload| ensures payload[i] < 32 { SymbolIsChar(tail[i]); }
  }

  lemma PrefixIsWord(str: string, prefix: string, p: nat)
    requires WellFormed(str, p) && |prefix| < |str| && str[..|prefix|] == prefix && str[|prefix|] == ':'
    requires p > 0 ==> prefix == Lowered(str[..p])
    ensures LowerWord(prefix)
  {
    assert str[p] == ':' && p == |prefix|;
    forall i | 0 <= i < p ensures IsLower(prefix[i]) {
      assert prefix[i] == LowerCase(str[i]) == str[i];
    }
  }

  /** Whatever decodes is, lower-cased and with its prefix written out, the encoding of what it decodes to. */
  lemma Canonical(str: string, defaultPrefix: string, prefix: string, payload: seq<Sym>)
    requires DecodesTo(str, defaultPrefix, Accepted(prefix, payload))
    ensures EncodeOf(prefix, payload) == if ':' in str then Lowered(str) else defaultPrefix + ":" + Lowered(str)
  {
    hide SymOf, CharOf, MixedCase, PolyModOf, ChecksumOf, ExpandPrefix, LowerCase, DecodesTo;
    var p := AcceptedAt(str, defaultPrefix, prefix, payload);
    var tail := Tail(str, p);
    TailIsEncoding(prefix, tail);
    if p > 0 {
      SeparatorKept();
      assert str == str[..p] + ":" + tail;
      assert Lowered(str) == Lowered(str[..p]) + ":" + Lowered(tail);
    }
  }

  lemma SeparatorKept()
    ensures LowerCase(':') == ':'
  {
  }

  lemma TailIsEncoding(prefix: string, tail: string)
    requires AllSymbols(tail) && |tail| >= 8 && VerifyChecksum(prefix, SymbolsOf(tail))
    ensures EncodeOf(prefix, SymbolsOf(tail)[..|tail| - 8]) == prefix + ":" + Lowered(tail)
  {
    hide SymOf, CharOf, PolyModOf, ChecksumOf, ExpandPrefix, LowerCase;
    var v := SymbolsOf(tail);
    forall i | 0 <= i < |tail| ensures v[i] < 32 && CharOf(v[i] % 32) == LowerCase(tail[i]) {
      SymbolIsChar(tail[i]);
      Mod32(v[i]);
    }
    var body, cs := v[..|tail| - 8], v[|tail| - 8..];
    ExpandSymbols(prefix);
    ChecksumUnique(ExpandPrefix(prefix) + body, cs);
    assert ExpandPrefix(prefix) + body + cs == ExpandPrefix(prefix) + v;
    assert body + cs == v;
    assert Chars(v) == Lowered(tail);
  }

  // ---- Upper case ---------------------------------------------------------

  lemma RaisedSymbols(s: string)
    requires LowerOrDigit(s) && AllSymbols(s)
    ensures AllSymbols(Raised(s)) && SymbolsOf(Raised(s)) == SymbolsOf(s)
    ensures forall i | 0 <= i < |s| :: IsUpper(Raised(s)[i]) || IsDigit(Raised(s)[i])
  {
    hide SymOf, IsLower, IsDigit, IsUpper, UpperCase;
    forall i | 0 <= i < |s|
      ensures SymOf(Raised(s)[i]) == SymOf(s[i]) && (IsUpper(Raised(s)[i]) || IsDigit(Raised(s)[i]))
    {
      UpperIsSymbol(s[i]);
    }
  }

  lemma RaisedPrefix(s: string)
    requires LowerWord(s)
    ensures Lowered(Raised(s)) == s && forall i | 0 <= i < |s| :: IsUpper(Raised(s)[i])
  {
  }

  lemma RaisedSeparator()
    ensures UpperCase(':') == ':'
  {
  }

  lemma RaisedShape(prefix: string, tail: string)
    requires LowerWord(prefix) && LowerOrDigit(tail) && AllSymbols(tail)
    ensures var str := Raised(prefix) + ":" + Raised(tail); WellFormed(str, |prefix|) && !MixedCase(str)
  {
    hide SymOf, UpperCase, AllSymbols;
    RaisedPrefix(prefix);
    RaisedSymbols(tail);
  }

  /** The whole string in upper case decodes to the same prefix and payload. */
  lemma RoundTripUpper(prefix: string, payload: seq<Sym>, defaultPrefix: string, r: Decoded)
    requires LowerWord(prefix) && Symbols(payload)
    ensures DecodesTo(Raised(EncodeOf(prefix, payload)), defaultPrefix, r) <==> r == Accepted(prefix, payload)
  {
    hide CharOf, SymOf, ChecksumOf, PolyModOf, ExpandPrefix, WellFormed, MixedCase, LowerCase, UpperCase, Chars,
      Lowered,
      LowerOrDigit;
    EncodedTail(prefix, payload);
    var tail := Chars(payload + ChecksumOf(ExpandPrefix(prefix) + payload));
    var str := Raised(prefix) + ":" + Raised(tail);
    RaisedSeparator();
    assert Raised(EncodeOf(prefix, payload)) == str;
    RaisedPrefix(prefix);
    RaisedSymbols(tail);
    RaisedShape(prefix, tail);
    assert str[..|prefix|] == Raised(prefix) && str[|prefix| + 1..] == Raised(tail);
    DecodesAt(str, |prefix|, defaultPrefix, r);
  }
}
