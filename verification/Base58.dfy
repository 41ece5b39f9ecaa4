// to_base58 and from_base58: radix conversion in a fixed buffer.
module Base58 {
  import opened Radix

  type Byte = x: nat | x < 256

  // Digits and letters without 0, I, O and l, by the runs that remain.
  const RUN_1 := "123456789"
  const RUN_A := "ABCDEFGH"
  const RUN_J := "JKLMN"
  const RUN_P := "PQRSTUVWXYZ"
  const RUN_LOWER_A := "abcdefghijk"
  const RUN_LOWER_M := "mnopqrstuvwxyz"

  const ALPHABET := RUN_1 + RUN_A + RUN_J + RUN_P + RUN_LOWER_A + RUN_LOWER_M

  function Symbol(d: nat): char
    requires d < 58
  {
    ALPHABET[d]
  }

  // The table mapBase58, row by row; -1 is no symbol.
  function MapBase58(c: char): int {
    var x := c as int;
    if x < 49 then -1
    else if x <= 57 then x - 49
    else if x < 65 then -1
    else if x <= 72 then x - 56
    else if x == 73 then -1
    else if x <= 78 then x - 57
    else if x == 79 then -1
    else if x <= 90 then x - 58
    else if x < 97 then -1
    else if x <= 107 then x - 64
    else if x == 108 then -1
    else if x <= 122 then x - 65
    else -1
  }

  lemma Run1(i: nat)
    requires i < 9
    ensures RUN_1[i] as int == 49 + i
  {
  }

  lemma RunA(i: nat)
    requires i < 8
    ensures RUN_A[i] as int == 65 + i
  {
  }

  lemma RunJ(i: nat)
    requires i < 5
    ensures RUN_J[i] as int == 74 + i
  {
  }

  lemma RunP(i: nat)
    requires i < 11
    ensures RUN_P[i] as int == 80 + i
  {
  }

  lemma RunLowerA(i: nat)
    requires i < 11
    ensures RUN_LOWER_A[i] as int == 97 + i
  {
  }

  lemma RunLowerM(i: nat)
    requires i < 14
    ensures RUN_LOWER_M[i] as int == 109 + i
  {
  }

  lemma InRuns(d: nat)
    requires d < 58
    ensures Symbol(d) ==
      if d < 9 then RUN_1[d] else if d < 17 then RUN_A[d - 9] else if d < 22 then RUN_J[d - 17]
      else if d < 33 then RUN_P[d - 22] else if d < 44 then RUN_LOWER_A[d - 33] else RUN_LOWER_M[d - 44]
  {
  }

  // The table inverts the alphabet.
  lemma SymbolValue(d: nat)
    requires d < 58
    ensures MapBase58(Symbol(d)) == d
  {
    hide Symbol;
    InRuns(d);
    if d < 9 {
      Run1(d);
    } else if d < 17 {
      RunA(d - 9);
    } else if d < 22 {
      RunJ(d - 17);
    } else if d < 33 {
      RunP(d - 22);
    } else if d < 44 {
      RunLowerA(d - 33);
    } else {
      RunLowerM(d - 44);
    }
  }

  lemma Injective(c: char, e: char)
    requires MapBase58(c) == MapBase58(e) >= 0
    ensures c == e
  {
  }

  // Only the alphabet's symbols have a value, and different ones.
  lemma ValueSymbol(c: char)
    ensures -1 <= MapBase58(c) < 58
    ensures MapBase58(c) >= 0 ==> Symbol(MapBase58(c)) == c
  {
    if MapBase58(c) >= 0 {
      SymbolValue(MapBase58(c));
      Injective(c, Symbol(MapBase58(c)));
    }
  }

  lemma SizeToBase58()
    ensures Pow(256, 8) <= Pow(58, 11)
  {
    assert Pow(256, 1) == 256;
    assert Pow(256, 2) == 65536;
    assert Pow(256, 3) == 16777216;
    assert Pow(256, 4) == 4294967296;
    assert Pow(256, 5) == 1099511627776;
    assert Pow(256, 6) == 281474976710656;
    assert Pow(256, 7) == 72057594037927936;
    assert Pow(256, 8) == 18446744073709551616;
    assert Pow(58, 1) == 58;
    assert Pow(58, 2) == 3364;
    assert Pow(58, 3) == 195112;
    assert Pow(58, 4) == 11316496;
    assert Pow(58, 5) == 656356768;
    assert Pow(58, 6) == 38068692544;
    assert Pow(58, 7) == 2207984167552;
    assert Pow(58, 8) == 128063081718016;
    assert Pow(58, 9) == 7427658739644928;
    assert Pow(58, 10) == 430804206899405824;
    assert Pow(58, 11) == 24986644000165537792;
  }

  // From a bound by a multiple of a power of two to one of the square.
  lemma SquareBound(x: nat, a: nat, m: nat, c: nat, k: nat)
    requires x <= a * Pow(2, m) && a * a <= c * Pow(2, k)
    ensures x * x <= c * Pow(2, k + m + m)
  {
    hide Pow;
    var p, q := Pow(2, m), Pow(2, k);
    PowAdd(2, k, m);
    PowAdd(2, k + m, m);
    MulMono(x, a * p, x);
    MulMono(x, a * p, a * p);
    MulMono(a * a, c * q, p * p);
    Squares(a, p, c, q);
  }

  lemma Squares(a: nat, p: nat, c: nat, q: nat)
    ensures (a * p) * (a * p) == (a * a) * (p * p) && (c * q) * (p * p) == c * (q * p * p)
  {
    assert (a * p) * (a * p) == a * (p * (a * p)) == a * (a * (p * p));
    assert q * p * p == q * (p * p);
  }

  lemma PowersOf58()
    ensures Pow(58, 7) == 2207984167552 && Pow(58, 8) == 128063081718016
  {
    assert Pow(58, 1) == 58;
    assert Pow(58, 2) == 3364;
    assert Pow(58, 3) == 195112;
    assert Pow(58, 4) == 11316496;
    assert Pow(58, 5) == 656356768;
    assert Pow(58, 6) == 38068692544;
    assert Pow(58, 7) == 2207984167552;
    assert Pow(58, 8) == 128063081718016;
  }

  lemma PowersOf2()
    ensures Pow(2, 0) == 1 && Pow(2, 16) == 65536 && Pow(2, 32) == 4294967296 && Pow(2, 64) == 18446744073709551616
  {
    assert Pow(2, 0) == 1;
    assert Pow(2, 4) == 16;
    PowAdd(2, 4, 4);
    assert Pow(2, 8) == 256;
    PowAdd(2, 8, 8);
    assert Pow(2, 16) == 65536;
    PowAdd(2, 16, 16);
    PowAdd(2, 32, 32);
  }

  lemma SizeFromBase58()
    ensures Pow(58, 71) <= Pow(256, 52)
  {
    hide Pow;
    PowersOf58();
    PowersOf2();
    PowAdd(58, 8, 8);
    PowAdd(58, 16, 16);
    PowAdd(58, 32, 32);
    PowAdd(58, 64, 7);
    SquareBound(Pow(58, 8), 29818, 32, 13567, 16);
    SquareBound(Pow(58, 16), 13567, 80, 2809, 16);
    SquareBound(Pow(58, 32), 2809, 176, 7890481, 0);
    MulMono(Pow(58, 64), 7890481 * Pow(2, 352), 2207984167552);
    PowAdd(2, 64, 352);
    PowOfByte();
  }

  lemma PowOfByte()
    ensures Pow(256, 52) == Pow(2, 416)
  {
    PowMul(2, 8, 52);
    assert Pow(2, 4) == 16;
    PowAdd(2, 4, 4);
  }

  // 138/100 and 733/1000 cells per digit, plus one, are enough for every
  // input length.
  lemma RoomToBase58(n: nat)
    ensures Pow(256, n) <= Pow(58, n * 138 / 100 + 1)
  {
    hide Pow;
    SizeToBase58();
    RatioBound(256, 58, 8, 11, n, n * 138 / 100 + 1);
  }

  lemma RoomFromBase58(n: nat)
    ensures Pow(58, n) <= Pow(256, n * 733 / 1000 + 1)
  {
    hide Pow;
    SizeFromBase58();
    RatioBound(58, 256, 71, 52, n, n * 733 / 1000 + 1);
  }

  // --- The inner loop ---

  // i cells from the end have been multiplied; carry is still to be added in
  // front of them.
  ghost predicate Multiplied(before: seq<nat>, now: seq<nat>, base: nat, factor: nat, digit: nat, i: nat, carry: nat) {
    && |now| == |before| && i <= |now|
    && IsNumeral(now, base)
    && now[..|now| - i] == before[..|now| - i]
    && Val(now[|now| - i..], base) + carry * Pow(base, i) == factor * Val(before[|now| - i..], base) + digit
  }

  lemma MultiplyStep(before: seq<nat>, now: seq<nat>, base: nat, factor: nat, digit: nat, i: nat, carry: nat)
    requires Multiplied(before, now, base, factor, digit, i, carry) && i < |now| && base >= 2
    ensures var k := |now| - 1 - i; var c := carry + factor * now[k];
      Multiplied(before, now[k := c % base], base, factor, digit, i + 1, c / base)
  {
    var k := |now| - 1 - i;
    var c := carry + factor * now[k];
    var now' := now[k := c % base];
    var p, o, v := Pow(base, i), Val(before[k + 1..], base), Val(now[k + 1..], base);
    assert now'[k..] == [c % base] + now[k + 1..] && before[k..] == [before[k]] + before[k + 1..];
    assert now[k] == before[k] by { assert now[..k + 1][k] == before[..k + 1][k]; }
    assert now'[..k] == now[..k + 1][..k] && before[..k] == before[..k + 1][..k];
    ValHead(c % base, now[k + 1..], base);
    ValHead(before[k], before[k + 1..], base);
    Carry(c, base, p, carry, factor, before[k], o, v, digit);
  }

  lemma Carry(c: nat, base: nat, p: nat, carry: nat, factor: nat, d: nat, o: nat, v: nat, digit: nat)
    requires base >= 2 && c == carry + factor * d && v + carry * p == factor * o + digit
    ensures c % base * p + v + c / base * (base * p) == factor * (d * p + o) + digit
  {
    var q, r := c / base, c % base;
    assert c == q * base + r;
    assert r * p + q * (base * p) == c * p by { assert (q * base + r) * p == q * (base * p) + r * p; }
    assert c * p == carry * p + factor * (d * p) by { assert (carry + factor * d) * p == carry * p + factor * (d * p); }
    assert factor * (d * p + o) == factor * (d * p) + factor * o;
  }

  // The cells in front of the last n are zero.
  predicate FitsIn(s: seq<nat>, n: nat) {
    n <= |s| && forall i | 0 <= i < |s| - n :: s[i] == 0
  }

  // "b = b * factor + digit", least significant cell first, going no further
  // than the carry and the cells in use. Returns the number of cells in use.
  method MultiplyAdd(b: array<nat>, base: nat, factor: nat, digit: nat, length: nat) returns (length': nat)
    requires base >= 2 && IsNumeral(b[..], base) && FitsIn(b[..], length)
    requires factor * Val(b[..], base) + digit < Pow(base, b.Length)
    modifies b
    ensures IsNumeral(b[..], base) && FitsIn(b[..], length')
    ensures Val(b[..], base) == factor * Val(old(b[..]), base) + digit
  {
    hide Multiplied, Val, Pow, IsNumeral, FitsIn;
    ghost var before := b[..];
    var carry: nat, i: nat := digit, 0;
    MultiplyNone(before, base, factor, digit);
    while (carry != 0 || i < length) && i != b.Length
      invariant i <= b.Length
      invariant Multiplied(before, b[..], base, factor, digit, i, carry)
      decreases b.Length - i
    {
      var k := b.Length - 1 - i;
      ghost var now := b[..];
      var sum: nat := carry + factor * b[k];
      MultiplyStep(before, now, base, factor, digit, i, carry);
      var cell: nat := sum % base;
      b[k] := cell;
      assert b[..] == now[k := cell];
      carry := sum / base;
      i := i + 1;
    }
    MultiplyEnd(before, b[..], base, factor, digit, i, carry, length);
    assert carry == 0;
    length' := i;
  }

  lemma MultiplyNone(s: seq<nat>, base: nat, factor: nat, digit: nat)
    requires IsNumeral(s, base)
    ensures Multiplied(s, s, base, factor, digit, 0, digit)
  {
    assert s[|s|..] == [];
    assert digit * Pow(base, 0) == digit;
  }

  lemma CarrySpent(v: nat, carry: nat, p: nat, total: nat)
    requires v + carry * p == total < p
    ensures carry == 0
  {
    if carry > 0 {
      MulMono(1, carry, p);
    }
  }

  lemma ValFitting(s: seq<nat>, n: nat, base: nat)
    requires FitsIn(s, n)
    ensures Val(s, base) == Val(s[|s| - n..], base)
  {
    hide Val, Pow;
    var k := |s| - n;
    assert s == s[..k] + s[k..];
    ValConcat(s[..k], s[k..], base);
    ValZeros(s[..k], base);
  }

  // The carry is spent when the loop ends, because the number has room.
  lemma MultiplyEnd(
    before: seq<nat>, now: seq<nat>, base: nat, factor: nat, digit: nat, i: nat, carry: nat, length: nat)
    requires base >= 2 && Multiplied(before, now, base, factor, digit, i, carry) && FitsIn(before, length)
    requires factor * Val(before, base) + digit < Pow(base, |before|)
    requires (carry == 0 && i >= length) || i == |now|
    ensures carry == 0 && IsNumeral(now, base) && FitsIn(now, i)
    ensures Val(now, base) == factor * Val(before, base) + digit
  {
    hide Val, Pow, FitsIn, Multiplied;
    if i == |now| {
      MultiplyEndFull(before, now, base, factor, digit, carry);
    } else {
      MultiplyEndPart(before, now, base, factor, digit, i, length);
    }
  }

  lemma MultiplyEndPart(
    before: seq<nat>, now: seq<nat>, base: nat, factor: nat, digit: nat, i: nat, length: nat)
    requires base >= 2 && Multiplied(before, now, base, factor, digit, i, 0) && FitsIn(before, length) && i >= length
    ensures IsNumeral(now, base) && FitsIn(now, i)
    ensures Val(now, base) == factor * Val(before, base) + digit
  {
    hide Val, Pow, FitsIn;
    FrontZero(before, now, i, length);
    ValFitting(now, i, base);
    ValFitting(before, i, base);
    assert 0 * Pow(base, i) == 0;
  }

  lemma FrontZero(before: seq<nat>, now: seq<nat>, i: nat, length: nat)
    requires length <= i <= |now| == |before| && now[..|now| - i] == before[..|now| - i] && FitsIn(before, length)
    ensures FitsIn(now, i) && FitsIn(before, i)
  {
    var k := |now| - i;
    forall j | 0 <= j < k ensures now[j] == 0 && before[j] == 0 {
      assert now[..k][j] == now[j] && before[..k][j] == before[j];
    }
  }

  lemma MultiplyEndFull(before: seq<nat>, now: seq<nat>, base: nat, factor: nat, digit: nat, carry: nat)
    requires base >= 2 && Multiplied(before, now, base, factor, digit, |now|, carry)
    requires factor * Val(before, base) + digit < Pow(base, |before|)
    ensures carry == 0 && IsNumeral(now, base) && FitsIn(now, |now|)
    ensures Val(now, base) == factor * Val(before, base) + digit
  {
    hide Val, Pow;
    assert now[0..] == now && before[0..] == before;
    CarrySpent(Val(now, base), carry, Pow(base, |now|), factor * Val(before, base) + digit);
    assert 0 * Pow(base, |now|) == 0;
  }

  function Symbols(s: seq<nat>): (r: string)
    requires IsNumeral(s, 58)
    ensures |r| == |s|
  {
    seq(|s|, i requires 0 <= i < |s| => Symbol(s[i]))
  }

  // What to_base58 is for: the same number in base 58, and one '1' for every
  // leading zero byte.
  function Encoded(raw: seq<Byte>): string {
    ConvertBack(raw, 256, 58);
    Symbols(Convert(raw, 256, 58))
  }

  lemma NextRoom(s: seq<nat>, p: nat, from: nat, to: nat, size: nat)
    requires IsNumeral(s, from) && p < |s| && from >= 1 && Pow(from, |s|) <= Pow(to, size)
    ensures Val(s[..p + 1], from) == from * Val(s[..p], from) + s[p] < Pow(to, size)
  {
    assert s[..p + 1][..p] == s[..p];
    ValBound(s[..p + 1], from);
    PowMonoExp(from, p + 1, |s|);
  }

  // The used cells without their leading zeros are the canonical numeral.
  lemma Stripped(cells: seq<nat>, it: nat, base: nat)
    requires base >= 2 && IsNumeral(cells, base) && it <= |cells|
    requires forall i | 0 <= i < it :: cells[i] == 0
    requires it < |cells| ==> cells[it] != 0
    ensures cells[it..] == Canonical(Val(cells, base), base)
  {
    ValFitting(cells, |cells| - it, base);
    CanonicalUnique(cells[it..], base);
  }

  lemma AllZero(s: seq<nat>, base: nat)
    requires forall i | 0 <= i < |s| :: s[i] == 0
    ensures Val(s, base) == 0 && IsNumeral(s, base) == (s == [] || base > 0)
  {
    ValZeros(s, base);
  }

  lemma CountedZeros(s: seq<nat>, z: nat)
    requires z <= |s| && (forall i | 0 <= i < z :: s[i] == 0) && (z < |s| ==> s[z] != 0)
    ensures LeadingZeros(s) == z
  {
    assert s == Zeros(z) + s[z..];
    LeadingZerosOf(z, s[z..]);
  }

  // The first cell of the number without its leading zeros.
  method SkipZeros(b: array<nat>, base: nat, length: nat) returns (it: nat)
    requires base >= 2 && IsNumeral(b[..], base) && FitsIn(b[..], length)
    ensures it <= b.Length && b[it..] == Canonical(Val(b[..], base), base)
  {
    hide Val, Canonical;
    it := b.Length - length;
    while it != b.Length && b[it] == 0
      invariant b.Length - length <= it <= b.Length && forall i | 0 <= i < it :: b[i] == 0
      decreases b.Length - it
    {
      it := it + 1;
    }
    Stripped(b[..], it, base);
    assert b[..][it..] == b[it..];
  }

  method ToBase58(raw: seq<Byte>) returns (str: string)
    ensures str == Encoded(raw)
  {
    hide Val, Pow, Canonical, FitsIn, Encoded;
    var sz := |raw|;
    var p, zeroes, length := 0, 0, 0;
    while p != sz && raw[p] == 0
      invariant p == zeroes <= sz && forall i | 0 <= i < p :: raw[i] == 0
      decreases sz - p
    {
      zeroes := zeroes + 1;
      p := p + 1;
    }
    CountedZeros(raw, zeroes);
    var size := sz * 138 / 100 + 1;
    var b58 := new nat[size](_ => 0);
    AllZero(b58[..], 58);
    AllZero(raw[..p], 256);
    RoomToBase58(sz);
    Unused(b58[..]);
    while p != sz
      invariant zeroes <= p <= sz
      invariant IsNumeral(b58[..], 58) && FitsIn(b58[..], length)
      invariant Val(b58[..], 58) == Val(raw[..p], 256)
      decreases sz - p
    {
      NextRoom(raw, p, 256, 58, size);
      length := MultiplyAdd(b58, 58, 256, raw[p], length);
      p := p + 1;
    }
    var it := SkipZeros(b58, 58, length);
    ghost var digits := b58[it..];
    assert raw[..sz] == raw;
    str := seq(zeroes, _ => '1');
    ghost var first := it;
    while it != size
      invariant first <= it <= size
      invariant |str| == zeroes + (it - first)
      invariant forall i | 0 <= i < zeroes :: str[i] == '1'
      invariant forall i | 0 <= i < it - first :: str[zeroes + i] == Symbol(digits[i])
      decreases size - it
    {
      str := str + [Symbol(b58[it])];
      it := it + 1;
    }
    Assembled(raw, zeroes, digits, str);
  }

  lemma Unused(s: seq<nat>)
    requires forall i | 0 <= i < |s| :: s[i] == 0
    ensures FitsIn(s, 0)
  {
  }

  lemma Assembled(raw: seq<Byte>, zeroes: nat, digits: seq<nat>, str: string)
    requires LeadingZeros(raw) == zeroes && digits == Canonical(Val(raw, 256), 58)
    requires |str| == zeroes + |digits| && IsNumeral(digits, 58)
    requires forall i | 0 <= i < zeroes :: str[i] == '1'
    requires forall i | 0 <= i < |digits| :: str[zeroes + i] == Symbol(digits[i])
    ensures str == Encoded(raw)
  {
    hide Canonical, Val;
    ConvertBack(raw, 256, 58);
    assert Symbol(0) == '1';
    var c := Convert(raw, 256, 58);
    assert c == Zeros(zeroes) + digits;
  }

  // --- Decoding ---

  // isspace in the C locale.
  predicate IsSpace(c: char) {
    c == ' ' || 9 <= c as int <= 13
  }

  predicate IsSymbol(c: char) {
    MapBase58(c) != -1
  }

  // A C string ends at its first NUL.
  function CString(s: string): string {
    if s == [] || s[0] == '\0' then [] else [s[0]] + CString(s[1..])
  }

  function SkipSpaces(s: string): string {
    if s != [] && IsSpace(s[0]) then SkipSpaces(s[1..]) else s
  }

  // The symbols up to the first space.
  function Word(s: string): (w: string)
    ensures |w| <= |s| && w == s[..|w|]
    ensures |w| < |s| ==> IsSpace(s[|w|])
    ensures forall c | c in w :: !IsSpace(c)
  {
    if s == [] || IsSpace(s[0]) then [] else [s[0]] + Word(s[1..])
  }

  function SymbolNumber(c: char): (d: nat)
    requires IsSymbol(c)
    ensures d < 58
  {
    ValueSymbol(c);
    MapBase58(c)
  }

  function Values(s: string): (r: seq<nat>)
    requires forall c | c in s :: IsSymbol(c)
    ensures |r| == |s| && IsNumeral(r, 58)
  {
    seq(|s|, i requires 0 <= i < |s| => SymbolNumber(s[i]))
  }

  function WordDecoded(w: string): seq<nat>
    requires forall c | c in w :: IsSymbol(c)
  {
    Convert(Values(w), 58, 256)
  }

  // What from_base58 is for: one word of symbols between spaces, as a number
  // in base 256 with one zero byte for every leading '1'. Anything else gives
  // no bytes.
  function Decoded(s: string): seq<nat> {
    var t := SkipSpaces(CString(s));
    var w := Word(t);
    if (forall c | c in w :: IsSymbol(c)) && SkipSpaces(t[|w|..]) == [] then WordDecoded(w) else []
  }

  lemma SkipFrom(s: string, i: nat)
    requires i < |s| && IsSpace(s[i])
    ensures SkipSpaces(s[i..]) == SkipSpaces(s[i + 1..])
  {
    assert s[i..][1..] == s[i + 1..];
  }

  lemma SkipEnds(t: string, p: nat)
    requires p <= |t| && (p == |t| || !IsSpace(t[p]))
    ensures SkipSpaces(t[p..]) == t[p..]
    ensures SkipSpaces(t[p..]) == [] <==> p == |t|
  {
  }

  lemma InWord(u: string, q: nat)
    requires q < |u| && q <= |Word(u)| && !IsSpace(u[q])
    ensures q < |Word(u)| && Word(u)[q] == u[q]
  {
  }

  lemma OneInWord(u: string, q: nat)
    requires q < |u| && q <= |Word(u)| && u[q] == '1'
    ensures q < |Word(u)|
  {
    InWord(u, q);
  }

  lemma WordEnds(u: string, q: nat)
    requires q <= |Word(u)| && (q == |u| || IsSpace(u[q]))
    ensures q == |Word(u)|
  {
  }

  lemma NothingRead(u: string, zeroes: nat)
    requires zeroes <= |Word(u)| && forall i | 0 <= i < zeroes :: u[i] == '1'
    ensures forall c | c in Word(u)[..zeroes] :: IsSymbol(c)
    ensures Val(Values(Word(u)[zeroes..zeroes]), 58) == 0
  {
    forall c | c in Word(u)[..zeroes] ensures c == '1' {
      var i: nat :| i < zeroes && Word(u)[..zeroes][i] == c;
      assert u[i] == Word(u)[i];
    }
  }

  lemma BadSymbol(s: string, u: string, q: nat)
    requires u == SkipSpaces(CString(s)) && q < |Word(u)| && MapBase58(Word(u)[q]) == -1
    ensures Decoded(s) == []
  {
    assert Word(u)[q] in Word(u);
  }

  lemma ReadSymbol(u: string, zeroes: nat, q: nat, size: nat)
    requires zeroes <= q < |Word(u)| && MapBase58(Word(u)[q]) != -1
    requires forall c | c in Word(u)[..q] :: IsSymbol(c)
    requires Pow(58, |u| - zeroes) <= Pow(256, size)
    ensures 0 <= MapBase58(Word(u)[q]) < 58
    ensures forall c | c in Word(u)[..q + 1] :: IsSymbol(c)
    ensures forall c | c in Word(u)[zeroes..q + 1] :: IsSymbol(c)
    ensures forall c | c in Word(u)[zeroes..q] :: IsSymbol(c)
    ensures Val(Values(Word(u)[zeroes..q + 1]), 58) ==
      58 * Val(Values(Word(u)[zeroes..q]), 58) + MapBase58(Word(u)[q]) < Pow(256, size)
  {
    hide Val, Pow, Word;
    var w := Word(u);
    ValueSymbol(w[q]);
    assert w[..q + 1] == w[..q] + [w[q]];
    PartOf(w, zeroes, q + 1);
    PartOf(w, zeroes, q);
    var v := Values(w[zeroes..q + 1]);
    assert v[..q - zeroes] == Values(w[zeroes..q]);
    assert v[..|v|] == v;
    ValPush(v);
    ValBound(v, 58);
    PowMonoExp(58, |v|, |u| - zeroes);
  }

  lemma ValPush(v: seq<nat>)
    requires v != []
    ensures Val(v, 58) == 58 * Val(v[..|v| - 1], 58) + v[|v| - 1]
  {
  }

  lemma PartOf(w: string, a: nat, b: nat)
    requires a <= b <= |w| && forall c | c in w[..b] :: IsSymbol(c)
    ensures forall c | c in w[a..b] :: IsSymbol(c)
  {
    assert w[..b] == w[..a] + w[a..b];
  }

  lemma NothingAfter(s: string, u: string, q: nat)
    requires u == SkipSpaces(CString(s)) && q <= |u|
    requires forall c | c in Word(u) :: IsSymbol(c)
    requires SkipSpaces(u[|Word(u)|..]) == u[q..]
    ensures Decoded(s) == if q == |u| then WordDecoded(Word(u)) else []
  {
  }

  lemma WordAssembled(w: string, zeroes: nat, digits: seq<nat>)
    requires forall c | c in w :: IsSymbol(c)
    requires zeroes <= |w| && (forall i | 0 <= i < zeroes :: w[i] == '1') && (zeroes < |w| ==> w[zeroes] != '1')
    requires digits == Canonical(Val(Values(w[zeroes..]), 58), 256)
    ensures WordDecoded(w) == Zeros(zeroes) + digits
  {
    hide Canonical, Val;
    var v := Values(w);
    assert v == Zeros(zeroes) + Values(w[zeroes..]);
    if zeroes < |w| {
      ValueSymbol(w[zeroes]);
      assert v[zeroes] != 0;
    }
    CountedZeros(v, zeroes);
    ValBehindZeros(zeroes, Values(w[zeroes..]), 58);
  }

  method FromBase58(s: string) returns (vch: seq<nat>)
    ensures vch == Decoded(s)
  {
    hide Val, Pow, Canonical, FitsIn, IsNumeral, SkipSpaces, Word, CString, Values, IsSymbol, IsSpace, WordDecoded,
      Decoded;
    var t := CString(s);
    var p := 0;
    assert t[0..] == t;
    while p != |t| && IsSpace(t[p])
      invariant p <= |t| && SkipSpaces(t[p..]) == SkipSpaces(t)
      decreases |t| - p
    {
      SkipFrom(t, p);
      p := p + 1;
    }
    SkipEnds(t, p);
    var u := t[p..];
    ghost var w := Word(u);
    var q, zeroes, length := 0, 0, 0;
    while q != |u| && u[q] == '1'
      invariant q == zeroes <= |w| && forall i | 0 <= i < q :: u[i] == '1'
      decreases |u| - q
    {
      OneInWord(u, q);
      zeroes := zeroes + 1;
      q := q + 1;
    }
    var size := (|u| - q) * 733 / 1000 + 1;
    var b256 := new nat[size](_ => 0);
    AllZero(b256[..], 256);
    Unused(b256[..]);
    RoomFromBase58(|u| - q);
    NothingRead(u, zeroes);
    while q != |u| && !IsSpace(u[q])
      invariant zeroes <= q <= |w|
      invariant IsNumeral(b256[..], 256) && FitsIn(b256[..], length)
      invariant forall c | c in w[..q] :: IsSymbol(c)
      invariant Val(b256[..], 256) == Val(Values(w[zeroes..q]), 58)
      decreases |u| - q
    {
      InWord(u, q);
      var carry := MapBase58(u[q]);
      if carry == -1 {
        BadSymbol(s, u, q);
        return [];
      }
      ReadSymbol(u, zeroes, q, size);
      length := MultiplyAdd(b256, 256, 58, carry, length);
      q := q + 1;
    }
    WordEnds(u, q);
    assert w[..q] == w;
    ghost var end, cells := q, b256[..];
    while q != |u| && IsSpace(u[q])
      invariant end <= q <= |u| && SkipSpaces(u[q..]) == SkipSpaces(u[end..])
      invariant b256[..] == cells
      decreases |u| - q
    {
      SkipFrom(u, q);
      q := q + 1;
    }
    SkipEnds(u, q);
    NothingAfter(s, u, q);
    if q != |u| {
      return [];
    }
    var it := SkipZeros(b256, 256, length);
    WordAssembled(w, zeroes, b256[it..]);
    vch := seq(zeroes, _ => 0);
    ghost var first := it;
    while it != size
      invariant first <= it <= size && vch == Zeros(zeroes) + b256[first..it]
      decreases size - it
    {
      vch := vch + [b256[it]];
      it := it + 1;
    }
    assert b256[first..size] == b256[first..];
  }

  // --- What encoding and decoding mean to each other ---

  predicate InAlphabet(s: string) {
    forall c | c in s :: IsSymbol(c)
  }

  lemma {:induction false} NothingToTrim(s: string)
    requires InAlphabet(s)
    ensures CString(s) == s && SkipSpaces(s) == s && Word(s) == s
  {
    if s != [] {
      assert s == [s[0]] + s[1..] && s[0] in s;
      NothingToTrim(s[1..]);
    }
  }

  lemma DecodedSymbols(s: string)
    requires InAlphabet(s)
    ensures Decoded(s) == Convert(Values(s), 58, 256)
  {
    hide CString, SkipSpaces, Word, IsSymbol, Convert;
    NothingToTrim(s);
    assert s[|s|..] == [];
    NothingToTrim([]);
  }

  // Whatever the input, decoding gives bytes.
  lemma DecodedIsBytes(s: string)
    ensures IsNumeral(Decoded(s), 256)
  {
    hide CString, SkipSpaces, Word, IsSymbol, Convert;
    var w := Word(SkipSpaces(CString(s)));
    if forall c | c in w :: IsSymbol(c) {
      ConvertBack(Values(w), 58, 256);
    }
  }

  lemma ValuesOfSymbols(d: seq<nat>)
    requires IsNumeral(d, 58)
    ensures InAlphabet(Symbols(d)) && Values(Symbols(d)) == d
  {
    forall i | 0 <= i < |d| ensures MapBase58(Symbol(d[i])) == d[i] {
      SymbolValue(d[i]);
    }
  }

  lemma SymbolsOfValues(s: string)
    requires InAlphabet(s)
    ensures Symbols(Values(s)) == s
  {
    forall i | 0 <= i < |s| ensures Symbol(SymbolNumber(s[i])) == s[i] {
      ValueSymbol(s[i]);
    }
  }

  lemma DecodeEncoded(raw: seq<Byte>)
    ensures Decoded(Encoded(raw)) == raw
    ensures InAlphabet(Encoded(raw))
  {
    hide InAlphabet, Decoded, Convert;
    ConvertBack(raw, 256, 58);
    var d := Convert(raw, 256, 58);
    ValuesOfSymbols(d);
    DecodedSymbols(Symbols(d));
  }

  lemma EncodeDecoded(s: string)
    requires InAlphabet(s)
    ensures IsNumeral(Decoded(s), 256) && Encoded(Decoded(s)) == s
  {
    hide Decoded, Convert;
    DecodedSymbols(s);
    var v := Values(s);
    ConvertBack(v, 58, 256);
    SymbolsOfValues(s);
  }

  // A worked example: the bytes 0, 1, 0 are one zero byte and 256, which is
  // 4 * 58 + 24.
  lemma EncodedExample()
    ensures Encoded([0, 1, 0]) == "15R" && Decoded("15R") == [0, 1, 0]
  {
    hide Val, Canonical, LeadingZeros, Decoded, Symbol;
    var raw: seq<Byte> := [0, 1, 0];
    ExampleNumber();
    ExampleDigits();
    ConvertBack(raw, 256, 58);
    assert Convert(raw, 256, 58) == [0, 4, 24];
    InRuns(0);
    InRuns(4);
    InRuns(24);
    DecodeEncoded(raw);
  }

  lemma ExampleNumber()
    ensures Val([0, 1, 0], 256) == 256 && LeadingZeros([0, 1, 0]) == 1
  {
    hide Val;
    LeadingZerosOf(1, [1, 0]);
    assert Zeros(1) + [1, 0] == [0, 1, 0];
    ValConcat([0, 1], [0], 256);
    ValConcat([0], [1], 256);
    assert [0, 1] + [0] == [0, 1, 0] && [0] + [1] == [0, 1];
    OneDigit(0);
    OneDigit(1);
  }

  lemma OneDigit(d: nat)
    ensures Val([d], 256) == d && Pow(256, 1) == 256
  {
    assert [d][..0] == [];
  }

  lemma ExampleDigits()
    ensures Canonical(256, 58) == [4, 24]
  {
    assert Canonical(0, 58) == [];
    assert Canonical(4, 58) == [4];
  }

  // Leading spaces make no difference.
  lemma {:induction false} LeadingSpaces(before: string, s: string)
    requires forall c | c in before :: IsSpace(c)
    ensures Decoded(before + s) == Decoded(s)
  {
    if before == [] {
      assert before + s == s;
    } else {
      var rest := before[1..] + s;
      assert before + s == [before[0]] + rest;
      assert before[0] in before;
      assert CString(before + s) == [before[0]] + CString(rest);
      assert SkipSpaces(CString(before + s)) == SkipSpaces(CString(rest));
      LeadingSpaces(before[1..], s);
    }
  }

  // --- White space around the word ---

  predicate IsBlank(s: string) {
    forall c | c in s :: IsSpace(c)
  }

  // Up to the first NUL, s is w with white space around it.
  ghost predicate Frames(s: string, w: string) {
    exists before, after :: IsBlank(before) && IsBlank(after) && CString(s) == before + w + after
  }

  function TheWord(s: string): string {
    Word(SkipSpaces(CString(s)))
  }

  // What from_base58 accepts.
  predicate IsBase58(s: string) {
    InAlphabet(TheWord(s)) && SkipSpaces(SkipSpaces(CString(s))[|TheWord(s)|..]) == []
  }

  lemma {:induction false} BlankSkipped(before: string, s: string)
    requires IsBlank(before)
    ensures SkipSpaces(before + s) == SkipSpaces(s)
  {
    if before == [] {
      assert before + s == s;
    } else {
      assert before[0] in before;
      assert (before + s)[1..] == before[1..] + s;
      BlankSkipped(before[1..], s);
    }
  }

  lemma {:induction false} SkippedIsBlank(s: string) returns (before: string)
    ensures IsBlank(before) && s == before + SkipSpaces(s)
  {
    before := "";
    if s != [] && IsSpace(s[0]) {
      var rest := SkippedIsBlank(s[1..]);
      before := [s[0]] + rest;
    }
  }

  lemma {:induction false} WordOf(w: string, after: string)
    requires InAlphabet(w) && IsBlank(after)
    ensures Word(w + after) == w
  {
    if w == [] {
      assert w + after == after;
      assert after != [] ==> after[0] in after;
    } else {
      assert w[0] in w;
      assert (w + after)[1..] == w[1..] + after;
      WordOf(w[1..], after);
    }
  }

  lemma NotSkipped(w: string, after: string)
    requires InAlphabet(w) && w != []
    ensures SkipSpaces(w + after) == w + after
  {
    assert w[0] in w;
  }

  lemma FramedWord(s: string, w: string)
    requires InAlphabet(w) && Frames(s, w)
    ensures IsBase58(s) && TheWord(s) == w
  {
    hide CString, SkipSpaces, Word, InAlphabet, IsBlank;
    var before, after :| IsBlank(before) && IsBlank(after) && CString(s) == before + w + after;
    assert before + w + after == before + (w + after);
    BlankSkipped(before, w + after);
    BlankSkipped(after, "");
    assert after + "" == after && "" + after == after;
    NothingToTrim("");
    WordOf(w, after);
    if w == [] {
      assert w + after == after;
      WordOf(w, "");
      assert w + "" == "";
    } else {
      NotSkipped(w, after);
      assert (w + after)[|w|..] == after;
    }
  }

  lemma WordFramed(s: string)
    requires IsBase58(s)
    ensures Frames(s, TheWord(s))
  {
    hide CString, SkipSpaces, InAlphabet, IsBlank;
    var t, w := SkipSpaces(CString(s)), TheWord(s);
    var before := SkippedIsBlank(CString(s));
    var after := SkippedIsBlank(t[|w|..]);
    assert after + [] == after;
    assert before + t == before + w + after;
  }

  // A text is base 58 exactly if it is one word over the alphabet with white
  // space around it; that word is then what is decoded.
  lemma DecodedFramed(s: string)
    ensures IsBase58(s) <==> exists w :: InAlphabet(w) && Frames(s, w)
    ensures forall w | InAlphabet(w) && Frames(s, w) :: Decoded(s) == Decoded(w)
    ensures !IsBase58(s) ==> Decoded(s) == []
  {
    hide CString, SkipSpaces, Word, Frames, WordDecoded;
    if IsBase58(s) {
      WordFramed(s);
    }
    forall w | InAlphabet(w) && Frames(s, w) ensures IsBase58(s) && Decoded(s) == Decoded(w) {
      FramedWord(s, w);
      DecodedSymbols(w);
      DecodedTheWord(s);
    }
  }

  lemma DecodedTheWord(s: string)
    requires IsBase58(s)
    ensures Decoded(s) == Convert(Values(TheWord(s)), 58, 256)
  {
  }
}
