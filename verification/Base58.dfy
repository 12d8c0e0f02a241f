/** Base58 text for byte strings (src/base58.cpp). */
module Base58 {
  import opened Basics
  import opened Powers
  import opened Radix

  /** The alphabet 1-9, A-Z without I and O, a-z without l, as a table of digits. */
  function CharOf(d: nat): (c: char)
    requires d < 58
    ensures !IsSpace(c) && c != '\0' && (c == '1' <==> d == 0)
  {
    var n := if d < 9 then 49 + d
             else if d < 17 then 65 + (d - 9)
             else if d < 22 then 74 + (d - 17)
             else if d < 33 then 80 + (d - 22)
             else if d < 44 then 97 + (d - 33)
             else 109 + (d - 44);
    n as char
  }

  /** The digit of a character, or -1 when it is not in the alphabet. */
  function DigitOf(c: char): int {
    var n := c as int;
    if 49 <= n <= 57 then n - 49
    else if 65 <= n <= 72 then n - 65 + 9
    else if 74 <= n <= 78 then n - 74 + 17
    else if 80 <= n <= 90 then n - 80 + 22
    else if 97 <= n <= 107 then n - 97 + 33
    else if 109 <= n <= 122 then n - 109 + 44
    else -1
  }

  predicate IsAlphanumeric(c: char) { '0' <= c <= '9' || 'A' <= c <= 'Z' || 'a' <= c <= 'z' }

  /** The digits are the alphanumeric characters without 0, I, O and l, in increasing order. */
  lemma AlphabetIs()
    ensures forall c :: DigitOf(c) >= 0 <==> IsAlphanumeric(c) && c !in {'0', 'I', 'O', 'l'}
    ensures forall d: nat :: d < 58 ==> DigitOf(CharOf(d)) == d
    ensures forall c, d :: DigitOf(c) >= 0 && DigitOf(d) >= 0 ==> (c < d <==> DigitOf(c) < DigitOf(d))
  {
  }

  predicate IsSpace(c: char) { c as int == 32 || 9 <= c as int <= 13 }

  /** Space, tab, line feed, vertical tab, form feed and carriage return. */
  lemma SpacesAre()
    ensures forall c :: IsSpace(c) <==> c in " \t\n\r" || c == 11 as char || c == 12 as char
  {
    assert ' ' as int == 32 && '\t' as int == 9 && '\n' as int == 10 && '\r' as int == 13;
  }

  predicate NotSpace(c: char) { !IsSpace(c) }
  predicate IsOne(c: char) { c == '1' }
  predicate IsZero(x: nat) { x == 0 }

  lemma TableRoundTrip(d: nat, c: char)
    requires d < 58
    ensures DigitOf(CharOf(d)) == d
    ensures DigitOf(c) >= 0 ==> DigitOf(c) < 58 && CharOf(DigitOf(c)) == c
  {
  }

  type Byte = x: nat | x < 256

  /** The length of the longest prefix whose elements satisfy p. */
  function Span<T>(s: seq<T>, p: T -> bool): (n: nat)
    ensures n <= |s| && (forall k :: 0 <= k < n ==> p(s[k])) && (n < |s| ==> !p(s[n]))
  {
    if s == [] || !p(s[0]) then 0 else 1 + Span(s[1..], p)
  }

  lemma SpanIs<T>(s: seq<T>, p: T -> bool, n: nat)
    requires n <= |s| && (forall k :: 0 <= k < n ==> p(s[k])) && (n < |s| ==> !p(s[n]))
    ensures Span(s, p) == n
  {
  }

  function Chars(s: seq<nat>): (t: string)
    requires forall k :: 0 <= k < |s| ==> s[k] < 58
    ensures |t| == |s| && forall k :: 0 <= k < |s| ==> t[k] == CharOf(s[k])
  {
    seq(|s|, k requires 0 <= k < |s| => CharOf(s[k]))
  }

  // --- What the text means ---

  /** One '1' for every leading zero byte, then the value of the rest in base 58. */
  function Encoded(v: seq<nat>): (t: string) {
    var z := Span(v, IsZero);
    Chars(Zeros(z) + Digits(58, Value(256, v[z..])))
  }

  predicate AllDigits(s: string) { forall k :: 0 <= k < |s| ==> DigitOf(s[k]) >= 0 }

  function DigitsOf(s: string): (t: seq<nat>)
    requires AllDigits(s)
    ensures |t| == |s| && forall k :: 0 <= k < |s| ==> t[k] == DigitOf(s[k]) < 58
  {
    seq(|s|, k requires 0 <= k < |s| => DigitOf(s[k]))
  }

  /** The text between leading and trailing spaces, if nothing else follows it. */
  function Word(s: string): Option<string> {
    var a := Span(s, IsSpace);
    var t := s[a..];
    var n := Span(t, NotSpace);
    if n + Span(t[n..], IsSpace) == |t| then Some(t[..n]) else None
  }

  /** A zero byte for every leading '1', then the value of the rest in base 256. */
  function WordDecoded(w: string): Option<seq<nat>> {
    if !AllDigits(w) then None
    else
      var z := Span(w, IsOne);
      Some(Zeros(z) + Digits(256, Value(58, DigitsOf(w)[z..])))
  }

  function Decoded(s: string): Option<seq<nat>> {
    match Word(s)
    case None => None
    case Some(w) => WordDecoded(w)
  }

  // --- Round trips ---

  lemma SpanZeros(z: nat, s: seq<nat>)
    requires s == [] || s[0] != 0
    ensures Span(Zeros(z) + s, IsZero) == z
  {
    var t := Zeros(z) + s;
    SpanIs(t, IsZero, z);
  }

  /** A sequence is its leading zeros and the digits of its value. */
  lemma Canonical(b: nat, v: seq<nat>)
    requires b >= 2 && AllBelow(b, v)
    ensures var z := Span(v, IsZero);
      v == Zeros(z) + Digits(b, Value(b, v[z..])) && Value(b, v[z..]) == Value(b, v)
  {
    hide Value, Digits, Span;
    var z := Span(v, IsZero);
    LeadingZeros(v, z);
    var rest := v[z..];
    DigitsOfValue(b, rest);
    ValueZeros(b, z, rest);
  }

  lemma LeadingZeros(v: seq<nat>, z: nat)
    requires z == Span(v, IsZero)
    ensures v == Zeros(z) + v[z..] && (v[z..] != [] ==> v[z..][0] != 0)
  {
    hide Span;
    forall k | 0 <= k < z ensures v[k] == 0 { assert IsZero(v[k]); }
  }

  /** The leading '1's of a text are the leading zeros of its digits. */
  lemma SpanOnes(s: seq<nat>)
    requires AllBelow(58, s)
    ensures Span(Chars(s), IsOne) == Span(s, IsZero)
  {
    var n := Span(s, IsZero);
    forall k | 0 <= k < n ensures Chars(s)[k] == '1' { assert s[k] == 0; }
    SpanIs(Chars(s), IsOne, n);
  }

  lemma CharsDigits(s: seq<nat>)
    requires AllBelow(58, s)
    ensures AllDigits(Chars(s)) && DigitsOf(Chars(s)) == s
  {
    forall k | 0 <= k < |s| ensures DigitOf(Chars(s)[k]) == s[k] { TableRoundTrip(s[k], 'a'); }
  }

  lemma DigitsChars(w: string)
    requires AllDigits(w)
    ensures Chars(DigitsOf(w)) == w
  {
    forall k | 0 <= k < |w| ensures CharOf(DigitOf(w[k])) == w[k] { TableRoundTrip(0, w[k]); }
  }

  lemma WordOfChars(s: seq<nat>)
    requires AllBelow(58, s)
    ensures Word(Chars(s)) == Some(Chars(s))
  {
    var t := Chars(s);
    forall k | 0 <= k < |t| ensures !IsSpace(t[k]) { assert t[k] == CharOf(s[k]); }
    SpanIs(t, IsSpace, 0);
    assert t[0..] == t;
    SpanIs(t, NotSpace, |t|);
    assert t[..|t|] == t;
  }

  /** Every byte string comes back from its text. */
  lemma DecodeEncode(v: seq<nat>)
    requires AllBelow(256, v)
    ensures Decoded(Encoded(v)) == Some(v)
  {
    hide Value, Digits, Span;
    var z := Span(v, IsZero);
    var d := Digits(58, Value(256, v[z..]));
    var s := Zeros(z) + d;
    WordOfChars(s);
    CharsDigits(s);
    SpanZeros(z, d);
    SpanOnes(s);
    assert s[z..] == d;
    ValueOfDigits(58, Value(256, v[z..]));
    Canonical(256, v);
  }

  /** A text that decodes is, but for surrounding spaces, the text of what it decodes to. */
  lemma EncodeDecode(s: string)
    requires Decoded(s).Some?
    ensures Word(s).Some? && AllBelow(256, Decoded(s).value) && Encoded(Decoded(s).value) == Word(s).value
  {
    hide Value, Digits, Span;
    var w := Word(s).value;
    var t := DigitsOf(w);
    DigitsChars(w);
    SpanOnes(t);
    var z := Span(w, IsOne);
    var x := Value(58, t[z..]);
    var d := Digits(256, x);
    SpanZeros(z, d);
    assert (Zeros(z) + d)[z..] == d;
    ValueOfDigits(256, x);
    Canonical(58, t);
  }

  // --- The buffers are large enough ---

  /** 256^n < 58^(n * 138 / 100 + 1): eight bytes fit eleven base58 digits. */
  lemma {:induction false} EncodeRoom(n: nat)
    ensures Pow(256, n) < Pow(58, n * 138 / 100 + 1)
  {
    if n < 8 {
      SmallEncodeRoom(n);
    } else {
      EncodeRoom(n - 8);
      EightBytes();
      var k := (n - 8) * 138 / 100 + 1;
      PowAdd(256, 8, n - 8);
      PowAdd(58, 11, k);
      PowMono(58, 11 + k, n * 138 / 100 + 1);
      PowPositive(256, n - 8); PowPositive(58, 11);
      MulMono(Pow(256, 8), Pow(58, 11), Pow(256, n - 8));
      MulStrict(Pow(256, n - 8), Pow(58, k), Pow(58, 11));
      assert Pow(58, k) * Pow(58, 11) == Pow(58, 11) * Pow(58, k);
      assert Pow(256, n - 8) * Pow(58, 11) == Pow(58, 11) * Pow(256, n - 8);
    }
  }

  lemma EightBytes()
    ensures Pow(256, 8) <= Pow(58, 11)
  {
    assert Pow(256, 4) == 0x1_0000_0000;
    PowAdd(256, 4, 4);
    assert Pow(58, 5) == 656356768 && Pow(58, 6) == 38068692544;
    PowAdd(58, 5, 6);
  }

  lemma SmallEncodeRoom(n: nat)
    requires n < 8
    ensures Pow(256, n) < Pow(58, n * 138 / 100 + 1)
  {
    assert Pow(256, 0) == 1 && Pow(256, 1) == 256 && Pow(256, 2) == 65536 && Pow(256, 3) == 16777216;
    assert Pow(256, 4) == 4294967296 && Pow(256, 5) == 1099511627776;
    assert Pow(256, 6) == 281474976710656 && Pow(256, 7) == 72057594037927936;
    assert Pow(58, 1) == 58 && Pow(58, 2) == 3364 && Pow(58, 3) == 195112;
    assert Pow(58, 5) == 656356768 && Pow(58, 6) == 38068692544 && Pow(58, 7) == 2207984167552;
    assert Pow(58, 9) == 7427658739644928 && Pow(58, 10) == 430804206899405824;
  }

  /** 58^n < 256^(n * 733 / 1000 + 1): 71 base58 digits fit 52 bytes. */
  lemma {:induction false} DecodeRoom(n: nat)
    ensures Pow(58, n) < Pow(256, n * 733 / 1000 + 1)
  {
    if n < 71 {
      SmallDecodeRoom(n);
    } else {
      DecodeRoom(n - 71);
      SeventyOneDigits();
      var k := (n - 71) * 733 / 1000 + 1;
      PowAdd(58, 71, n - 71);
      PowAdd(256, 52, k);
      PowMono(256, 52 + k, n * 733 / 1000 + 1);
      Combine(Pow(58, 71), Pow(58, n - 71), Pow(256, 52), Pow(256, k)) by {
        PowPositive(58, n - 71);
        PowPositive(256, 52);
      }
    }
  }

  lemma Combine(a: int, b: int, c: int, d: int)
    requires a <= c && 1 <= b < d && 1 <= c
    ensures a * b < c * d
  {
    MulMono(a, c, b);
    MulStrict(b, d, c);
    assert b * c == c * b && d * c == c * d;
  }

  lemma SeventyOneDigits()
    ensures Pow(58, 71) <= Pow(256, 52)
  {
    assert Pow(58, 7) == 2207984167552 && Pow(58, 8) == 128063081718016;
    PowAdd(58, 8, 8); PowAdd(58, 16, 16); PowAdd(58, 32, 32); PowAdd(58, 64, 7);
    assert Pow(58, 16) == 16400152899115243850138976256;
    assert Pow(58, 32) == 268965015114358137726910587140455987105619365599731777536;
    assert Pow(58, 64) ==
      72342179355466901471258927612150153907721848234316445933056526044582001260898145151856420451025374266490194231296;
    assert Pow(256, 4) == 4294967296;
    PowAdd(256, 4, 4); PowAdd(256, 8, 8); PowAdd(256, 16, 16); PowAdd(256, 32, 16); PowAdd(256, 48, 4);
    assert Pow(256, 8) == 18446744073709551616;
    assert Pow(256, 16) == 340282366920938463463374607431768211456;
    assert Pow(256, 32) == 115792089237316195423570985008687907853269984665640564039457584007913129639936;
    assert Pow(256, 48) ==
      0x1000000000000000000000000000000000000000000000000000000000000000000000000000000000000000000000000;
  }

  lemma FifteenDigits()
    ensures Pow(58, 15) < Pow(256, 11)
  {
    assert Pow(58, 7) == 2207984167552 && Pow(58, 8) == 128063081718016;
    PowAdd(58, 7, 8);
    assert Pow(256, 3) == 16777216 && Pow(256, 4) == 4294967296;
    PowAdd(256, 4, 4); PowAdd(256, 8, 3);
  }

  lemma {:induction false} FifteenTimes(a: nat)
    ensures Pow(58, 15 * a) <= Pow(256, 11 * a) && (a > 0 ==> Pow(58, 15 * a) < Pow(256, 11 * a))
  {
    if a > 0 {
      FifteenTimes(a - 1);
      FifteenDigits();
      PowAdd(58, 15 * (a - 1), 15);
      PowAdd(256, 11 * (a - 1), 11);
      Combine(Pow(58, 15 * (a - 1)), Pow(58, 15), Pow(256, 11 * (a - 1)), Pow(256, 11)) by {
        PowPositive(58, 15); PowPositive(256, 11 * (a - 1));
      }
    }
  }

  lemma TinyDecodeRoom(b: nat)
    requires b < 15
    ensures Pow(58, b) < Pow(256, b * 733 / 1000 + 1)
  {
    assert Pow(58, 0) == 1 && Pow(58, 1) == 58 && Pow(58, 2) == 3364 && Pow(58, 3) == 195112 && Pow(58, 4) == 11316496;
    assert Pow(58, 5) == 656356768 && Pow(58, 6) == 38068692544 && Pow(58, 7) == 2207984167552;
    PowAdd(58, 7, 1); PowAdd(58, 7, 2); PowAdd(58, 7, 3); PowAdd(58, 7, 4); PowAdd(58, 7, 5); PowAdd(58, 7, 6);
    PowAdd(58, 7, 7);
    assert Pow(256, 1) == 256 && Pow(256, 2) == 65536 && Pow(256, 3) == 16777216 && Pow(256, 4) == 4294967296;
    PowAdd(256, 4, 1); PowAdd(256, 4, 2); PowAdd(256, 4, 3); PowAdd(256, 4, 4); PowAdd(256, 8, 1); PowAdd(256, 8, 2);
    PowAdd(256, 8, 3);
  }

  lemma RoomSplit(n: nat, a: nat, b: nat)
    requires n == 15 * a + b && a <= 4 && b < 15
    ensures a > 0 ==> 11 * a <= n * 733 / 1000 + 1
    ensures b > 0 || a == 0 ==> 11 * a + b * 733 / 1000 <= n * 733 / 1000
  {
    var q, r := b * 733 / 1000, b * 733 % 1000;
    if b > 0 { assert r >= 63; }
    assert n * 733 == 1000 * (11 * a + q) + (r - 5 * a);
  }

  lemma SmallDecodeRoom(n: nat)
    requires n < 71
    ensures Pow(58, n) < Pow(256, n * 733 / 1000 + 1)
  {
    hide Pow;
    var a, b := n / 15, n % 15;
    FifteenTimes(a);
    RoomSplit(n, a, b);
    if b == 0 && a > 0 {
      PowMono(256, 11 * a, n * 733 / 1000 + 1);
    } else {
      TinyDecodeRoom(b);
      var k := b * 733 / 1000 + 1;
      PowAdd(58, 15 * a, b);
      PowAdd(256, 11 * a, k);
      PowMono(256, 11 * a + k, n * 733 / 1000 + 1);
      Combine(Pow(58, 15 * a), Pow(58, b), Pow(256, 11 * a), Pow(256, k)) by {
        PowPositive(58, b);
        PowPositive(256, 11 * a);
      }
    }
  }
}
