/** The compact format: a 32-bit word with an 8-bit exponent of base 256, a sign bit and a 23-bit
    mantissa (arith_uint256 in src/arith_uint256.cpp). */
module Compact {
  import opened Powers
  import opened Limbs
  import opened Arith
  import opened ArithShift

  function Size(c: Limb): nat { c / 0x100_0000 }
  function Mantissa(c: Limb): nat { c % 0x80_0000 }
  predicate Signed(c: Limb) { c / 0x80_0000 % 2 == 1 }

  function Pow256(k: nat): (r: int)
    ensures r == Pow(256, k) && r >= 1
  {
    PowPositive(256, k);
    Pow(256, k)
  }

  /** The magnitude a compact word denotes, without any bound: mantissa * 256^(size - 3). */
  function Decoded(c: Limb): int {
    if Size(c) <= 3 then Mantissa(c) / Pow256(3 - Size(c)) else Mantissa(c) * Pow256(Size(c) - 3)
  }

  /** What the tests decode: the size is in the top byte, the sign in the bit below it. */
  lemma DecodedTable()
    ensures Decoded(0x00123456) == 0 && Decoded(0x01003456) == 0 && Decoded(0x02000056) == 0
    ensures Decoded(0x01123456) == 0x12 && Decoded(0x02123456) == 0x1234 && Decoded(0x03123456) == 0x123456
    ensures Decoded(0x04123456) == 0x12345600 && Decoded(0x05009234) == 0x92340000
    ensures Signed(0x04923456) && Decoded(0x04923456) == 0x12345600 && !Signed(0x04123456)
    ensures Signed(0x01fedcba) && Decoded(0x01fedcba) == 0x7e
  {
    assert Pow(256, 1) == 256 && Pow(256, 2) == 65536 && Pow(256, 3) == 0x100_0000;
  }

  lemma {:induction false} BytePow(k: nat)
    ensures Pow256(k) == Pow(2, 8 * k)
  {
    if k > 0 {
      BytePow(k - 1);
      PowAdd(2, 8, 8 * (k - 1));
      assert Pow(2, 8) == 256;
    }
  }

  lemma WidthBytes()
    ensures Modulus(8) == Pow256(32)
  {
    BasePow(8);
    BytePow(32);
  }

  /** The code's range test is exact: which words denote a number of more than 256 bits. */
  lemma OverflowIff(c: Limb)
    ensures var w, n := Mantissa(c), Size(c);
      Decoded(c) >= Modulus(8) <==> w != 0 && (n > 34 || (w > 0xff && n > 33) || (w > 0xffff && n > 32))
  {
    var w, n := Mantissa(c), Size(c);
    WidthBytes();
    if n <= 3 {
      DivModFacts(w, Pow256(3 - n));
      MulAtLeast(Pow256(3 - n), w / Pow256(3 - n));
      PowMono(256, 3, 32);
      assert Pow(256, 3) == 0x100_0000;
    } else {
      OverflowPower(w, n - 3);
    }
  }

  /** w * 256^k against 256^32. */
  lemma OverflowPower(w: nat, k: nat)
    requires w < 0x80_0000
    ensures w * Pow256(k) >= Pow256(32) <==> w != 0 && (k > 31 || (w > 0xff && k > 30) || (w > 0xffff && k > 29))
  {
    hide Pow;
    assert Pow256(1) == 256 && Pow256(2) == 0x10000 && Pow256(3) == 0x100_0000 by { PowSmall(); }
    var j := if k > 31 then 0 else if k > 30 then 1 else if k > 29 then 2 else 3;
    if k > 31 {
      PowMono(256, 32, k);
      if w > 0 { MulAtLeast(w, Pow256(k)); }
    } else if k > 28 {
      PowAdd(256, j, k);
      assert j + k == 32;
      if w >= Pow256(j) {
        MulMono(Pow256(j), w, Pow256(k));
      } else {
        MulStrict(w, Pow256(j), Pow256(k));
      }
    } else {
      PowMono(256, k + 3, 32);
      PowAdd(256, 3, k);
      MulStrict(w, Pow256(3), Pow256(k));
    }
  }

  lemma PowSmall()
    ensures Pow(256, 0) == 1 && Pow(256, 1) == 256 && Pow(256, 2) == 0x10000 && Pow(256, 3) == 0x100_0000
  {
    assert Pow(256, 1) == 256;
    assert Pow(256, 2) == 256 * 256;
  }

  method SetLow(pn: array<Limb>, x: Limb)
    requires pn.Length == 8
    modifies pn
    ensures Val(pn[..]) == x
  {
    Clear(pn);
    ghost var s := pn[..];
    pn[0] := x;
    ValUpdate(s, 0, x);
    assert pn[..] == s[0 := x];
  }

  /** Decoding: the value modulo 2^256, with the sign and the overflow reported exactly. */
  method SetCompact(pn: array<Limb>, c: Limb) returns (negative: bool, overflow: bool)
    requires pn.Length == 8
    modifies pn
    ensures Val(pn[..]) == Decoded(c) % Modulus(8)
    ensures negative <==> Signed(c) && Decoded(c) != 0
    ensures overflow <==> Decoded(c) >= Modulus(8)
  {
    hide Val, Pow;
    var size := c / 0x100_0000;
    var word := c % 0x80_0000;
    OverflowIff(c);
    if size <= 3 {
      BytePow(3 - size);
      word := word / Modulus2(8 * (3 - size));
      Shrinks(c % 0x80_0000, Modulus2(8 * (3 - size)));
      SetLow(pn, word);
      SmallFits(word);
    } else {
      BytePow(size - 3);
      SetLow(pn, word);
      ShiftLeft(pn, 8 * (size - 3));
      ProductZero(word, Pow256(size - 3));
    }
    negative := word != 0 && c / 0x80_0000 % 2 == 1;
    overflow := word != 0 && (size > 34 || (word > 0xff && size > 33) || (word > 0xffff && size > 32));
  }

  lemma Shrinks(x: nat, d: int)
    requires d >= 1
    ensures 0 <= x / d <= x
  {
    DivModFacts(x, d);
    MulAtLeast(d, x / d);
  }

  lemma ProductZero(x: nat, y: int)
    requires y >= 1
    ensures x * y == 0 <==> x == 0
  {
    if x > 0 { MulAtLeast(x, y); }
  }

  lemma SmallFits(x: Limb)
    ensures x % Modulus(8) == x
  {
    PowMono(BASE, 1, 8);
    assert Pow(BASE, 1) == BASE;
    DivModUnique(x, Modulus(8), 0, x);
  }

  /** n is the number of bytes of v. */
  ghost predicate IsBytes(v: nat, n: nat) {
    v < Pow256(n) && (n > 0 ==> Pow256(n - 1) <= v)
  }

  lemma BitsToBytes(v: nat, bits: nat)
    requires IsBits(v, bits)
    ensures IsBytes(v, (bits + 7) / 8)
  {
    var n := (bits + 7) / 8;
    BytePow(n);
    PowMono(2, bits, 8 * n);
    if n > 0 {
      BytePow(n - 1);
      PowMono(2, 8 * (n - 1), bits - 1);
    }
  }

  /** The three leading bytes of a number of n bytes, zero-filled below when it has fewer. */
  function Leading(v: nat, n: nat): (w: nat)
  {
    if n <= 3 then
      MulNonneg(v, Pow256(3 - n));
      v * Pow256(3 - n)
    else v / Pow256(n - 3)
  }

  /** The mantissa and size that encode a number of n bytes: the sign bit's place stays free. */
  function Packed(v: nat, n: nat): (int, int) {
    var w := Leading(v, n);
    if w >= 0x80_0000 then (w / 256, n + 1) else (w, n)
  }

  /** c is the canonical unsigned encoding of v. */
  ghost predicate Encodes(c: int, v: nat) {
    exists n: nat :: IsBytes(v, n) && c == Packed(v, n).1 * 0x100_0000 + Packed(v, n).0
  }

  /** What the tests encode. */
  lemma EncodedTable()
    ensures Encodes(0, 0) && Encodes(0x01120000, 0x12) && Encodes(0x02008000, 0x80) && Encodes(0x02123400, 0x1234)
    ensures Encodes(0x03123456, 0x123456) && Encodes(0x04123456, 0x12345600) && Encodes(0x05009234, 0x92340000)
  {
    assert Pow(256, 0) == 1 && Pow(256, 1) == 256 && Pow(256, 2) == 65536 && Pow(256, 3) == 0x100_0000;
    assert Pow(256, 4) == 0x1_0000_0000;
    assert IsBytes(0, 0) && IsBytes(0x12, 1) && IsBytes(0x80, 1) && IsBytes(0x1234, 2) && IsBytes(0x123456, 3);
    assert IsBytes(0x12345600, 4) && IsBytes(0x92340000, 4);
  }

  lemma LeadingBounds(v: nat, n: nat)
    requires IsBytes(v, n)
    ensures Leading(v, n) < 0x100_0000
    ensures n > 0 ==> Leading(v, n) >= 0x1_0000
    ensures n == 0 ==> v == 0 && Leading(v, n) == 0
  {
    PowSmall();
    if n <= 3 {
      PowAdd(256, n, 3 - n);
      MulStrict(v, Pow256(n), Pow256(3 - n));
      if n > 0 {
        PowAdd(256, n - 1, 3 - n);
        MulMono(Pow256(n - 1), v, Pow256(3 - n));
      }
    } else {
      PowAdd(256, 3, n - 3);
      PowAdd(256, 2, n - 3);
      var d := Pow256(n - 3);
      QuotientBounds(v, d, 0x1_0000, 0x100_0000);
    }
  }

  /** The bytes of v that its encoding keeps. */
  function Kept(v: nat, size: nat): int {
    if size <= 3 then v else v / Pow256(size - 3) * Pow256(size - 3)
  }

  lemma DivDiv(v: nat, d: int)
    requires d >= 1
    ensures v / d / 256 == v / (256 * d)
  {
    DivModFacts(v, d);
    DivModFacts(v / d, 256);
    var q, r, t := v / d / 256, v / d % 256, v % d;
    assert v == q * (256 * d) + (r * d + t) by {
      assert (q * 256 + r) * d == q * (256 * d) + r * d;
    }
    MulMono(r, 255, d);
    MulNonneg(r, d);
    DivModUnique(v, 256 * d, q, r * d + t);
  }

  /** Encoding keeps the leading bytes and clears the rest. */
  lemma PackedKeeps(v: nat, n: nat)
    requires IsBytes(v, n)
    ensures var (w, m) := Packed(v, n);
      && 0 <= w < 0x80_0000 && n <= m <= n + 1 && (v > 0 ==> w >= 0x8000)
      && (m <= 3 ==> w == v * Pow256(3 - m))
      && (m > 3 ==> w == v / Pow256(m - 3))
  {
    LeadingBounds(v, n);
    var w := Leading(v, n);
    if n == 0 {
      assert Packed(v, n) == (0, 0);
    } else if w >= 0x80_0000 {
      if n < 3 {
        assert Pow256(3 - n) == 256 * Pow256(2 - n);
        assert v * (256 * Pow256(2 - n)) == 256 * (v * Pow256(2 - n));
      } else if n == 3 {
        PowSmall();
      } else {
        DivDiv(v, Pow256(n - 3));
        assert Pow256(n - 2) == 256 * Pow256(n - 3);
      }
    }
  }

  lemma Fields(c: Limb, w: int, m: int)
    requires c == m * 0x100_0000 + w && 0 <= w < 0x80_0000
    ensures Size(c) == m && Mantissa(c) == w && !Signed(c)
  {
  }

  /** Decoding an encoding gives the number with its low bytes cleared: never more, never zero for
      a nonzero number, and off by at most one part in 2^15. */
  lemma DecodeEncode(c: Limb, v: nat)
    requires Encodes(c, v)
    ensures !Signed(c)
    ensures Decoded(c) == Kept(v, Size(c))
    ensures 0 <= Decoded(c) <= v && (Decoded(c) == 0 <==> v == 0)
    ensures (v - Decoded(c)) * 0x8000 <= Decoded(c)
  {
    hide Pow, IsBytes, Packed;
    var n: nat :| IsBytes(v, n) && c == Packed(v, n).1 * 0x100_0000 + Packed(v, n).0;
    PackedKeeps(v, n);
    var (w, m) := Packed(v, n);
    Fields(c, w, m);
    if m <= 3 {
      DivModUnique(w, Pow256(3 - m), v, 0);
    } else {
      KeptBounds(v, w, Pow256(m - 3));
    }
  }

  lemma KeptBounds(v: nat, w: nat, d: int)
    requires d >= 1 && w == v / d && (v > 0 ==> w >= 0x8000)
    ensures 0 <= w * d <= v && (w * d == 0 <==> v == 0)
    ensures (v - w * d) * 0x8000 <= w * d
  {
    DivModFacts(v, d);
    MulNonneg(w, d);
    if v > 0 { MulMono(0x8000, w, d); }
  }

  /** The words that encoding produces. */
  predicate Canonical(c: Limb) {
    c == 0 ||
    (0x8000 <= Mantissa(c) && !Signed(c) && Size(c) >= 1 &&
      (Size(c) < 3 ==> Mantissa(c) % Pow256(3 - Size(c)) == 0))
  }

  lemma EncodedIsCanonical(c: Limb, v: nat)
    requires Encodes(c, v)
    ensures Canonical(c)
  {
    hide Pow, IsBytes;
    var n: nat :| IsBytes(v, n) && c == Packed(v, n).1 * 0x100_0000 + Packed(v, n).0;
    PackedKeeps(v, n);
    LeadingBounds(v, n);
    var (w, m) := Packed(v, n);
    Fields(c, w, m);
    if n > 0 {
      ZeroBytes(v, n);
      if m < 3 { DivModUnique(w, Pow256(3 - m), v, 0); }
    }
  }

  lemma ZeroBytes(v: nat, n: nat)
    requires IsBytes(v, n) && n > 0
    ensures v > 0
  {
  }

  lemma DecodedBytes(w: nat, m: nat, v: nat)
    requires 0x8000 <= w < 0x80_0000 && m >= 1
    requires m <= 3 ==> w == v * Pow256(3 - m)
    requires m > 3 ==> v == w * Pow256(m - 3)
    ensures w >= 0x1_0000 ==> IsBytes(v, m)
    ensures w < 0x1_0000 ==> IsBytes(v, m - 1)
  {
    PowSmall();
    if m > 3 {
      var d := Pow256(m - 3);
      PowAdd(256, 3, m - 3); PowAdd(256, 2, m - 3); PowAdd(256, 1, m - 3);
      MulStrict(w, 0x100_0000, d);
      if w >= 0x1_0000 { MulMono(0x1_0000, w, d); } else { MulStrict(w, 0x1_0000, d); }
      MulMono(0x100, w, d);
    }
  }

  lemma DecodedLeading(w: nat, m: nat, v: nat)
    requires 0x8000 <= w < 0x80_0000 && m >= 1
    requires m <= 3 ==> w == v * Pow256(3 - m)
    requires m > 3 ==> v == w * Pow256(m - 3)
    ensures w >= 0x1_0000 ==> Packed(v, m) == (w, m)
    ensures w < 0x1_0000 ==> Packed(v, m - 1) == (w, m)
  {
    if m > 3 {
      DivModUnique(v, Pow256(m - 3), w, 0);
      assert m > 4 ==> Pow256(m - 3) == 256 * Pow256(m - 4);
      if w < 0x1_0000 {
        if m == 4 {
          PowSmall();
        } else {
          assert w * (256 * Pow256(m - 4)) == (256 * w) * Pow256(m - 4);
          DivModUnique(v, Pow256(m - 4), 256 * w, 0);
        }
      }
    } else {
      assert Pow256(4 - m) == 256 * Pow256(3 - m);
      assert v * (256 * Pow256(3 - m)) == 256 * (v * Pow256(3 - m));
    }
  }

  lemma DecodedNonneg(c: Limb)
    ensures Decoded(c) >= 0
  {
    var w, m := Mantissa(c), Size(c);
    if m <= 3 { Shrinks(w, Pow256(3 - m)); } else { MulNonneg(w, Pow256(m - 3)); }
  }

  lemma CanonicalEncodes(c: Limb)
    requires c != 0 && Canonical(c)
    ensures Decoded(c) >= 0 && Encodes(c, Decoded(c))
  {
    hide Pow, IsBytes, Packed;
    var w, m, v := Mantissa(c), Size(c), Decoded(c);
    DecodedNonneg(c);
    if m <= 3 { WholeMantissa(w, m); DivModFacts(w, Pow256(3 - m)); }
    DecodedBytes(w, m, v);
    DecodedLeading(w, m, v);
    assert c == m * 0x100_0000 + w;
    var n := if w >= 0x1_0000 then m else m - 1;
    assert IsBytes(v, n) && c == Packed(v, n).1 * 0x100_0000 + Packed(v, n).0;
  }

  /** Decoding then encoding gives back exactly the canonical words. */
  lemma EncodeDecode(c: Limb)
    ensures Decoded(c) >= 0
    ensures Encodes(c, Decoded(c)) <==> Canonical(c)
  {
    hide Encodes, Canonical;
    DecodedNonneg(c);
    ZeroEncodes();
    if Encodes(c, Decoded(c)) { EncodedIsCanonical(c, Decoded(c)); }
    if Canonical(c) && c != 0 { CanonicalEncodes(c); }
    assert Canonical(0) by { EncodedIsCanonical(0, 0); }
  }

  lemma WholeMantissa(w: nat, m: nat)
    requires m == 3 || (m < 3 && w % Pow256(3 - m) == 0)
    ensures w % Pow256(3 - m) == 0
  {
    if m == 3 { PowSmall(); assert w % 1 == 0; }
  }

  lemma ZeroEncodes()
    ensures Encodes(0, 0) && Decoded(0) == 0
  {
    PowSmall();
    assert IsBytes(0, 0) && Packed(0, 0) == (0, 0);
    DivModUnique(0, Pow256(3), 0, 0);
  }

  method GetLow64(pn: array<Limb>) returns (r: int)
    requires pn.Length == 8
    ensures r == Val(pn[..]) % (BASE * BASE)
  {
    BaseIsPow();
    OrDisjoint(pn[1] * BASE, pn[0], 32, pn[1]);
    r := Or(pn[0], pn[1] * BASE);
    ghost var s := pn[..];
    assert Val(s) == s[0] + BASE * Val(s[1..]);
    assert Val(s[1..]) == s[1] + BASE * Val(s[1..][1..]);
    DivModUnique(Val(s), BASE * BASE, Val(s[1..][1..]), s[0] + BASE * s[1]);
  }

  lemma LowIsAll(v: nat)
    requires v < 0x100_0000
    ensures v % (BASE * BASE) == v && v % BASE == v
  {
  }

  lemma AtMost32Bytes(v: nat, n: nat)
    requires IsBytes(v, n) && v < Modulus(8)
    ensures n <= 32
  {
    WidthBytes();
    if n > 32 { PowMono(256, 32, n - 1); }
  }

  lemma SmallNumber(v: nat, n: nat)
    requires IsBytes(v, n) && n <= 3
    ensures v < 0x100_0000
  {
    PowSmall();
  }

  /** The three leading bytes, as the code computes them in a 64-bit and then a 32-bit word. */
  method LeadingBytes(pn: array<Limb>, size: nat) returns (w: Limb)
    requires pn.Length == 8 && IsBytes(Val(pn[..]), size)
    ensures w == Leading(Val(pn[..]), size)
  {
    hide Val, Pow, IsBytes, Leading;
    ghost var v := Val(pn[..]);
    LeadingBounds(v, size);
    LeadingIs(v, size);
    if size <= 3 {
      SmallNumber(v, size);
      LowIsAll(v);
      var low := GetLow64(pn);
      LowIsAll(Leading(v, size));
      w := low * Modulus2(8 * (3 - size)) % (BASE * BASE) % BASE;
    } else {
      var bn := Copy(pn);
      ShiftRight(bn, 8 * (size - 3));
      LowIsAll(Val(bn[..]));
      var low := GetLow64(bn);
      w := low % BASE;
    }
  }

  lemma LeadingIs(v: nat, n: nat)
    ensures n <= 3 ==> Leading(v, n) == v * Modulus2(8 * (3 - n))
    ensures n > 3 ==> Leading(v, n) == v / Modulus2(8 * (n - 3))
  {
    hide Pow;
    if n <= 3 { BytePow(3 - n); } else { BytePow(n - 3); }
  }

  /** Encoding never trips the code's assertions and gives the canonical word, signed on request. */
  method GetCompact(pn: array<Limb>, negative: bool) returns (c: Limb)
    requires pn.Length == 8
    ensures Encodes(c - (if negative && Mantissa(c) != 0 then 0x80_0000 else 0), Val(pn[..]))
    ensures Size(c) <= 33
  {
    hide Val, Pow, IsBytes, IsBits, Leading;
    ghost var v := Val(pn[..]);
    ValBound(pn[..]);
    var bits := Bits(pn);
    BitsToBytes(v, bits);
    var size := (bits + 7) / 8;
    ghost var n := size;
    AtMost32Bytes(v, n);
    LeadingBounds(v, n);
    c := LeadingBytes(pn, size);
    if c / 0x80_0000 % 2 == 1 {
      c := c / 256;
      size := size + 1;
    }
    assert c < 0x80_0000 && size < 256;
    ghost var word := c;
    assert Packed(v, n) == (word, size);
    WordOr(c, size);
    c := Or(c, size * 0x100_0000);
    assert Encodes(c, v);
    if negative && c % 0x80_0000 != 0 {
      Fields(c, word, size);
      SignOr(c);
      c := Or(c, 0x80_0000);
    }
  }

  lemma WordOr(w: nat, size: nat)
    requires w < 0x100_0000
    ensures Or(w, size * 0x100_0000) == size * 0x100_0000 + w
  {
    PowSmall();
    BytePow(3);
    OrDisjoint(size * 0x100_0000, w, 24, size);
  }

  lemma SignOr(c: Limb)
    requires !Signed(c)
    ensures Or(c, 0x80_0000) == c + 0x80_0000
    ensures Mantissa(c) == (c + 0x80_0000) % 0x80_0000 && c + 0x80_0000 < BASE
    ensures (c + 0x80_0000) / 0x100_0000 == Size(c)
  {
    PowAdd(2, 12, 11);
    assert Pow(2, 12) == 0x1000 && Pow(2, 11) == 0x800;
    OrSplit(c, 0x80_0000, 23);
  }

  /** Setting a clear bit adds it. */
  lemma {:induction false} OrSplit(c: nat, bit: nat, n: nat)
    requires bit == Pow(2, n) && c / Modulus2(n) % 2 == 0
    ensures Or(c, bit) == c + bit
  {
    if n == 0 {
      assert c / 1 == c;
      OrZero(c / 2);
    } else {
      assert bit == 2 * Pow(2, n - 1) && bit / 2 == Pow(2, n - 1);
      HalfDiv(c, n);
      OrSplit(c / 2, bit / 2, n - 1);
    }
  }

  lemma OrZero(c: nat)
    ensures Or(c, 0) == c
  {
  }

  lemma HalfDiv(c: nat, n: nat)
    requires n > 0
    ensures c / 2 / Modulus2(n - 1) == c / Modulus2(n)
  {
    var d := Modulus2(n - 1);
    var q, r := c / 2 / d, c / 2 % d;
    DivModFacts(c / 2, d);
    assert q * (2 * d) == 2 * (q * d);
    DivModUnique(c, 2 * d, q, 2 * r + c % 2);
  }
}
