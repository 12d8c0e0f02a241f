/** Exactly which amounts survive compression in 64-bit words (src/compressor.cpp): an amount
    whose code does not fit a word never comes back. */
module AmountWords {
  import opened Powers
  import opened Compressor

  // --- Which codes fit a word ---

  /** The code of an amount with a last digit: nothing is stripped. */
  lemma PlainCode(n: nat)
    requires n % 10 != 0
    ensures Compressed(n) == 9 * n + n % 10 - 9
  {
    assert Strip(n, 0) == (n, 0);
  }

  /** The code of an amount with a factor of ten is at most the amount. */
  lemma StrippedCode(n: nat)
    requires n > 0 && n % 10 == 0
    ensures Compressed(n) <= n
  {
    hide Scale;
    StripIs(n, 0);
    var m, e := Strip(n, 0).0, Strip(n, 0).1;
    StripIs(n / 10, 1);
    assert Strip(n, 0) == Strip(n / 10, 1);
    ScaleStep(m, e - 1);
    ScaleGrows(m, e - 1);
    assert m == 10 * (m / 10) + m % 10;
  }

  lemma FitsIff(n: nat)
    requires n < MAX64
    ensures Compressed(n) < MAX64 <==> n % 10 == 0 || 9 * n + n % 10 - 9 < MAX64
  {
    hide Compressed;
    if n == 0 {
      ZeroAmount();
    } else if n % 10 == 0 {
      StrippedCode(n);
    } else {
      PlainCode(n);
    }
  }

  // --- What a wrapped code decodes to ---

  lemma {:induction false} ScaleIs(m: nat, e: nat)
    ensures Scale(m, e) == m * Pow(10, e)
  {
    if e > 0 {
      ScaleIs(m, e - 1);
      assert m * (10 * Pow(10, e - 1)) == 10 * (m * Pow(10, e - 1));
    }
  }

  /** With k words lost, the exponent e is the digit that makes k * 2^64 + e a multiple of ten,
      and the mantissa is the amount less a constant c that has one of two values. */
  lemma DecodeWrapped(n: nat, k: nat, a: nat, b: nat, e: nat)
    requires n % 10 != 0 && b < 9 && e < 9 && k * MAX64 + e == 10 * (9 * a + b)
    requires 9 * n + n % 10 - 9 > k * MAX64
    ensures var c := 10 * a + b + if n % 10 - 1 < b then 1 else 0;
      n >= c && Decode(9 * n + n % 10 - 9 - k * MAX64) == (n - c, e)
  {
    var h, d := n / 10, n % 10;
    var x := 9 * n + d - 9 - k * MAX64;
    var y := 9 * (h - a) + (d - 1 - b);
    assert x - 1 == 10 * y + e;
    assert (x - 1) / 10 == y && (x - 1) % 10 == e;
    if d - 1 >= b {
      assert y / 9 == h - a && y % 9 == d - 1 - b;
    } else {
      assert y == 9 * (h - a - 1) + (d + 8 - b);
      assert y / 9 == h - a - 1 && y % 9 == d + 8 - b;
    }
  }

  /** An odd factor can be undone modulo 2^64: an amount that comes back as itself from n - c
      with factor p is the one the inverse of p - 1 gives. */
  lemma OnlyAmount(n: nat, c: nat, p: nat, inverse: nat, t: nat)
    requires c <= n < MAX64 && p > 0 && inverse * (p - 1) == 1 + t * MAX64
    requires (n - c) * p % MAX64 == n
    ensures n == c * p * inverse % MAX64
  {
    var j := (n - c) * p / MAX64;
    assert (n - c) * p == j * MAX64 + n;
    UndoFactor(n, c * p, p - 1, inverse, t, j);
  }

  lemma UndoFactor(n: nat, w: nat, odd: nat, inverse: nat, t: nat, j: nat)
    requires n < MAX64 && inverse * odd == 1 + t * MAX64 && n * odd == w + j * MAX64
    ensures n == w * inverse % MAX64
  {
    Rearranged(n, w, odd, inverse, t, j, MAX64);
    Remainder(w * inverse, n, n * t - j * inverse);
  }

  lemma Rearranged(n: int, w: int, odd: int, inverse: int, t: int, j: int, M: int)
    requires inverse * odd == 1 + t * M && n * odd == w + j * M
    ensures w * inverse == n + (n * t - j * inverse) * M
  {
    assert n * odd * inverse == n * (1 + t * M) by { assert n * odd * inverse == n * (inverse * odd); }
    assert (w + j * M) * inverse == w * inverse + j * inverse * M;
  }

  lemma Remainder(x: int, n: nat, q: int)
    requires n < MAX64 && x == n + q * MAX64
    ensures x % MAX64 == n
  {
  }

  /** The parts of k * 2^64 + e, and the inverse of 10^e - 1. */
  datatype Lost = Lost(a: nat, b: nat, e: nat, inverse: nat, t: nat)

  function LostWords(k: nat): Lost
    requires 1 <= k <= 8
  {
    match k
    case 1 => Lost(204963823041217240, 2, 4, 0xbac54b17a193e7ef, 7295)
    case 2 => Lost(409927646082434480, 4, 8, 0x42a5b9ee9491eff, 1627133)
    case 3 => Lost(614891469123651720, 5, 2, 0xafd6a052bf5a814b, 68)
    case 4 => Lost(819855292164868960, 7, 6, 0x17350a7ba2e7adbf, 90653)
    case 5 => Lost(1024819115206086200, 8, 0, 0, 0)
    case 6 => Lost(1229782938247303441, 1, 4, 0xbac54b17a193e7ef, 7295)
    case 7 => Lost(1434746761288520681, 3, 8, 0x42a5b9ee9491eff, 1627133)
    case 8 => Lost(1639710584329737921, 4, 2, 0xafd6a052bf5a814b, 68)
  }

  lemma PowersOfTen()
    ensures Pow(10, 0) == 1 && Pow(10, 2) == 100 && Pow(10, 4) == 10000
    ensures Pow(10, 6) == 1000000 && Pow(10, 8) == 100000000
  {
    assert Pow(10, 4) == 100 * Pow(10, 2);
    assert Pow(10, 6) == 100 * Pow(10, 4);
    assert Pow(10, 8) == 100 * Pow(10, 6);
  }

  lemma LostParts(k: nat)
    requires 1 <= k <= 8
    ensures var l := LostWords(k);
      && l.b < 9 && l.e < 9 && k * MAX64 + l.e == 10 * (9 * l.a + l.b)
      && (k != 5 ==> l.inverse * (Pow(10, l.e) - 1) == 1 + l.t * MAX64)
  {
    PowersOfTen();
  }

  /** The one amount left when k words are lost. */
  function LeftOver(k: nat, up: nat): nat
    requires 1 <= k <= 8 && up <= 1
  {
    var l := LostWords(k);
    (10 * l.a + l.b + up) * Pow(10, l.e) * l.inverse % MAX64
  }

  lemma LeftOver1(up: nat)
    requires up <= 1
    ensures LeftOver(1, up) == if up == 0 then 15288550632769423584 else 10300052185393623248
  {
    hide Pow;
    PowersOfTen();
  }

  lemma LeftOver2(up: nat)
    requires up <= 1
    ensures LeftOver(2, up) == if up == 0 then 14480868974329830400 else 14781022037580233472
  {
    hide Pow;
    PowersOfTen();
  }

  lemma LeftOver3(up: nat)
    requires up <= 1
    ensures LeftOver(3, up) == if up == 0 then 1925417731599313468 else 14595908610510924680
  {
    hide Pow;
    PowersOfTen();
  }

  lemma LeftOver4(up: nat)
    requires up <= 1
    ensures LeftOver(4, up) == if up == 0 then 14161661572577611840 else 15833915935345966592
  {
    hide Pow;
    PowersOfTen();
  }

  lemma LeftOverLow(k: nat, up: nat)
    requires 1 <= k <= 4 && up <= 1
    ensures k == 1 ==> LeftOver(k, up) == if up == 0 then 15288550632769423584 else 10300052185393623248
    ensures k == 2 ==> LeftOver(k, up) == if up == 0 then 14480868974329830400 else 14781022037580233472
    ensures k == 3 ==> LeftOver(k, up) == if up == 0 then 1925417731599313468 else 14595908610510924680
    ensures k == 4 ==> LeftOver(k, up) == if up == 0 then 14161661572577611840 else 15833915935345966592
  {
    hide LeftOver;
    LeftOver1(up); LeftOver2(up); LeftOver3(up); LeftOver4(up);
  }

  lemma LeftOverHigh(k: nat, up: nat)
    requires 6 <= k <= 8 && up <= 1
    ensures k == 6 ==> LeftOver(k, up) == if up == 0 then 4486081875444583760 else 17944327501778335040
    ensures k == 7 ==> LeftOver(k, up) == if up == 0 then 4266028162630124288 else 4566181225880527360
    ensures k == 8 ==> LeftOver(k, up) == if up == 0 then 7432526512302726184 else 1656273317504785780
  {
    hide Pow;
    PowersOfTen();
  }

  /** Its code loses another number of words. */
  lemma WrongAmount(k: nat, up: nat)
    requires 1 <= k <= 8 && k != 5 && up <= 1
    ensures var n := LeftOver(k, up);
      !(k * MAX64 <= 9 * n + n % 10 - 9 < (k + 1) * MAX64)
  {
    hide LeftOver;
    if k <= 4 { LeftOverLow(k, up); } else { LeftOverHigh(k, up); }
  }

  /** An amount whose code wraps comes back as another. */
  lemma WrappedFails(n: nat, k: nat)
    requires n < MAX64 && n % 10 != 0 && 1 <= k <= 8
    requires k * MAX64 <= 9 * n + n % 10 - 9 < (k + 1) * MAX64
    ensures Decompressed(9 * n + n % 10 - 9 - k * MAX64) % MAX64 != n
  {
    hide Decode, Scale, Pow, LostWords;
    var x := 9 * n + n % 10 - 9 - k * MAX64;
    if x > 0 {
      var l := LostWords(k);
      LostParts(k);
      DecodeWrapped(n, k, l.a, l.b, l.e);
      var up := if n % 10 - 1 < l.b then 1 else 0;
      var c := 10 * l.a + l.b + up;
      ScaleIs(n - c, l.e);
      NotItself(n, k, up);
    }
  }

  lemma NotItself(n: nat, k: nat, up: nat)
    requires 1 <= k <= 8 && up <= 1 && n < MAX64
    requires k * MAX64 <= 9 * n + n % 10 - 9 < (k + 1) * MAX64
    requires var l := LostWords(k); 10 * l.a + l.b + up <= n
    ensures var l := LostWords(k);
      (n - (10 * l.a + l.b + up)) * Pow(10, l.e) % MAX64 != n
  {
    hide Pow;
    var l := LostWords(k);
    var c := 10 * l.a + l.b + up;
    PowersOfTen();
    LostParts(k);
    if k != 5 && (n - c) * Pow(10, l.e) % MAX64 == n {
      OnlyAmount(n, c, Pow(10, l.e), l.inverse, l.t);
      WrongAmount(k, up);
    }
  }

  /** In 64-bit words an amount comes back exactly when it has a factor of ten or its code fits. */
  lemma RoundTripIff(n: nat)
    requires n < MAX64
    ensures Compressed(n) >= 0
    ensures Decompressed(Compressed(n) % MAX64) % MAX64 == n <==> n % 10 == 0 || 9 * n + n % 10 - 9 < MAX64
  {
    hide Compressed, Decompressed;
    AmountRoundTrip(n);
    FitsIff(n);
    if n % 10 == 0 || 9 * n + n % 10 - 9 < MAX64 {
      RoundTrip64(n);
    } else {
      PlainCode(n);
      var x := 9 * n + n % 10 - 9;
      var k := x / MAX64;
      assert x % MAX64 == x - k * MAX64;
      WrappedFails(n, k);
    }
  }

  /** The largest word has a last digit and a code of nearly nine words. */
  lemma LargestWordFails()
    ensures Compressed(MAX64 - 1) >= 0
    ensures Decompressed(Compressed(MAX64 - 1) % MAX64) % MAX64 != MAX64 - 1
  {
    hide Compressed, Decompressed;
    RoundTripIff(MAX64 - 1);
  }
}
