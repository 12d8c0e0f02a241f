/** Variable-length integers (src/serialize.h) and compressed amounts (src/compressor.cpp). */
module Compressor {
  import opened Basics
  import opened Powers

  // --- Variable-length integers: base 128, every continuation adding one ---

  /** The bytes before the last one, all with the high bit set. */
  function VarHigh(n: nat): seq<nat> {
    if n <= 127 then [n + 128] else VarHigh(n / 128 - 1) + [n % 128 + 128]
  }

  function VarInt(n: nat): (s: seq<nat>)
    ensures |s| > 0
  {
    if n <= 127 then [n] else VarHigh(n / 128 - 1) + [n % 128]
  }

  /** The table in the description of the format. */
  lemma VarIntTable()
    ensures VarInt(0) == [0x00] && VarInt(1) == [0x01] && VarInt(127) == [0x7F]
    ensures VarInt(128) == [0x80, 0x00] && VarInt(255) == [0x80, 0x7F] && VarInt(256) == [0x81, 0x00]
    ensures VarInt(16383) == [0xFE, 0x7F] && VarInt(16384) == [0xFF, 0x00] && VarInt(16511) == [0xFF, 0x7F]
    ensures VarInt(65535) == [0x82, 0xFE, 0x7F] && VarInt(0x1_0000_0000) == [0x8E, 0xFE, 0xFE, 0xFF, 0x00]
  {
  }

  /** What is written for a signed number: a negative one ends the loop at once. */
  function SignedVarInt(n: int): (s: seq<nat>)
    ensures |s| > 0
  {
    if n < 0 then [n % 128] else VarInt(n)
  }

  /** The number that comes back. */
  function Stored(n: int): nat { if n < 0 then n % 128 else n }

  /** Reads from position i with the value so far; the value and the position after it. */
  function ReadFrom(s: seq<nat>, i: nat, n: nat): (r: Option<(nat, nat)>)
    requires i <= |s|
    ensures r.Some? ==> i < r.value.1 <= |s|
    decreases |s| - i
  {
    if i == |s| then None
    else
      var m := n * 128 + s[i] % 128;
      if s[i] >= 128 then ReadFrom(s, i + 1, m + 1) else Some((m, i + 1))
  }

  function ReadVarInt(s: seq<nat>): Option<(nat, nat)> { ReadFrom(s, 0, 0) }

  lemma {:induction false} ReadHigh(n: nat, s: seq<nat>, i: nat)
    requires i + |VarHigh(n)| <= |s| && s[i..i + |VarHigh(n)|] == VarHigh(n)
    ensures ReadFrom(s, i, 0) == ReadFrom(s, i + |VarHigh(n)|, n + 1)
  {
    hide ReadFrom, VarHigh;
    VarHighParts(n);
    var h := VarHigh(n);
    if n <= 127 {
      assert s[i] == s[i..i + |h|][0] == n + 128;
      ReadOne(s, i, 0, n);
    } else {
      var g := VarHigh(n / 128 - 1);
      assert s[i..i + |g|] == h[..|g|] == g;
      ReadHigh(n / 128 - 1, s, i);
      var k := i + |g|;
      assert s[k] == s[i..i + |h|][|g|] == h[|g|];
      ReadOne(s, k, n / 128, n);
    }
  }

  lemma VarHighParts(n: nat)
    ensures n <= 127 ==> VarHigh(n) == [n + 128]
    ensures n > 127 ==> VarHigh(n) == VarHigh(n / 128 - 1) + [n % 128 + 128]
  {
  }

  lemma ReadOne(s: seq<nat>, k: nat, q: nat, n: nat)
    requires k < |s| && s[k] == n % 128 + 128 && q == n / 128
    ensures ReadFrom(s, k, q) == ReadFrom(s, k + 1, n + 1)
  {
    assert s[k] % 128 == n % 128 && n / 128 * 128 + n % 128 == n;
  }

  /** Reading what was written gives the number and stops right after it. */
  lemma VarIntRoundTrip(n: nat, rest: seq<nat>)
    ensures ReadVarInt(VarInt(n) + rest) == Some((n, |VarInt(n)|))
  {
    var s := VarInt(n) + rest;
    if n > 127 {
      var g := VarHigh(n / 128 - 1);
      assert s[0..|g|] == g;
      ReadHigh(n / 128 - 1, s, 0);
      assert s[|g|] == n % 128;
    }
  }

  /** A signed number is read as its stored form, which is the number itself exactly when it is not
      negative. */
  lemma SignedRoundTrip(n: int, rest: seq<nat>)
    ensures ReadVarInt(SignedVarInt(n) + rest) == Some((Stored(n), |SignedVarInt(n)|))
    ensures Stored(n) == n <==> n >= 0
  {
    if n < 0 {
      assert (SignedVarInt(n) + rest)[0] == n % 128;
    } else {
      VarIntRoundTrip(n, rest);
    }
  }

  /** One code: bytes with the high bit set, then one without. */
  predicate IsCode(s: seq<nat>) {
    s != [] && s[|s| - 1] < 128 && forall k :: 0 <= k < |s| - 1 ==> 128 <= s[k] < 256
  }

  /** The value of high bytes read so far. */
  function HighValue(s: seq<nat>): nat {
    if s == [] then 0 else HighValue(s[..|s| - 1]) * 128 + s[|s| - 1] % 128 + 1
  }

  lemma {:induction false} ReadHighValue(s: seq<nat>, i: nat)
    requires i <= |s| && forall k :: 0 <= k < i ==> s[k] >= 128
    ensures ReadFrom(s, 0, 0) == ReadFrom(s, i, HighValue(s[..i]))
  {
    if i > 0 {
      ReadHighValue(s, i - 1);
      assert s[..i][..i - 1] == s[..i - 1];
    }
  }

  lemma {:induction false} HighOfValue(s: seq<nat>)
    requires s != [] && forall k :: 0 <= k < |s| ==> 128 <= s[k] < 256
    ensures HighValue(s) >= 1 && VarHigh(HighValue(s) - 1) == s
  {
    var t := s[..|s| - 1];
    assert s == t + [s[|s| - 1]];
    if t == [] {
      assert HighValue(s) == s[0] % 128 + 1;
    } else {
      HighOfValue(t);
      var n := HighValue(s) - 1;
      assert n / 128 == HighValue(t) && n % 128 == s[|s| - 1] % 128;
    }
  }

  /** Every code is the one encoding of the number it reads as. */
  lemma OneToOne(s: seq<nat>)
    requires IsCode(s)
    ensures ReadVarInt(s).Some? && ReadVarInt(s).value.1 == |s| && VarInt(ReadVarInt(s).value.0) == s
  {
    var h := s[..|s| - 1];
    ReadHighValue(s, |s| - 1);
    var n: nat := HighValue(h) * 128 + s[|s| - 1];
    assert ReadVarInt(s) == Some((n, |s|));
    assert s == h + [s[|s| - 1]];
    if h != [] { HighOfValue(h); }
  }

  ghost function Reversed(s: seq<nat>): seq<nat> {
    if s == [] then [] else [s[|s| - 1]] + Reversed(s[..|s| - 1])
  }

  lemma ReversedSnoc(s: seq<nat>, x: nat)
    ensures Reversed(s + [x]) == [x] + Reversed(s)
  {
    assert (s + [x])[..|s|] == s;
  }

  lemma ReversedOne(x: nat)
    ensures Reversed([] + [x]) == [x]
  {
  }

  /** The code of n once its low digits are in s and m is left. */
  ghost function Rest(m: nat, s: seq<nat>): seq<nat> {
    (if s == [] then VarInt(m) else VarHigh(m)) + Reversed(s)
  }

  lemma RestStep(m: nat, s: seq<nat>)
    ensures m > 127 ==> Rest(m, s) == Rest(m / 128 - 1, s + [m % 128 + (if s == [] then 0 else 128)])
    ensures m <= 127 ==> Rest(m, s) == Reversed(s + [m + (if s == [] then 0 else 128)])
  {
    ReversedSnoc(s, m % 128 + (if s == [] then 0 else 128));
    ReversedSnoc(s, m + (if s == [] then 0 else 128));
  }

  lemma RoomLeft(n: nat, m: nat, len: nat, width: nat)
    requires m * Pow(128, len) <= n < Pow(128, width) && m > 127 && len < width
    ensures len + 1 < width && (m / 128 - 1) * Pow(128, len + 1) <= n
  {
    var p := Pow(128, len);
    PowPositive(128, len);
    MulMono((m / 128 - 1) * 128, m, p);
    assert (m / 128 - 1) * 128 * p == (m / 128 - 1) * (128 * p);
    MulMono(128, m, p);
    assert len + 1 == width ==> Pow(128, width) == 128 * p;
  }

  /** The digits of n, least significant first, in a buffer wide enough. */
  method SplitDigits(n: int, width: nat) returns (tmp: array<nat>, len: nat)
    requires width > 0 && n < Pow(128, width)
    ensures fresh(tmp) && len <= tmp.Length && Reversed(tmp[..len]) == SignedVarInt(n)
  {
    hide Rest, Pow, VarInt, Reversed;
    tmp := new nat[width];
    len := 0;
    var m := n;
    if n >= 0 { FirstDigits(n, tmp[..0]); }
    while m > 127
      invariant 0 <= len < width
      invariant if n < 0 then m == n && len == 0
                else m >= 0 && m * Pow(128, len) <= n && Rest(m, tmp[..len]) == VarInt(n)
    {
      RoomLeft(n, m, len, width);
      RestStep(m, tmp[..len]);
      tmp[len] := m % 128 + (if len > 0 then 128 else 0);
      assert tmp[..len + 1] == tmp[..len] + [tmp[len]];
      m := m / 128 - 1;
      len := len + 1;
    }
    if m >= 0 { RestStep(m, tmp[..len]); } else { ReversedOne(m % 128); }
    tmp[len] := m % 128 + (if len > 0 then 128 else 0);
    assert tmp[..len + 1] == tmp[..len] + [tmp[len]];
    len := len + 1;
  }

  /** Writing: digits least significant first into a buffer, then out in reverse. */
  method WriteVarInt(n: int, width: nat) returns (out: seq<nat>)
    requires width > 0 && n < Pow(128, width)
    ensures out == SignedVarInt(n)
  {
    hide Pow, SignedVarInt;
    var tmp, len := SplitDigits(n, width);
    out := [];
    var k := len;
    while k > 0
      invariant 0 <= k <= len
      invariant SignedVarInt(n) == out + Reversed(tmp[..k])
    {
      assert tmp[..k] == tmp[..k - 1] + [tmp[k - 1]];
      ReversedSnoc(tmp[..k - 1], tmp[k - 1]);
      out := out + [tmp[k - 1]];
      k := k - 1;
    }
  }

  lemma FirstDigits(n: nat, s: seq<nat>)
    requires s == []
    ensures Rest(n, s) == VarInt(n) && n * Pow(128, 0) <= n
  {
    PowZero();
    RestNone(n, s);
  }

  lemma PowZero()
    ensures Pow(128, 0) == 1
  {
  }

  lemma RestNone(n: nat, s: seq<nat>)
    requires s == []
    ensures Rest(n, s) == VarInt(n)
  {
  }

  /** Reading into an unsigned word: what the bytes say, modulo the size of the word. */
  function ReadWord(s: seq<nat>, bits: nat): Option<(nat, nat)>
  {
    match ReadVarInt(s)
    case None => None
    case Some((n, next)) =>
      PowPositive(2, bits);
      Some((n % Pow(2, bits), next))
  }

  lemma WordStep(n: nat, m: nat, d: nat, size: nat)
    requires size > 0 && n == m % size
    ensures (n * 128 + d) % size == (m * 128 + d) % size
    ensures ((n * 128 + d) % size + 1) % size == (m * 128 + d + 1) % size
  {
    var q := m / size;
    assert m * 128 + d == n * 128 + d + 128 * q * size;
    ModAdd(n * 128 + d, 128 * q, size);
    var x := m * 128 + d;
    ModAdd(x % size + 1, x / size, size);
    assert x + 1 == x % size + 1 + x / size * size;
  }

  lemma ModAdd(a: nat, k: nat, size: nat)
    requires size > 0
    ensures (a + k * size) % size == a % size
  {
    DivModUnique(a + k * size, size, a / size + k, a % size);
  }

  /** Reading, byte by byte, into an unsigned word: every shift and increment wraps. */
  method ReadVarIntLoop(s: seq<nat>, bits: nat) returns (r: Option<(nat, nat)>)
    requires bits >= 7
    ensures r == ReadWord(s, bits)
  {
    hide Pow;
    PowPositive(2, bits);
    var size := Pow(2, bits);
    var n: nat := 0;
    ghost var m: nat := 0;
    var i := 0;
    while i < |s|
      invariant 0 <= i <= |s| && n == m % size
      invariant ReadFrom(s, i, m) == ReadVarInt(s)
    {
      WordStep(n, m, s[i] % 128, size);
      m := m * 128 + s[i] % 128;
      n := (n * 128 + s[i] % 128) % size;
      if s[i] >= 128 {
        m := m + 1;
        n := (n + 1) % size;
      } else {
        return Some((n, i + 1));
      }
      i := i + 1;
    }
    return None;
  }

  /** What was written from a word is read back into one. */
  lemma {:induction false} WordRoundTrip(n: nat, bits: nat, rest: seq<nat>)
    requires n < Pow(2, bits)
    ensures ReadWord(VarInt(n) + rest, bits) == Some((n, |VarInt(n)|))
  {
    hide ReadVarInt, VarInt, Pow;
    VarIntRoundTrip(n, rest);
    DivModUnique(n, Pow(2, bits), 0, n);
  }

  // --- Compressed amounts ---

  const MAX64 := 0x1_0000_0000_0000_0000

  /** Strips up to 9 - e factors of ten. */
  function Strip(n: nat, e: nat): (nat, nat)
    requires e <= 9
    decreases 9 - e
  {
    if n % 10 == 0 && e < 9 then Strip(n / 10, e + 1) else (n, e)
  }

  /** n with e factors of ten. */
  function Scale(n: nat, e: nat): nat {
    if e == 0 then n else 10 * Scale(n, e - 1)
  }

  /** The code of a stripped number and its exponent: with the last digit apart, unless all nine
      factors were stripped. */
  function Code(m: nat, e: nat): int {
    if e < 9 then 1 + (m / 10 * 9 + m % 10 - 1) * 10 + e else 1 + (m - 1) * 10 + 9
  }

  function Decode(x: nat): (nat, nat)
    requires x > 0
  {
    var y, e := (x - 1) / 10, (x - 1) % 10;
    (if e < 9 then y / 9 * 10 + y % 9 + 1 else y + 1, e)
  }

  predicate Stripped(m: nat, e: nat) { m > 0 && e <= 9 && (e < 9 ==> m % 10 != 0) }

  lemma CodeRoundTrip(m: nat, e: nat)
    requires Stripped(m, e)
    ensures Code(m, e) > 0 && Decode(Code(m, e)) == (m, e)
  {
    if e < 9 {
      var y := m / 10 * 9 + m % 10 - 1;
      assert y / 9 == m / 10 && y % 9 == m % 10 - 1;
      assert (Code(m, e) - 1) / 10 == y;
    }
  }

  lemma DecodeRoundTrip(x: nat)
    requires x > 0
    ensures Stripped(Decode(x).0, Decode(x).1) && Code(Decode(x).0, Decode(x).1) == x
  {
    var y, e := (x - 1) / 10, (x - 1) % 10;
    if e < 9 {
      var m := y / 9 * 10 + y % 9 + 1;
      assert m / 10 == y / 9 && m % 10 == y % 9 + 1;
    }
  }

  lemma {:induction false} StripIs(n: nat, e: nat)
    requires n > 0 && e <= 9
    ensures Stripped(Strip(n, e).0, Strip(n, e).1) && e <= Strip(n, e).1 && n == Scale(Strip(n, e).0, Strip(n, e).1 - e)
    decreases 9 - e
  {
    if n % 10 == 0 && e < 9 { StripIs(n / 10, e + 1); }
  }

  /** A stripped number with its factors put back strips to itself. */
  lemma {:induction false} StripScale(m: nat, d: nat, e: nat)
    requires Stripped(m, d) && e <= d <= 9
    ensures Strip(Scale(m, d - e), e) == (m, d) && Scale(m, d - e) > 0
    decreases d - e
  {
    hide Stripped;
    if e == d {
      StripNone(m, d);
    } else {
      StripScale(m, d, e + 1);
      var k := Scale(m, d - e - 1);
      assert Scale(m, d - e) == 10 * k && 10 * k % 10 == 0 && 10 * k / 10 == k;
    }
  }

  lemma StripNone(m: nat, e: nat)
    requires Stripped(m, e)
    ensures Strip(m, e) == (m, e) && Scale(m, 0) > 0
  {
  }

  function Compressed(n: nat): int {
    if n == 0 then 0 else Code(Strip(n, 0).0, Strip(n, 0).1)
  }

  function Decompressed(x: nat): nat {
    if x == 0 then 0 else Scale(Decode(x).0, Decode(x).1)
  }

  /** Compression is one to one and onto: each of the two undoes the other. */
  lemma AmountRoundTrip(n: nat)
    ensures Compressed(n) >= 0 && Decompressed(Compressed(n)) == n
    ensures Compressed(Decompressed(n)) == n
  {
    hide Code, Decode, Stripped;
    if n > 0 {
      StripIs(n, 0);
      CodeRoundTrip(Strip(n, 0).0, Strip(n, 0).1);
      DecodeRoundTrip(n);
      StripScale(Decode(n).0, Decode(n).1, 0);
    }
  }

  /** The amounts the tests list. */
  lemma AmountTable()
    ensures Compressed(0) == 0 && Compressed(1) == 1 && Compressed(1_000_000) == 7 && Compressed(100_000_000) == 9
    ensures Compressed(50 * 100_000_000) == 0x32 && Compressed(21_000_000 * 100_000_000) == 0x140_6f40
  {
    hide Compressed;
    assert Decompressed(0) == 0 && Decompressed(1) == 1 && Decompressed(7) == 1_000_000;
    assert Decompressed(9) == 100_000_000 && Decompressed(0x32) == 50 * 100_000_000;
    assert Decompressed(0x140_6f40) == 21_000_000 * 100_000_000;
    AmountRoundTrip(0); AmountRoundTrip(1); AmountRoundTrip(7);
    AmountRoundTrip(9); AmountRoundTrip(0x32); AmountRoundTrip(0x140_6f40);
  }

  // --- In 64-bit words ---

  /** n, m and e while factors of ten are stripped. */
  method CompressAmount(n0: nat) returns (x: nat)
    requires n0 < MAX64
    ensures x == Compressed(n0) % MAX64
  {
    if n0 == 0 {
      return 0;
    }
    StripIs(n0, 0);
    var n, e := n0, 0;
    while n % 10 == 0 && e < 9
      invariant 0 <= e <= 9 && 0 <= n < MAX64 && Strip(n, e) == Strip(n0, 0)
      decreases 9 - e
    {
      n := n / 10;
      e := e + 1;
    }
    if e < 9 {
      var d := n % 10;
      assert 1 <= d <= 9;
      n := n / 10;
      x := (1 + (n * 9 + d - 1) * 10 + e) % MAX64;
    } else {
      x := (1 + (n - 1) * 10 + 9) % MAX64;
    }
  }

  method DecompressAmount(x0: nat) returns (n: nat)
    requires x0 < MAX64
    ensures n == Decompressed(x0) % MAX64
  {
    hide Scale;
    if x0 == 0 {
      return 0;
    }
    var x := x0 - 1;
    var e := x % 10;
    x := x / 10;
    n := 0;
    if e < 9 {
      var d := x % 9 + 1;
      x := x / 9;
      n := x * 10 + d;
    } else {
      n := x + 1;
    }
    ghost var m: nat, e0 := n, e;
    assert Decode(x0) == (m, e0);
    ScaleStep(m, 0);
    while e > 0
      invariant 0 <= e <= e0
      invariant n == Scale(m, e0 - e) % MAX64
    {
      ScaleWraps(Scale(m, e0 - e));
      ScaleStep(m, e0 - e);
      n := n * 10 % MAX64;
      e := e - 1;
    }
  }

  lemma ScaleStep(m: nat, e: nat)
    ensures Scale(m, 0) == m && Scale(m, e + 1) == 10 * Scale(m, e)
  {
  }

  lemma ScaleWraps(k: nat)
    ensures k % MAX64 * 10 % MAX64 == 10 * k % MAX64
  {
    var q, r := k / MAX64, k % MAX64;
    assert k == q * MAX64 + r;
    assert 10 * k == 10 * q * MAX64 + 10 * r;
  }

  lemma {:induction false} ScaleGrows(m: nat, e: nat)
    ensures Scale(m, e) >= m
  {
    if e > 0 { ScaleGrows(m, e - 1); }
  }

  /** A code is at most nine times the amount. */
  lemma CompressedAtMost(n: nat)
    ensures 0 <= Compressed(n) <= 9 * n || n == 0
  {
    if n > 0 {
      StripIs(n, 0);
      var m, e := Strip(n, 0).0, Strip(n, 0).1;
      CodeRoundTrip(m, e);
      CodeAtMost(m, e);
    }
  }

  lemma CodeAtMost(m: nat, e: nat)
    requires Stripped(m, e)
    ensures Code(m, e) <= 9 * Scale(m, e)
  {
    assert Code(m, e) <= 10 * m + e;
    if e == 0 {
      assert m == 10 * (m / 10) + m % 10;
    } else {
      ScaleGrows(m, e - 1);
    }
  }

  /** In 64-bit words the round trip holds wherever the code fits a word. */
  lemma RoundTrip64(n: nat)
    requires n < MAX64 && 0 <= Compressed(n) < MAX64
    ensures Decompressed(Compressed(n) % MAX64) % MAX64 == n
  {
    hide Compressed, Decompressed;
    AmountRoundTrip(n);
  }

  /** It does for every amount up to a ninth of the range. */
  lemma SafeAmounts(n: nat)
    requires 9 * n < MAX64
    ensures 0 <= Compressed(n) < MAX64 && Decompressed(Compressed(n) % MAX64) % MAX64 == n
  {
    hide Compressed, Decompressed;
    CompressedAtMost(n);
    if n == 0 { ZeroAmount(); }
    RoundTrip64(n);
  }

  lemma ZeroAmount()
    ensures Compressed(0) == 0
  {
  }
}
