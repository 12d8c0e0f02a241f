/** The Base58 conversion loops, proved against what the text means. */
module Base58Codec {
  import opened Basics
  import opened Powers
  import opened Radix
  import opened Base58

  /** Counts leading elements that satisfy p, from position i on. */
  method CountFrom<T>(s: seq<T>, i: nat, p: T -> bool) returns (n: nat)
    requires i <= |s|
    ensures n == Span(s[i..], p)
  {
    hide Span;
    n := 0;
    while i + n < |s| && p(s[i + n])
      invariant i + n <= |s|
      invariant forall k :: 0 <= k < n ==> p(s[i..][k])
    {
      n := n + 1;
    }
    SpanIs(s[i..], p, n);
  }

  /** A buffer is its leading zeros and the digits of its value. */
  lemma BufferDigits(b: nat, s: seq<nat>, from: nat, n: nat)
    requires b >= 2 && AllBelow(b, s) && from <= |s|
    requires forall k :: 0 <= k < from ==> s[k] == 0
    requires n == Span(s[from..], IsZero)
    ensures from + n <= |s| && s[from + n..] == Digits(b, Value(b, s))
  {
    hide Value, Digits, Span;
    var t := s[from..];
    LeadingZeros(t, n);
    var rest := s[from + n..];
    assert t[n..] == rest;
    assert s == Zeros(from + n) + rest by {
      forall k | 0 <= k < from + n ensures s[k] == 0 { if k >= from { assert t[k - from] == Zeros(n)[k - from]; } }
    }
    ValueZeros(b, from + n, rest);
    DigitsOfValue(b, rest);
  }

  lemma EncodeFits(rest: seq<nat>, j: nat)
    requires AllBelow(256, rest) && j < |rest|
    ensures Value(256, rest[..j + 1]) == Value(256, rest[..j]) * 256 + rest[j] < Pow(58, |rest| * 138 / 100 + 1)
  {
    hide Pow;
    assert rest[..j + 1] == rest[..j] + [rest[j]];
    ValueSnoc(256, rest[..j], rest[j]);
    ValueBound(256, rest[..j + 1]);
    PowMono(256, j + 1, |rest|);
    EncodeRoom(|rest|);
  }

  /** The base 58 digits of a byte string. */
  method ToBase58(rest: seq<nat>) returns (digits: seq<nat>)
    requires AllBelow(256, rest)
    ensures digits == Digits(58, Value(256, rest))
  {
    hide Value, Digits, Span, Pow;
    var size := |rest| * 138 / 100 + 1;
    var b58 := new nat[size](_ => 0);
    var length, j := 0, 0;
    assert rest[..0] == [];
    EmptyValue(256, rest[..0]);
    assert Value(58, b58[..]) == 0 by {
      assert b58[..] == Zeros(size) + [];
      ValueZeros(58, size, []);
      EmptyValue(58, []);
    }
    while j < |rest|
      invariant 0 <= j <= |rest|
      invariant AllBelow(58, b58[..]) && Within(b58[..], length)
      invariant Value(58, b58[..]) == Value(256, rest[..j])
    {
      EncodeFits(rest, j);
      length := MulAdd(b58, 58, 256, rest[j], length);
      j := j + 1;
    }
    assert rest[..j] == rest;
    var n := CountFrom(b58[..], size - length, IsZero);
    BufferDigits(58, b58[..], size - length, n);
    digits := b58[size - length + n..];
  }

  method EncodeBase58(v: seq<nat>) returns (t: string)
    requires AllBelow(256, v)
    ensures t == Encoded(v)
  {
    hide Value, Digits, Span;
    var zeroes := CountFrom(v, 0, IsZero);
    assert v[0..] == v;
    var digits := ToBase58(v[zeroes..]);
    t := seq(zeroes, _ => '1');
    ghost var all := Zeros(zeroes) + digits;
    assert CharOf(0) == '1';
    var i := 0;
    while i < |digits|
      invariant 0 <= i <= |digits|
      invariant t == Chars(all[..zeroes + i])
    {
      t := t + [CharOf(digits[i])];
      i := i + 1;
    }
    assert all[..zeroes + i] == all;
  }

  lemma DecodeFits(t: seq<nat>, j: nat, n: nat)
    requires AllBelow(58, t) && j < |t| <= n
    ensures Value(58, t[..j + 1]) == Value(58, t[..j]) * 58 + t[j] < Pow(256, n * 733 / 1000 + 1)
  {
    hide Pow;
    assert t[..j + 1] == t[..j] + [t[j]];
    ValueSnoc(58, t[..j], t[j]);
    ValueBound(58, t[..j + 1]);
    PowMono(58, j + 1, n);
    DecodeRoom(n);
  }

  /** Reads base 58 characters from position i up to a space or the end; failure on any other. */
  method FromBase58(s: string, i: nat) returns (ok: bool, bytes: seq<nat>, n: nat)
    requires i <= |s|
    ensures ok ==> n == Span(s[i..], NotSpace) && AllDigits(s[i..][..n])
    ensures ok ==> bytes == Digits(256, Value(58, DigitsOf(s[i..][..n])))
    ensures !ok ==> exists k :: 0 <= k < Span(s[i..], NotSpace) && DigitOf(s[i..][k]) < 0
  {
    hide Value, Digits, Span, Pow, DigitOf;
    var t := s[i..];
    var size := |t| * 733 / 1000 + 1;
    var b256 := new nat[size](_ => 0);
    n := 0;
    assert Value(256, b256[..]) == 0 by {
      assert b256[..] == Zeros(size) + [];
      ValueZeros(256, size, []);
      EmptyValue(256, []);
    }
    EmptyValue(58, DigitsOf(t[..0]));
    while n < |t| && !IsSpace(t[n])
      invariant 0 <= n <= |t|
      invariant forall k :: 0 <= k < n ==> NotSpace(t[k])
      invariant AllDigits(t[..n]) && AllBelow(256, b256[..])
      invariant Value(256, b256[..]) == Value(58, DigitsOf(t[..n]))
    {
      var d := DigitOf(t[n]);
      if d < 0 {
        SpanAtLeast(t, NotSpace, n + 1);
        return false, [], n;
      }
      TableRoundTrip(0, t[n]);
      MoreDigits(t, n);
      ghost var u := DigitsOf(t[..n + 1]);
      assert u[..n] == DigitsOf(t[..n]);
      assert u[..n + 1] == u;
      DecodeFits(u, n, |t|);
      var _ := MulAdd(b256, 256, 58, d, size);
      n := n + 1;
    }
    SpanIs(t, NotSpace, n);
    var z := CountFrom(b256[..], 0, IsZero);
    BufferDigits(256, b256[..], 0, z);
    return true, b256[z..], n;
  }

  lemma SpanAtLeast<T>(s: seq<T>, p: T -> bool, n: nat)
    requires n <= |s| && forall k :: 0 <= k < n ==> p(s[k])
    ensures n <= Span(s, p)
  {
  }

  lemma MoreDigits(t: string, n: nat)
    requires n < |t| && AllDigits(t[..n]) && DigitOf(t[n]) >= 0
    ensures AllDigits(t[..n + 1])
  {
    var w, v := t[..n + 1], t[..n];
    forall k | 0 <= k < |w| ensures DigitOf(w[k]) >= 0 {
      if k < n { assert w[k] == v[k]; }
    }
  }

  /** The pieces the decoder cuts the text into are the ones its meaning speaks of. */
  lemma Pieces(s: string, a: nat, z: nat, n: nat)
    requires a == Span(s, IsSpace) && z == Span(s[a..], IsOne) && n == Span(s[a + z..], NotSpace)
    ensures Span(s[a..], NotSpace) == z + n
    ensures z == Span(s[a..][..z + n], IsOne)
    ensures s[a..][..z + n][z..] == s[a + z..][..n] && s[a..][z + n..] == s[a + z + n..]
  {
    hide Span;
    var t := s[a..];
    assert t[z..] == s[a + z..];
    forall k | 0 <= k < z + n ensures NotSpace(t[k]) {
      if k < z { assert IsOne(t[k]); } else { assert t[k] == s[a + z..][k - z]; }
    }
    assert z + n < |t| ==> t[z + n] == s[a + z..][n];
    SpanIs(t, NotSpace, z + n);
    var w := t[..z + n];
    forall k | 0 <= k < z ensures IsOne(w[k]) { assert IsOne(t[k]); }
    SpanIs(w, IsOne, z);
  }

  lemma OnesAreDigits(w: string, z: nat)
    requires z <= |w| && forall k :: 0 <= k < z ==> IsOne(w[k])
    ensures AllDigits(w) <==> AllDigits(w[z..])
    ensures AllDigits(w) ==> DigitsOf(w)[z..] == DigitsOf(w[z..])
  {
    if AllDigits(w[z..]) {
      forall k | 0 <= k < |w| ensures DigitOf(w[k]) >= 0 {
        if k >= z { assert w[k] == w[z..][k - z]; } else { assert IsOne(w[k]); }
      }
    }
  }

  /** Decoding: succeeds exactly on texts with a meaning, and gives it. */
  method DecodeBase58(s: string) returns (ok: bool, v: seq<nat>)
    ensures ok <==> Decoded(s).Some?
    ensures ok ==> v == Decoded(s).value
  {
    hide Span, Decoded, AllDigits, DigitsOf, Digits, Value;
    v := [];
    var a := CountFrom(s, 0, IsSpace);
    assert s[0..] == s;
    var zeroes := CountFrom(s, a, IsOne);
    var n;
    ok, v, n := FromBase58(s, a + zeroes);
    if !ok {
      BadDigit(s, a, zeroes, a + zeroes);
      return false, [];
    }
    var trailing := CountFrom(s, a + zeroes + n, IsSpace);
    Parsed(s, a, zeroes, n, trailing);
    if a + zeroes + n + trailing != |s| {
      return false, [];
    }
    v := Zeros(zeroes) + v;
  }

  lemma BadDigit(s: string, a: nat, z: nat, i: nat)
    requires a == Span(s, IsSpace) && z == Span(s[a..], IsOne) && i == a + z
    requires exists k :: 0 <= k < Span(s[i..], NotSpace) && DigitOf(s[i..][k]) < 0
    ensures Decoded(s) == None
  {
    hide Span, DigitOf, Value, Digits;
    var n := Span(s[i..], NotSpace);
    Pieces(s, a, z, n);
    var w := s[a..][..z + n];
    var k :| 0 <= k < n && DigitOf(s[i..][k]) < 0;
    assert w[z + k] == s[i..][k];
  }

  /** What the pieces say of the whole text, once its word is known to be all digits. */
  lemma Parsed(s: string, a: nat, z: nat, n: nat, t: nat)
    requires a == Span(s, IsSpace) && z == Span(s[a..], IsOne) && n == Span(s[a + z..], NotSpace)
    requires a + z + n <= |s| && t == Span(s[a + z + n..], IsSpace) && AllDigits(s[a + z..][..n])
    ensures Decoded(s) ==
      if a + z + n + t == |s| then Some(Zeros(z) + Digits(256, Value(58, DigitsOf(s[a + z..][..n])))) else None
  {
    hide Span, DigitOf, Value, Digits, AllDigits, DigitsOf, Zeros;
    Pieces(s, a, z, n);
    var w := s[a..][..z + n];
    OnesAreDigits(w, z);
  }

  // --- With checksum ---

  /** The first four bytes of the double hash of a byte string. */
  type Checksum = seq<nat> -> seq<nat>

  ghost predicate FourBytes(check: Checksum) {
    forall v :: |check(v)| == 4 && AllBelow(256, check(v))
  }

  function EncodedCheck(check: Checksum, v: seq<nat>): string { Encoded(v + check(v)) }

  function DecodedCheck(check: Checksum, s: string): Option<seq<nat>> {
    match Decoded(s)
    case None => None
    case Some(v) =>
      if |v| < 4 || check(v[..|v| - 4]) != v[|v| - 4..] then None else Some(v[..|v| - 4])
  }

  lemma CheckRoundTrip(check: Checksum, v: seq<nat>)
    requires FourBytes(check) && AllBelow(256, v)
    ensures DecodedCheck(check, EncodedCheck(check, v)) == Some(v)
  {
    hide Encoded, Decoded;
    var x := v + check(v);
    DecodeEncode(x);
    assert x[..|x| - 4] == v && x[|x| - 4..] == check(v);
  }

  /** Only the text of a correctly checksummed byte string is accepted. */
  lemma CheckAccepts(check: Checksum, s: string)
    requires DecodedCheck(check, s).Some?
    ensures Word(s).Some? && EncodedCheck(check, DecodedCheck(check, s).value) == Word(s).value
  {
    hide Encoded, Decoded, Word;
    EncodeDecode(s);
    var v := Decoded(s).value;
    assert v == v[..|v| - 4] + v[|v| - 4..];
  }
}
