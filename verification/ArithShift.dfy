/** Shifts, comparison and bit length of limb numbers. */
module ArithShift {
  import opened Powers
  import opened Limbs
  import opened Arith

  lemma BaseIsPow()
    ensures Pow(2, 32) == BASE
  {
    assert Pow(2, 8) == 256;
    PowAdd(2, 8, 8);
    assert Pow(2, 16) == 0x10000;
    PowAdd(2, 16, 16);
  }

  lemma {:induction false} BasePow(k: nat)
    ensures Pow(BASE, k) == Pow(2, 32 * k)
  {
    if k > 0 {
      BasePow(k - 1);
      BaseIsPow();
      PowAdd(2, 32, 32 * (k - 1));
    }
  }

  lemma ShiftSplit(shift: nat)
    ensures Pow(2, shift) == Pow(BASE, shift / 32) * Pow(2, shift % 32)
  {
    BasePow(shift / 32);
    PowAdd(2, 32 * (shift / 32), shift % 32);
  }

  /** A limb cut at bit 32 - sh and moved up by sh bits: the high part leaves the limb. */
  lemma CutLeft(x: Limb, sh: nat, e: int, f: int)
    requires sh <= 32 && e == Pow(2, sh) && f == Pow(2, 32 - sh)
    ensures e >= 1 && f >= 1 && e * f == BASE
    ensures 0 <= x / f < e
    ensures x * e % BASE == (x % f) * e
    ensures (x / f) * BASE + (x % f) * e == x * e
    ensures (x % f) * e <= BASE - e
  {
    PowPositive(2, sh); PowPositive(2, 32 - sh);
    PowAdd(2, sh, 32 - sh); BaseIsPow();
    DivModFacts(x, f);
    CutAlgebra(x, e, f, x / f, x % f);
  }

  lemma CutAlgebra(x: nat, e: nat, f: nat, h: nat, l: nat)
    requires e >= 1 && f >= 1 && e * f == BASE && x < BASE && x == h * f + l && l < f
    ensures h < e
    ensures x * e % BASE == l * e
    ensures h * BASE + l * e == x * e
    ensures l * e <= BASE - e
  {
    if h >= e { MulMono(e, h, f); }
    assert x * e == h * (e * f) + l * e by {
      assert (h * f + l) * e == h * f * e + l * e;
      assert h * f * e == h * (e * f);
    }
    MulMono(l + 1, f, e);
    assert (l + 1) * e == l * e + e && f * e == e * f;
    MulNonneg(l, e);
    DivModUnique(x * e, BASE, h, l * e);
  }

  lemma LeftAlgebra(hi: int, lo: int, x: int, e: int, p: int)
    requires hi * BASE + lo == x * e
    ensures hi * (BASE * p) + lo * p == x * e * p
  {
    assert (hi * BASE + lo) * p == hi * (BASE * p) + lo * p;
  }

  /** Moves one limb x to position m, sh bits up, leaving the high bits in the next limb. */
  method PutLeft(pn: array<Limb>, x: Limb, m: nat, sh: nat) returns (ghost dropped: int)
    requires sh < 32
    requires forall j :: m < j < pn.Length ==> pn[j] == 0
    requires m < pn.Length ==> pn[m] < Pow(2, sh)
    modifies pn
    ensures forall j :: m + 1 < j < pn.Length ==> pn[j] == 0
    ensures m + 1 < pn.Length ==> pn[m + 1] < Pow(2, sh)
    ensures Val(pn[..]) + dropped * Pow(BASE, pn.Length) == old(Val(pn[..])) + x * Pow(2, sh) * Pow(BASE, m)
  {
    hide Val, Pow, Or;
    var e, f := Pow(2, sh), Pow(2, 32 - sh);
    CutLeft(x, sh, e, f);
    ghost var s := pn[..];
    ghost var hi, lo, p := x / f, x * e % BASE, Pow(BASE, m);
    LeftAlgebra(hi, lo, x, e, p);
    assert Pow(BASE, m + 1) == BASE * p by { PowNext(m); }
    if sh == 0 { NoShift(x); }
    if m + 1 < pn.Length && sh != 0 {
      OrDisjoint(0, x / f, sh, 0);
      pn[m + 1] := Or(pn[m + 1], x / f);
      assert pn[..] == s[m + 1 := pn[m + 1]];
    }
    ghost var t := pn[..];
    if m + 1 < pn.Length {
      ValUpdate(s, m + 1, t[m + 1]);
      assert sh == 0 ==> s == t && hi == 0;
    }
    if m < pn.Length {
      OrDisjoint(lo, pn[m], sh, x % f);
      pn[m] := Or(pn[m], x * e % BASE);
      assert pn[..] == t[m := pn[m]];
      ValUpdate(t, m, pn[m]);
      dropped := if m + 1 < pn.Length then 0 else hi;
    } else {
      PowAdd(BASE, m - pn.Length, pn.Length);
      dropped := x * e * Pow(BASE, m - pn.Length);
      Regroup(x * e, Pow(BASE, m - pn.Length), Pow(BASE, pn.Length));
    }
  }

  lemma PowNext(m: nat)
    ensures Pow(BASE, m + 1) == BASE * Pow(BASE, m)
  {
  }

  lemma Regroup(a: int, b: int, c: int)
    ensures a * b * c == a * (b * c)
  {
  }

  lemma ShiftedSoFar(v: int, v': int, k: int, d: int, y: int, x: int, e: int, p: int, q: int, m: int)
    requires v + k * m == y * (q * e) && v' + d * m == v + x * e * (p * q)
    ensures v' + (k + d) * m == (y + x * p) * (q * e)
  {
    assert (k + d) * m == k * m + d * m;
    assert (y + x * p) * (q * e) == y * (q * e) + x * e * (p * q);
  }

  /** Shifting left multiplies by a power of two and drops what leaves the width. */
  method ShiftLeft(pn: array<Limb>, shift: nat)
    modifies pn
    ensures Val(pn[..]) == (old(Val(pn[..])) * Pow(2, shift)) % Modulus(pn.Length)
  {
    ghost var s := pn[..];
    var a := Copy(pn);
    Clear(pn);
    var k, sh := shift / 32, shift % 32;
    ghost var over, q, e := 0, Pow(BASE, k), Pow(2, sh);
    PowPositive(2, sh);
    var i := 0;
    while i < pn.Length
      invariant 0 <= i <= pn.Length && a[..] == s
      invariant forall j :: i + k < j < pn.Length ==> pn[j] == 0
      invariant i + k < pn.Length ==> pn[i + k] < e
      invariant Val(pn[..]) + over * Pow(BASE, pn.Length) == Val(s[..i]) * (q * e)
    {
      ghost var v := Val(pn[..]);
      ghost var d := PutLeft(pn, a[i], i + k, sh);
      ValSnoc(s, i);
      PowAdd(BASE, i, k);
      ShiftedSoFar(v, Val(pn[..]), over, d, Val(s[..i]), s[i], e, Pow(BASE, i), q, Pow(BASE, pn.Length));
      over := over + d;
      i := i + 1;
    }
    assert s[..i] == s;
    ShiftSplit(shift);
    Wrapped(Val(pn[..]), Val(s) * Pow(2, shift), over, pn[..]);
  }

  lemma RightAlgebra(v: int, v': int, y: int, hi: int, lo: int, x: int, e: int, f: int, p: int, q: int, rem: int)
    requires e * f == BASE && x == hi * e + lo
    requires y == v * (q * e) + rem
    requires v' == v + lo * f * p + hi * (BASE * p)
    ensures y + x * (BASE * (p * q)) == v' * (q * e) + rem
  {
    var z := lo * f * p + hi * (BASE * p);
    assert lo * f * p * (q * e) == lo * (e * f) * (p * q);
    assert hi * (BASE * p) * (q * e) == hi * e * (BASE * (p * q));
    assert z * (q * e) == lo * f * p * (q * e) + hi * (BASE * p) * (q * e);
    assert (v + z) * (q * e) == v * (q * e) + z * (q * e);
    assert (hi * e + lo) * (BASE * (p * q)) == hi * e * (BASE * (p * q)) + lo * BASE * (p * q);
  }

  lemma NoShift(x: int)
    ensures Pow(2, 0) == 1 && x % 1 == 0
  {
  }

  /** Moves one limb x to position m, sh bits down, leaving the low bits in the limb below. */
  method PutRight(pn: array<Limb>, x: Limb, m: nat, sh: nat)
    requires sh < 32 && m < pn.Length
    requires forall j :: m <= j < pn.Length ==> pn[j] == 0
    requires m > 0 ==> pn[m - 1] < Pow(2, 32 - sh)
    modifies pn
    ensures forall j :: m < j < pn.Length ==> pn[j] == 0
    ensures pn[m] < Pow(2, 32 - sh)
    ensures Val(pn[..]) == old(Val(pn[..])) + (x / Modulus2(sh)) * Pow(BASE, m)
      + (if m == 0 then 0 else (x % Modulus2(sh)) * Pow(2, 32 - sh) * Pow(BASE, m - 1))
  {
    hide Val, Pow, Or;
    var e, f := Modulus2(sh), Pow(2, 32 - sh);
    CutLeft(x, 32 - sh, f, e);
    ghost var s := pn[..];
    if sh == 0 { NoShift(x); }
    if m - 1 >= 0 && sh != 0 {
      OrDisjoint(x * f % BASE, pn[m - 1], 32 - sh, x % e);
      pn[m - 1] := Or(pn[m - 1], x * f % BASE);
      assert pn[..] == s[m - 1 := pn[m - 1]];
      ValUpdate(s, m - 1, pn[m - 1]);
    }
    ghost var t := pn[..];
    OrDisjoint(0, x / e, 32 - sh, 0);
    pn[m] := Or(pn[m], x / e);
    assert pn[..] == t[m := pn[m]];
    ValUpdate(t, m, pn[m]);
  }

  function Modulus2(n: nat): (r: int)
    ensures r == Pow(2, n) && r >= 1
  {
    PowPositive(2, n);
    Pow(2, n)
  }

  lemma RightFirst(y: int, x: int, e: int, q: int, lo: int)
    requires e >= 1 && x >= 0 && 0 <= lo < q && y == lo + x * q
    ensures 0 <= y - (x / e) * (q * e) < q * e
  {
    DivModFacts(x, e);
    assert x * q == (x / e) * (q * e) + (x % e) * q by {
      assert (x / e * e + x % e) * q == x / e * e * q + (x % e) * q;
      assert x / e * e * q == (x / e) * (q * e);
    }
    MulNonneg(x % e, q);
    MulMono(x % e + 1, e, q);
    assert (x % e + 1) * q == (x % e) * q + q;
  }

  /** What one more limb leaves of the dividend: nothing changes but the first limb's low bits. */
  lemma RightStep(s: seq<Limb>, i: nat, k: nat, sh: nat, v: int, v': int)
    requires i < |s| && k <= i && sh < 32
    requires i == k ==> v == 0
    requires i > k ==> 0 <= Val(s[..i]) - v * (Pow(BASE, k) * Pow(2, sh)) < Pow(BASE, k) * Pow(2, sh)
    requires v' == v + (s[i] / Modulus2(sh)) * Pow(BASE, i - k)
      + (if i == k then 0 else (s[i] % Modulus2(sh)) * Pow(2, 32 - sh) * Pow(BASE, i - k - 1))
    ensures 0 <= Val(s[..i + 1]) - v' * (Pow(BASE, k) * Pow(2, sh)) < Pow(BASE, k) * Pow(2, sh)
  {
    hide Val;
    var e, f, q := Modulus2(sh), Pow(2, 32 - sh), Pow(BASE, k);
    ValSnoc(s, i);
    if i == k {
      ValBound(s[..i]);
      RightFirst(Val(s[..i + 1]), s[i], e, q, Val(s[..i]));
    } else {
      var p := Pow(BASE, i - k - 1);
      PowAdd(BASE, i - k - 1, k);
      PowAdd(2, sh, 32 - sh); BaseIsPow();
      DivModFacts(s[i], e);
      RightAlgebra(v, v', Val(s[..i]), s[i] / e, s[i] % e, s[i], e, f, p, q, Val(s[..i]) - v * (q * e));
    }
  }

  /** Shifting right is division by a power of two. */
  method ShiftRight(pn: array<Limb>, shift: nat)
    modifies pn
    ensures Val(pn[..]) == old(Val(pn[..])) / Modulus2(shift)
  {
    hide Val;
    ghost var s := pn[..];
    var a := Copy(pn);
    Clear(pn);
    var k, sh := shift / 32, shift % 32;
    ghost var d := Pow(BASE, k) * Pow(2, sh);
    var i := 0;
    while i < pn.Length
      invariant 0 <= i <= pn.Length && a[..] == s
      invariant forall j: nat :: i - k <= j < pn.Length ==> pn[j] == 0
      invariant i > k ==> pn[i - k - 1] < Pow(2, 32 - sh)
      invariant i <= k ==> Val(pn[..]) == 0
      invariant i > k ==> 0 <= Val(s[..i]) - Val(pn[..]) * d < d
    {
      if i - k >= 0 {
        ghost var v := Val(pn[..]);
        PutRight(pn, a[i], i - k, sh);
        RightStep(s, i, k, sh, v, Val(pn[..]));
      }
      i := i + 1;
    }
    assert s[..i] == s;
    ShiftSplit(shift);
    ShiftedRight(s, k, sh, Val(pn[..]));
  }

  lemma ShiftedRight(s: seq<Limb>, k: nat, sh: nat, v: int)
    requires |s| <= k ==> v == 0
    requires |s| > k ==> 0 <= Val(s) - v * (Pow(BASE, k) * Pow(2, sh)) < Pow(BASE, k) * Pow(2, sh)
    ensures Pow(BASE, k) * Pow(2, sh) >= 1
    ensures v == Val(s) / (Pow(BASE, k) * Pow(2, sh))
  {
    hide Val;
    var q, e := Pow(BASE, k), Pow(2, sh);
    PowPositive(2, sh); PowPositive(BASE, k);
    MulAtLeast(e, q);
    if |s| <= k {
      ValBound(s);
      PowMono(BASE, |s|, k);
      DivModUnique(Val(s), q * e, 0, Val(s));
    } else {
      DivModUnique(Val(s), q * e, v, Val(s) - v * (q * e));
    }
  }

  /** Two numbers that agree above limb i and differ at it compare as that limb does. */
  lemma TopDecides(s: seq<Limb>, t: seq<Limb>, i: nat)
    requires |s| == |t| && i < |s| && s[i] < t[i]
    requires forall k :: i < k < |s| ==> s[k] == t[k]
    ensures Val(s) < Val(t)
  {
    hide Val, Pow;
    ValSplit(s, i + 1); ValSplit(t, i + 1);
    assert s[i + 1..] == t[i + 1..];
    ValSnoc(s, i); ValSnoc(t, i);
    ValBound(s[..i]);
    GapAtLeast(s[i], t[i], Modulus(i));
  }

  lemma GapAtLeast(x: int, y: int, p: int)
    requires x < y && p >= 0
    ensures x * p + p <= y * p
  {
    MulMono(x + 1, y, p);
    assert (x + 1) * p == x * p + p;
  }

  method CompareTo(pn: array<Limb>, b: array<Limb>) returns (r: int)
    requires pn.Length == b.Length
    ensures r == if Val(pn[..]) < Val(b[..]) then -1 else if Val(pn[..]) > Val(b[..]) then 1 else 0
  {
    hide Val;
    var i := pn.Length - 1;
    while i >= 0
      invariant -1 <= i < pn.Length
      invariant forall k :: i < k < pn.Length ==> pn[k] == b[k]
    {
      if pn[i] < b[i] {
        TopDecides(pn[..], b[..], i);
        return -1;
      }
      if pn[i] > b[i] {
        TopDecides(b[..], pn[..], i);
        return 1;
      }
      i := i - 1;
    }
    assert pn[..] == b[..];
    return 0;
  }

  /** Position of the highest set bit plus one, or zero for zero. */
  ghost predicate IsBits(v: nat, n: nat) {
    v < Pow(2, n) && (n > 0 ==> Pow(2, n - 1) <= v)
  }

  lemma TopLimb(s: seq<Limb>, pos: nat, bits: nat)
    requires pos < |s| && forall k :: pos < k < |s| ==> s[k] == 0
    requires Pow(2, bits) <= s[pos] < Pow(2, bits + 1)
    ensures IsBits(Val(s), 32 * pos + bits + 1)
  {
    hide Val;
    ValSplit(s, pos + 1);
    ValZero(s[pos + 1..]);
    ValSnoc(s, pos);
    ValBound(s[..pos]);
    BasePow(pos);
    var p := Modulus(pos);
    PowAdd(2, 32 * pos, bits);
    PowAdd(2, 32 * pos, bits + 1);
    var x: int := s[pos];
    MulMono(x + 1, Pow(2, bits + 1), p);
    MulMono(Pow(2, bits), x, p);
    assert (x + 1) * p == x * p + p;
    assert p * Pow(2, bits) == Pow(2, bits) * p && p * Pow(2, bits + 1) == Pow(2, bits + 1) * p;
  }

  /** The bit length of one nonzero limb. */
  method TopBit(x: Limb) returns (bits: nat)
    requires x > 0
    ensures bits < 32 && Pow(2, bits) <= x < Pow(2, bits + 1)
  {
    BaseIsPow();
    bits := 31;
    while bits > 0
      invariant bits <= 31
      invariant x < Pow(2, bits + 1)
    {
      if x / Modulus2(bits) % 2 == 1 {
        DivModFacts(x, Modulus2(bits));
        MulMono(1, x / Modulus2(bits), Modulus2(bits));
        return;
      }
      BitClear(x, bits);
      bits := bits - 1;
    }
  }

  lemma BitClear(x: nat, bits: nat)
    requires x < Pow(2, bits + 1) && x / Modulus2(bits) % 2 != 1
    ensures x < Pow(2, bits)
  {
    var e := Modulus2(bits);
    DivModFacts(x, e);
    if x / e >= 2 { MulMono(2, x / e, e); }
  }

  method Bits(pn: array<Limb>) returns (n: nat)
    ensures IsBits(Val(pn[..]), n) && n <= 32 * pn.Length
  {
    hide Val;
    var pos := pn.Length - 1;
    while pos >= 0
      invariant -1 <= pos < pn.Length
      invariant forall k :: pos < k < pn.Length ==> pn[k] == 0
    {
      if pn[pos] != 0 {
        var bits := TopBit(pn[pos]);
        TopLimb(pn[..], pos, bits);
        return 32 * pos + bits + 1;
      }
      pos := pos - 1;
    }
    ValZero(pn[..]);
    return 0;
  }
}
