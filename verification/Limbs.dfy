/** The value of a number held as 32-bit limbs, least significant first (base_uint in
    src/arith_uint256.h), and how it changes as limbs are written. */
module Limbs {
  import opened Powers

  const BASE := 0x1_0000_0000
  type Limb = x: int | 0 <= x < 0x1_0000_0000

  ghost function Val(s: seq<Limb>): nat {
    if s == [] then 0 else s[0] + BASE * Val(s[1..])
  }

  lemma {:induction false} ValAppend(s: seq<Limb>, t: seq<Limb>)
    ensures Val(s + t) == Val(s) + Pow(BASE, |s|) * Val(t)
  {
    if s == [] {
      assert s + t == t;
    } else {
      ValAppend(s[1..], t);
      assert (s + t)[1..] == s[1..] + t;
      assert BASE * (Pow(BASE, |s| - 1) * Val(t)) == (BASE * Pow(BASE, |s| - 1)) * Val(t);
    }
  }

  lemma ValSnoc(s: seq<Limb>, i: nat)
    requires i < |s|
    ensures Val(s[..i + 1]) == Val(s[..i]) + s[i] * Pow(BASE, i)
  {
    assert s[..i + 1] == s[..i] + [s[i]];
    ValAppend(s[..i], [s[i]]);
    assert Val([s[i]]) == s[i];
  }

  lemma ValSplit(s: seq<Limb>, i: nat)
    requires i <= |s|
    ensures Val(s) == Val(s[..i]) + Pow(BASE, i) * Val(s[i..])
  {
    assert s == s[..i] + s[i..];
    ValAppend(s[..i], s[i..]);
  }

  lemma {:induction false} ValBound(s: seq<Limb>)
    ensures Val(s) < Pow(BASE, |s|)
  {
    if s != [] {
      ValBound(s[1..]);
    }
  }

  lemma Distribute(p: int, a: int, b: int)
    ensures p * (a + b) == p * a + b * p
  {
  }

  lemma {:induction false} ValUpdate(s: seq<Limb>, i: nat, x: Limb)
    requires i < |s|
    ensures Val(s[i := x]) == Val(s) + (x - s[i]) * Pow(BASE, i)
  {
    var t := s[i := x];
    ValSplit(s, i); ValSplit(t, i);
    assert t[..i] == s[..i] && t[i..][1..] == s[i..][1..];
    assert Val(t[i..]) == Val(s[i..]) + (x - s[i]);
    Distribute(Pow(BASE, i), Val(s[i..]), x - s[i]);
  }

  lemma {:induction false} ValZero(s: seq<Limb>)
    ensures Val(s) == 0 <==> forall k :: 0 <= k < |s| ==> s[k] == 0
  {
    if s != [] {
      ValZero(s[1..]);
      assert forall k :: 0 <= k < |s| - 1 ==> s[1..][k] == s[k + 1];
      if forall k :: 0 <= k < |s[1..]| ==> s[1..][k] == 0 {
        forall k | 1 <= k < |s| ensures s[k] == 0 { assert s[1..][k - 1] == 0; }
      } else {
        var k :| 0 <= k < |s[1..]| && s[1..][k] != 0;
        assert s[k + 1] != 0;
      }
    }
  }

  /** Splitting a sum into a limb and a carry loses nothing. */
  lemma CarryStep(n: nat, p: nat)
    ensures (n % BASE) * p + (n / BASE) * (BASE * p) == n * p
  {
    assert (n / BASE) * (BASE * p) == (n / BASE * BASE) * p;
    assert (n % BASE) * p + (n / BASE * BASE) * p == (n % BASE + n / BASE * BASE) * p;
  }

  /** 2^(32*n), one more than the largest value n limbs hold. */
  ghost function Modulus(n: nat): (r: int)
    ensures r == Pow(BASE, n) && r >= 1
  {
    PowPositive(BASE, n);
    Pow(BASE, n)
  }

  /** A value below the modulus that differs from x by a multiple of it is x modulo it. */
  lemma Wrapped(v: int, x: int, k: int, s: seq<Limb>)
    requires v == Val(s) && v + k * Modulus(|s|) == x
    ensures v == x % Modulus(|s|)
  {
    ValBound(s);
    DivModUnique(x, Modulus(|s|), k, v);
  }
}
