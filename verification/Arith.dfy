/** The in-place limb operations of base_uint. Every operation is stated on the value of the
    limbs, modulo 2^(32 * width). */
module Arith {
  import opened Powers
  import opened Limbs

  method Clear(pn: array<Limb>)
    modifies pn
    ensures Val(pn[..]) == 0 && forall k :: 0 <= k < pn.Length ==> pn[k] == 0
  {
    var i := 0;
    while i < pn.Length
      invariant 0 <= i <= pn.Length
      invariant forall k :: 0 <= k < i ==> pn[k] == 0
    {
      pn[i] := 0;
      i := i + 1;
    }
    ValZero(pn[..]);
  }

  method Copy(b: array<Limb>) returns (c: array<Limb>)
    ensures fresh(c) && c[..] == b[..]
  {
    c := new Limb[b.Length];
    var i := 0;
    while i < b.Length
      invariant 0 <= i <= b.Length
      invariant c[..i] == b[..i]
    {
      c[i] := b[i];
      i := i + 1;
    }
  }

  lemma AddStep(v: int, v0: int, b0: int, carry: nat, x: nat, y: nat, p: nat, n: nat)
    requires n == carry + x + y
    requires v + carry * p == v0 + b0
    ensures v + (n % BASE) * p + (n / BASE) * (BASE * p) == v0 + x * p + (b0 + y * p)
  {
    CarryStep(n, p);
    assert n * p == carry * p + x * p + y * p;
  }

  /** Schoolbook addition with carry wraps at the width; the operands may be one object. */
  method Add(pn: array<Limb>, b: array<Limb>)
    requires pn.Length == b.Length
    modifies pn
    ensures Val(pn[..]) == (old(Val(pn[..])) + old(Val(b[..]))) % Modulus(pn.Length)
  {
    ghost var s, t := pn[..], b[..];
    var carry: int := 0;
    var i := 0;
    while i < pn.Length
      invariant 0 <= i <= pn.Length
      invariant 0 <= carry <= 1
      invariant forall k :: i <= k < pn.Length ==> pn[k] == s[k] && b[k] == t[k]
      invariant Val(pn[..i]) + carry * Pow(BASE, i) == Val(s[..i]) + Val(t[..i])
    {
      var n := carry + pn[i] + b[i];
      ghost var x, y := pn[i], b[i];
      ghost var was := pn[..i];
      pn[i] := n % BASE;
      AddStep(Val(was), Val(s[..i]), Val(t[..i]), carry, x, y, Modulus(i), n);
      ValSnoc(pn[..], i); ValSnoc(s, i); ValSnoc(t, i);
      assert pn[..][..i] == was && pn[..][..i + 1] == pn[..i + 1];
      carry := n / BASE;
      i := i + 1;
    }
    assert pn[..i] == pn[..] && s[..i] == s && t[..i] == t;
    Wrapped(Val(pn[..]), Val(s) + Val(t), carry, pn[..]);
  }

  /** One's complement: every limb inverted. */
  method Complement(b: array<Limb>) returns (c: array<Limb>)
    ensures fresh(c) && c.Length == b.Length
    ensures Val(c[..]) == Modulus(b.Length) - 1 - Val(b[..])
  {
    c := new Limb[b.Length];
    var i := 0;
    while i < b.Length
      invariant 0 <= i <= b.Length
      invariant Val(c[..i]) + Val(b[..i]) == Pow(BASE, i) - 1
    {
      ghost var was := c[..i];
      c[i] := BASE - 1 - b[i];
      ValSnoc(c[..], i); ValSnoc(b[..], i);
      assert c[..][..i] == was && c[..][..i + 1] == c[..i + 1];
      assert b[..][..i] == b[..i] && b[..][..i + 1] == b[..i + 1];
      ComplementStep(b[i], Pow(BASE, i));
      i := i + 1;
    }
    assert c[..i] == c[..] && b[..i] == b[..];
  }

  lemma ComplementStep(x: int, p: int)
    ensures (BASE - 1 - x) * p + x * p == BASE * p - p
  {
  }

  /** Prefix increment: carries through the limbs that wrapped to zero. */
  method Increment(pn: array<Limb>)
    requires pn.Length >= 1
    modifies pn
    ensures Val(pn[..]) == (old(Val(pn[..])) + 1) % Modulus(pn.Length)
  {
    ghost var s := pn[..];
    var i := 0;
    pn[0] := (pn[0] + 1) % BASE;
    ValUpdate(s, 0, pn[0]);
    assert pn[..] == s[0 := pn[0]];
    while pn[i] == 0 && i < pn.Length - 1
      invariant 0 <= i < pn.Length
      invariant Val(pn[..]) + (if pn[i] == 0 then Pow(BASE, i + 1) else 0) == Val(s) + 1
      decreases pn.Length - i
    {
      i := i + 1;
      ghost var was := pn[..];
      pn[i] := (pn[i] + 1) % BASE;
      ValUpdate(was, i, pn[i]);
      assert pn[..] == was[i := pn[i]];
      IncrementStep(was[i], Pow(BASE, i));
    }
    Wrapped(Val(pn[..]), Val(s) + 1, if pn[i] == 0 then 1 else 0, pn[..]);
  }

  lemma IncrementStep(x: Limb, p: int)
    ensures var y := (x + 1) % BASE;
      (y - x) * p + (if y == 0 then BASE * p else 0) == p
  {
    var y := (x + 1) % BASE;
    if y == 0 {
      assert x == BASE - 1;
    } else {
      assert y - x == 1;
    }
  }

  method Negate(b: array<Limb>) returns (c: array<Limb>)
    requires b.Length >= 1
    ensures fresh(c) && c.Length == b.Length
    ensures Val(c[..]) == (0 - Val(b[..])) % Modulus(b.Length)
  {
    c := Complement(b);
    ghost var v := Val(c[..]);
    Increment(c);
    ghost var m := Modulus(b.Length);
    SubModulus(v + 1, m);
  }

  lemma SubModulus(x: int, m: int)
    requires m > 0
    ensures x % m == (x - m) % m
  {
    DivModFacts(x, m);
    assert (x / m - 1) * m == x / m * m - m;
    DivModUnique(x - m, m, x / m - 1, x % m);
  }

  lemma AddNegated(x: int, y: int, m: int)
    requires m > 0
    ensures (x + (0 - y) % m) % m == (x - y) % m
  {
    var z := (0 - y) % m;
    DivModFacts(0 - y, m);
    DivModFacts(x + z, m);
    assert ((x + z) / m + (0 - y) / m) * m == (x + z) / m * m + (0 - y) / m * m;
    DivModUnique(x - y, m, (x + z) / m + (0 - y) / m, (x + z) % m);
  }

  /** Subtraction as the addition of the negation. */
  method Sub(pn: array<Limb>, b: array<Limb>)
    requires pn.Length == b.Length >= 1
    modifies pn
    ensures Val(pn[..]) == (old(Val(pn[..])) - old(Val(b[..]))) % Modulus(pn.Length)
  {
    var c := Negate(b);
    AddNegated(Val(pn[..]), Val(b[..]), Modulus(pn.Length));
    Add(pn, c);
  }

  lemma MulStep(v: int, v0: int, carry: nat, x: nat, b: nat, p: nat, n: nat)
    requires n == carry + b * x
    requires v + carry * p == v0 * b
    ensures v + (n % BASE) * p + (n / BASE) * (BASE * p) == (v0 + x * p) * b
  {
    CarryStep(n, p);
    assert n * p == carry * p + b * x * p;
    assert (v0 + x * p) * b == v0 * b + b * x * p;
  }

  /** A 64-bit accumulator has room for a carry plus two products of a limb. */
  lemma Fits64(carry: Limb, r: Limb, x: Limb, y: Limb)
    ensures 0 <= carry + r + x * y < BASE * BASE
    ensures (carry + r + x * y) / BASE < BASE
  {
    MulNonneg(x, y);
    MulMono(x, BASE - 1, y);
    assert x * y <= (BASE - 1) * (BASE - 1);
  }

  /** Multiplication by one limb. */
  method MulLimb(pn: array<Limb>, b: Limb)
    modifies pn
    ensures Val(pn[..]) == (old(Val(pn[..])) * b) % Modulus(pn.Length)
  {
    ghost var s := pn[..];
    var carry: Limb := 0;
    var i := 0;
    while i < pn.Length
      invariant 0 <= i <= pn.Length
      invariant forall k :: i <= k < pn.Length ==> pn[k] == s[k]
      invariant Val(pn[..i]) + carry * Pow(BASE, i) == Val(s[..i]) * b
    {
      Fits64(carry, 0, b, pn[i]);
      var n := carry + b * pn[i];
      assert n < 0x1_0000_0000_0000_0000;
      ghost var x := pn[i];
      ghost var was := pn[..i];
      pn[i] := n % BASE;
      MulStep(Val(was), Val(s[..i]), carry, x, b, Modulus(i), n);
      ValSnoc(pn[..], i); ValSnoc(s, i);
      assert pn[..][..i] == was && pn[..][..i + 1] == pn[..i + 1];
      carry := n / BASE;
      i := i + 1;
    }
    assert pn[..i] == pn[..] && s[..i] == s;
    Wrapped(Val(pn[..]), Val(s) * b, carry, pn[..]);
  }

  lemma RowStep(v: int, w: int, y: int, carry: nat, r: nat, a: nat, x: nat, p: nat, q: nat, n: nat)
    requires n == carry + r + a * x
    requires v + carry * (p * q) == w + a * y * q
    ensures v + (n % BASE - r) * (p * q) + (n / BASE) * (BASE * (p * q)) == w + a * (y + x * p) * q
  {
    CarryStep(n, p * q);
    assert n * (p * q) == carry * (p * q) + r * (p * q) + a * x * (p * q);
    assert (n % BASE - r) * (p * q) == (n % BASE) * (p * q) - r * (p * q);
    assert a * x * (p * q) == a * (x * p) * q;
    assert a * (y + x * p) * q == a * y * q + a * (x * p) * q;
  }

  /** What a row drops: the carry out of the top limb and the limbs shifted past it. */
  lemma RowDropped(v: int, w: int, carry: int, a: int, s: seq<Limb>, j: nat)
    requires j <= |s|
    requires v + carry * Pow(BASE, |s|) == w + a * Val(s[..|s| - j]) * Pow(BASE, j)
    ensures v + (carry + a * Val(s[|s| - j..])) * Pow(BASE, |s|) == w + a * Val(s) * Pow(BASE, j)
  {
    hide Val, Pow;
    var i := |s| - j;
    ValSplit(s, i);
    PowAdd(BASE, i, j);
    DroppedAlgebra(v, w, carry, a, Val(s[..i]), Val(s[i..]), Pow(BASE, i), Pow(BASE, j));
  }

  lemma DroppedAlgebra(v: int, w: int, carry: int, a: int, lo: int, hi: int, p: int, q: int)
    requires v + carry * (p * q) == w + a * lo * q
    ensures v + (carry + a * hi) * (p * q) == w + a * (lo + p * hi) * q
  {
    assert (carry + a * hi) * (p * q) == carry * (p * q) + a * hi * p * q;
    assert a * (lo + p * hi) == a * lo + a * hi * p;
    assert (a * lo + a * hi * p) * q == a * lo * q + a * hi * p * q;
  }

  /** One row of the long multiplication: adds a * b, moved up by j limbs. */
  method MulRow(pn: array<Limb>, a: Limb, b: array<Limb>, j: nat) returns (ghost dropped: int)
    requires pn.Length == b.Length && j < pn.Length
    requires pn == b ==> forall k :: 0 <= k < pn.Length ==> pn[k] == 0
    modifies pn
    ensures pn == b ==> forall k :: 0 <= k < pn.Length ==> pn[k] == 0
    ensures pn != b ==>
      Val(pn[..]) + dropped * Pow(BASE, pn.Length) == old(Val(pn[..])) + a * Val(b[..]) * Pow(BASE, j)
  {
    hide Val;
    ghost var s, w := b[..], Val(pn[..]);
    assert Val(s[..0]) == 0 by { ValZero(s[..0]); }
    var carry: Limb := 0;
    var i := 0;
    while i + j < pn.Length
      invariant 0 <= i <= pn.Length - j
      invariant pn == b ==> carry == 0 && forall k :: 0 <= k < pn.Length ==> pn[k] == 0
      invariant pn != b ==> b[..] == s && Val(pn[..]) + carry * Pow(BASE, i + j) == w + a * Val(s[..i]) * Pow(BASE, j)
    {
      Fits64(carry, pn[i + j], a, b[i]);
      var n := carry + pn[i + j] + a * b[i];
      assert n < 0x1_0000_0000_0000_0000;
      ghost var was, r := pn[..], pn[i + j];
      pn[i + j] := n % BASE;
      if pn != b {
        PowAdd(BASE, i, j);
        RowStep(Val(was), w, Val(s[..i]), carry, r, a, s[i], Modulus(i), Modulus(j), n);
        ValUpdate(was, i + j, n % BASE); ValSnoc(s, i);
        assert pn[..] == was[i + j := pn[i + j]];
      }
      carry := n / BASE;
      i := i + 1;
    }
    dropped := carry + a * Val(s[|s| - j..]);
    if pn != b { RowDropped(Val(pn[..]), w, carry, a, s, j); }
  }

  /** Long multiplication. The operand must be another object: the accumulator is cleared first,
      so squaring in place leaves zero. */
  method Mul(pn: array<Limb>, b: array<Limb>)
    requires pn.Length == b.Length
    modifies pn
    ensures pn == b ==> Val(pn[..]) == 0
    ensures pn != b ==> Val(pn[..]) == (old(Val(pn[..])) * Val(b[..])) % Modulus(pn.Length)
  {
    var a := Copy(pn);
    Clear(pn);
    ghost var s, t, k := a[..], b[..], 0;
    var j := 0;
    while j < pn.Length
      invariant 0 <= j <= pn.Length && a[..] == s
      invariant pn == b ==> forall k :: 0 <= k < pn.Length ==> pn[k] == 0
      invariant pn != b ==> b[..] == t && Val(pn[..]) + k * Pow(BASE, pn.Length) == Val(s[..j]) * Val(t)
    {
      ghost var v := Val(pn[..]);
      ghost var d := MulRow(pn, a[j], b, j);
      if pn != b {
        ValSnoc(s, j);
        RowsAdd(v, Val(pn[..]), k, d, Val(s[..j]), s[j], Val(t), Pow(BASE, j), Pow(BASE, pn.Length));
      }
      k := k + d;
      j := j + 1;
    }
    assert s[..j] == s;
    if pn == b {
      ValZero(pn[..]);
    } else {
      Wrapped(Val(pn[..]), Val(s) * Val(t), k, pn[..]);
    }
  }

  lemma RowsAdd(v: int, v': int, k: int, d: int, x: int, a: int, y: int, p: int, m: int)
    requires v + k * m == x * y && v' + d * m == v + a * y * p
    ensures v' + (k + d) * m == (x + a * p) * y
  {
    assert (k + d) * m == k * m + d * m;
    assert (x + a * p) * y == x * y + a * y * p;
  }
}
