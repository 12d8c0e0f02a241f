/** Binary long division of limb numbers. */
module ArithDivide {
  import opened Powers
  import opened Limbs
  import opened Arith
  import opened ArithShift

  lemma {:induction false} LowBitsClear(s: seq<Limb>, k: nat, m: nat, q: nat)
    requires k < |s| && m <= 32
    requires Val(s) == q * (Pow(BASE, k) * Pow(2, m))
    ensures s[k] % Modulus2(m) == 0
  {
    var e := Modulus2(m);
    PowAdd(2, m, 32 - m); BaseIsPow();
    var f := Pow(2, 32 - m);
    if k == 0 {
      ClearHere(s[0], e, f, q, Val(s[1..]));
    } else {
      ClearAbove(s[0], Val(s[1..]), q, Pow(BASE, k - 1), e);
      LowBitsClear(s[1..], k - 1, m, q);
    }
  }

  lemma ClearHere(x: int, e: int, f: int, q: int, v: int)
    requires e >= 1 && e * f == BASE && x + BASE * v == q * (1 * e)
    ensures x % e == 0
  {
    assert (q - f * v) * e == q * e - e * f * v;
    DivModUnique(x, e, q - f * v, 0);
  }

  lemma ClearAbove(x: Limb, v: nat, q: int, p: int, e: int)
    requires x + BASE * v == q * ((BASE * p) * e)
    ensures v == q * (p * e)
  {
    assert q * ((BASE * p) * e) == BASE * (q * (p * e)) by { assert (BASE * p) * e == BASE * (p * e); }
    DivModUnique(x + BASE * v, BASE, v, x);
  }

  /** Setting a bit below which, and at which, all bits are clear adds its power of two. */
  method SetBit(pn: array<Limb>, bit: nat, ghost q: nat)
    requires bit < 32 * pn.Length
    requires Val(pn[..]) == q * Pow(2, bit + 1)
    modifies pn
    ensures Val(pn[..]) == old(Val(pn[..])) + Pow(2, bit)
  {
    hide Val, Or;
    var k, m := bit / 32, bit % 32;
    ghost var s := pn[..];
    BasePow(k);
    PowAdd(2, 32 * k, m + 1);
    LowBitsClear(s, k, m + 1, q);
    ghost var e := Modulus2(m + 1);
    DivModFacts(s[k], e);
    PowPositive(2, m);
    BitFits(s[k], m);
    OrDisjoint(s[k], Pow(2, m), m + 1, s[k] / e);
    pn[k] := Or(pn[k], Pow(2, m));
    ValUpdate(s, k, pn[k]);
    assert pn[..] == s[k := pn[k]];
    PowAdd(2, 32 * k, m);
    assert Pow(2, m) * Pow(BASE, k) == Pow(BASE, k) * Pow(2, m);
  }

  lemma BitFits(x: Limb, m: nat)
    requires m < 32 && x % Modulus2(m + 1) == 0
    ensures x + Pow(2, m) < BASE
  {
    hide Pow;
    var e, f := Modulus2(m + 1), Modulus2(31 - m);
    PowAdd(2, m + 1, 31 - m); BaseIsPow();
    DivModFacts(x, e);
    TopMultiple(x, x / e, e, f);
    assert Pow(2, m + 1) == 2 * Pow(2, m) by { PowDouble(m); }
    PowPositive(2, m);
  }

  lemma PowDouble(m: nat)
    ensures Pow(2, m + 1) == 2 * Pow(2, m)
  {
  }

  /** A multiple of e below e * f leaves room for another e. */
  lemma TopMultiple(x: int, q: int, e: int, f: int)
    requires e >= 1 && x == q * e && x < e * f
    ensures x + e <= e * f
  {
    assert f * e == e * f && (q + 1) * e == q * e + e;
    if q >= f { MulMono(f, q, e); }
    MulMono(q + 1, f, e);
  }

  /** The state of the division with the quotient bits above shift decided. */
  ghost predicate Dividing(a: nat, b: nat, num: int, div: int, q: int, shift: int) {
    && shift >= -1
    && num + q * Pow(2, shift + 1) * b == a
    && num < b * Pow(2, shift + 1)
    && (shift >= 0 ==> div == b * Pow(2, shift))
  }

  lemma DividingStep(a: nat, b: nat, num: nat, div: nat, q: nat, shift: nat)
    requires b > 0 && Dividing(a, b, num, div, q, shift)
    ensures num >= div ==> Dividing(a, b, num - div, div / 2, 2 * q + 1, shift - 1)
    ensures num < div ==> Dividing(a, b, num, div / 2, 2 * q, shift - 1)
  {
    var e := Pow(2, shift);
    assert Pow(2, shift + 1) == 2 * e;
    assert q * (2 * e) * b == (2 * q) * e * b;
    assert (2 * q + 1) * e * b == (2 * q) * e * b + b * e by { assert (2 * q + 1) * e == 2 * q * e + e; }
    assert b * (2 * e) == 2 * (b * e);
    if shift > 0 {
      assert e == 2 * Pow(2, shift - 1);
      assert b * e == 2 * (b * Pow(2, shift - 1));
    }
  }

  lemma DivideDone(a: nat, b: nat, num: nat, div: nat, q: nat)
    requires b > 0 && Dividing(a, b, num, div, q, -1)
    ensures q * Pow(2, 0) == a / b
  {
    assert Pow(2, 0) == 1;
    DivModUnique(a, b, q, num) by { assert q * 1 * b == q * b; }
  }

  /** The divisor aligned with the dividend neither overflows nor leaves a quotient digit above one. */
  lemma Aligned(a: nat, b: nat, n: nat, d: nat)
    requires IsBits(a, n) && IsBits(b, d) && 0 < d <= n
    ensures 0 <= b * Pow(2, n - d) < Pow(2, n)
    ensures Dividing(a, b, a, b * Pow(2, n - d), 0, n - d)
  {
    var e := Modulus2(n - d);
    PowAdd(2, d, n - d);
    MulNonneg(b, e);
    MulStrict(b, Pow(2, d), e);
    PowAdd(2, d - 1, n - d + 1);
    assert Modulus2(n - d + 1) == 2 * e;
    MulMono(Pow(2, d - 1), b, 2 * e);
  }

  lemma SmallerIsZero(a: nat, b: nat, n: nat, d: nat)
    requires IsBits(a, n) && IsBits(b, d) && n < d
    ensures b > 0 && a / b == 0
  {
    PowMono(2, n, d - 1);
    PowPositive(2, d - 1);
    DivModUnique(a, b, 0, a);
  }

  lemma BitsZero(v: nat, n: nat)
    requires IsBits(v, n)
    ensures n == 0 <==> v == 0
  {
    if n > 0 { PowPositive(2, n - 1); }
  }

  /** One turn of the division: num -= div and a quotient bit where it fits. */
  method DivideTurn(pn: array<Limb>, num: array<Limb>, div: array<Limb>, shift: nat, ghost a: nat, ghost b: nat,
                    ghost q: nat)
    returns (ghost q': nat)
    requires pn.Length == num.Length == div.Length >= 1
    requires pn != num && pn != div && num != div
    requires shift < 32 * pn.Length
    requires b > 0 && Dividing(a, b, Val(num[..]), Val(div[..]), q, shift)
    requires Val(pn[..]) == q * Pow(2, shift + 1)
    modifies pn, num, div
    ensures Dividing(a, b, Val(num[..]), Val(div[..]), q', shift - 1)
    ensures Val(pn[..]) == q' * Pow(2, shift)
  {
    hide Val, Dividing, Pow;
    ghost var x, y := Val(num[..]), Val(div[..]);
    DividingStep(a, b, x, y, q, shift);
    QuotientBit(q, shift);
    var c := CompareTo(num, div);
    q' := 2 * q;
    if c >= 0 {
      ValBound(num[..]);
      Sub(num, div);
      DivModUnique(x - y, Modulus(num.Length), 0, x - y);
      SetBit(pn, shift, q);
      q' := 2 * q + 1;
    }
    ShiftRight(div, 1);
    PowDouble(0);
    assert Modulus2(1) == 2 by { PowNone(); }
  }

  lemma PowNone()
    ensures Pow(2, 0) == 1
  {
  }

  lemma QuotientBit(q: nat, shift: nat)
    ensures q * Pow(2, shift + 1) == 2 * q * Pow(2, shift)
    ensures (2 * q + 1) * Pow(2, shift) == 2 * q * Pow(2, shift) + Pow(2, shift)
  {
    assert q * (2 * Pow(2, shift)) == 2 * q * Pow(2, shift);
  }

  /** Long division: the quotient, or failure exactly on a zero divisor. */
  method Divide(pn: array<Limb>, b: array<Limb>) returns (ok: bool)
    requires pn.Length == b.Length >= 1
    modifies pn
    ensures ok <==> old(Val(b[..])) != 0
    ensures !ok ==> Val(pn[..]) == 0
    ensures ok ==> Val(pn[..]) == old(Val(pn[..])) / old(Val(b[..]))
  {
    hide Val, Dividing, Pow, IsBits;
    ghost var x, y := Val(pn[..]), Val(b[..]);
    var div := Copy(b);
    var num := Copy(pn);
    Clear(pn);
    var numBits := Bits(num);
    var divBits := Bits(div);
    BitsZero(y, divBits);
    if divBits == 0 {
      return false;
    }
    if divBits > numBits {
      SmallerIsZero(x, y, numBits, divBits);
      return true;
    }
    var shift := numBits - divBits;
    Aligned(x, y, numBits, divBits);
    ShiftLeft(div, shift);
    NoOverflow(y * Pow(2, shift), numBits, pn.Length);
    ghost var q: nat := 0;
    while shift >= 0
      invariant -1 <= shift < 32 * pn.Length
      invariant Dividing(x, y, Val(num[..]), Val(div[..]), q, shift)
      invariant Val(pn[..]) == q * Pow(2, shift + 1)
    {
      q := DivideTurn(pn, num, div, shift, x, y, q);
      shift := shift - 1;
    }
    DivideDone(x, y, Val(num[..]), Val(div[..]), q);
    return true;
  }

  lemma NoOverflow(v: int, n: nat, w: nat)
    requires 0 <= v < Pow(2, n) && n <= 32 * w
    ensures v % Modulus(w) == v
  {
    BasePow(w);
    PowMono(2, n, 32 * w);
    DivModUnique(v, Modulus(w), 0, v);
  }
}
