/** Powers, division and bitwise or on unbounded integers, as far as the limb arithmetic and
    the number codecs need them. */
module Powers {

  function Pow(b: int, n: nat): int {
    if n == 0 then 1 else b * Pow(b, n - 1)
  }

  lemma {:induction false} PowPositive(b: int, n: nat)
    requires b >= 1
    ensures Pow(b, n) >= 1
  {
    if n > 0 {
      PowPositive(b, n - 1);
      MulAtLeast(b, Pow(b, n - 1));
    }
  }

  lemma MulAtLeast(a: int, b: int)
    requires a >= 1 && b >= 0
    ensures a * b >= b
  {
    assert a * b == b + (a - 1) * b;
    MulNonneg(a - 1, b);
  }

  lemma MulNonneg(a: int, b: int)
    requires a >= 0 && b >= 0
    ensures a * b >= 0
  {
  }

  lemma MulMono(a: int, b: int, c: int)
    requires a <= b && c >= 0
    ensures a * c <= b * c
  {
    MulNonneg(b - a, c);
    assert (b - a) * c == b * c - a * c;
  }

  lemma MulStrict(a: int, b: int, c: int)
    requires a < b && c >= 1
    ensures a * c < b * c
  {
    MulMono(a + 1, b, c);
    assert (a + 1) * c == a * c + c;
  }

  lemma {:induction false} PowAdd(b: int, m: nat, n: nat)
    ensures Pow(b, m + n) == Pow(b, m) * Pow(b, n)
  {
    if m > 0 {
      PowAdd(b, m - 1, n);
      assert b * (Pow(b, m - 1) * Pow(b, n)) == (b * Pow(b, m - 1)) * Pow(b, n);
    }
  }

  lemma {:induction false} PowMono(b: int, m: nat, n: nat)
    requires b >= 1 && m <= n
    ensures Pow(b, m) <= Pow(b, n)
  {
    PowAdd(b, m, n - m);
    PowPositive(b, m);
    PowPositive(b, n - m);
    MulAtLeast(Pow(b, n - m), Pow(b, m));
  }

  /** Quotient and remainder are unique. */
  lemma DivModUnique(x: int, d: int, q: int, r: int)
    requires d > 0 && x == q * d + r && 0 <= r < d
    ensures x / d == q && x % d == r
  {
    var q', r' := x / d, x % d;
    assert x == d * q' + r';
    assert (q - q') * d == r' - r by { assert (q - q') * d == q * d - q' * d; assert d * q' == q' * d; }
    assert (q' - q) * d == -((q - q') * d);
    if q > q' { MulMono(1, q - q', d); }
    else if q < q' { MulMono(1, q' - q, d); }
  }

  lemma DivModFacts(x: int, d: int)
    requires d > 0
    ensures x == (x / d) * d + x % d && 0 <= x % d < d
    ensures x >= 0 ==> x / d >= 0
  {
    assert x == d * (x / d) + x % d;
    assert d * (x / d) == (x / d) * d;
    if x >= 0 && x / d < 0 { MulMono(x / d, -1, d); }
  }

  lemma QuotientBounds(v: nat, d: int, lo: nat, hi: nat)
    requires d >= 1 && lo * d <= v < hi * d
    ensures lo <= v / d < hi
  {
    DivModFacts(v, d);
    assert (v / d + 1) * d == v / d * d + d;
    if v / d < lo { MulMono(v / d + 1, lo, d); }
    if v / d >= hi { MulMono(hi, v / d, d); }
  }

  /** Bitwise or. */
  function Or(x: nat, y: nat): nat {
    if x == 0 then y else if y == 0 then x
    else 2 * Or(x / 2, y / 2) + (if x % 2 == 1 || y % 2 == 1 then 1 else 0)
  }

  /** Or is addition when the operands share no bits: one is below 2^n, the other a multiple of it. */
  lemma {:induction false} OrDisjoint(x: nat, y: nat, n: nat, k: nat)
    requires x == k * Pow(2, n) && y < Pow(2, n)
    ensures Or(x, y) == x + y && Or(y, x) == x + y
  {
    if n > 0 && x != 0 && y != 0 {
      var h := k * Pow(2, n - 1);
      assert x == 2 * h by { assert k * (2 * Pow(2, n - 1)) == 2 * (k * Pow(2, n - 1)); }
      MulNonneg(k, Pow(2, n - 1)) by { PowPositive(2, n - 1); }
      assert x / 2 == h && x % 2 == 0;
      assert y / 2 < Pow(2, n - 1);
      OrDisjoint(h, y / 2, n - 1, k);
    }
  }
}
