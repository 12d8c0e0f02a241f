/** Numbers written as digit sequences, most significant first, and the carry loop that multiplies
    one in place. */
module Radix {
  import opened Powers

  function Value(b: nat, s: seq<nat>): nat {
    if s == [] then 0 else Value(b, s[..|s| - 1]) * b + s[|s| - 1]
  }

  /** The digits of v, without leading zeros. */
  function Digits(b: nat, v: nat): (s: seq<nat>)
    requires b >= 2
    ensures forall k :: 0 <= k < |s| ==> s[k] < b
    ensures s != [] ==> s[0] != 0
    ensures s == [] <==> v == 0
    decreases v
  {
    if v == 0 then [] else
      Smaller(v, b);
      Digits(b, v / b) + [v % b]
  }

  ghost predicate AllBelow(b: nat, s: seq<nat>) {
    forall k :: 0 <= k < |s| ==> s[k] < b
  }

  lemma {:induction false} ValueOfDigits(b: nat, v: nat)
    requires b >= 2
    ensures Value(b, Digits(b, v)) == v
    decreases v
  {
    if v > 0 {
      DivModFacts(v, b);
      Smaller(v, b);
      ValueOfDigits(b, v / b);
      ValueSnoc(b, Digits(b, v / b), v % b);
    }
  }

  lemma Smaller(v: nat, b: nat)
    requires v > 0 && b >= 2
    ensures 0 <= v / b < v
  {
    DivModFacts(v, b);
    MulMono(2, b, v / b);
    assert v / b * b == b * (v / b);
  }

  lemma ValueSnoc(b: nat, s: seq<nat>, x: nat)
    ensures Value(b, s + [x]) == Value(b, s) * b + x
  {
    assert (s + [x])[..|s|] == s;
  }

  lemma {:induction false} DigitsOfValue(b: nat, s: seq<nat>)
    requires b >= 2 && AllBelow(b, s) && (s != [] ==> s[0] != 0)
    ensures Digits(b, Value(b, s)) == s
  {
    if s != [] {
      var t := s[..|s| - 1];
      DigitsOfValue(b, t);
      DivModUnique(Value(b, s), b, Value(b, t), s[|s| - 1]);
      assert s == t + [s[|s| - 1]];
      assert Value(b, s) > 0 by {
        if t != [] { assert Value(b, t) > 0; MulMono(1, Value(b, t), b); }
      }
    }
  }

  lemma {:induction false} ValueCons(b: nat, x: nat, s: seq<nat>)
    ensures Value(b, [x] + s) == x * Pow(b, |s|) + Value(b, s)
  {
    var t := [x] + s;
    if s == [] {
      assert t[..0] == [];
    } else {
      ValueCons(b, x, s[..|s| - 1]);
      assert t[..|t| - 1] == [x] + s[..|s| - 1];
      ConsAlgebra(x, Pow(b, |s| - 1), Value(b, s[..|s| - 1]), b);
    }
  }

  lemma ConsAlgebra(x: int, p: int, v: int, b: int)
    ensures (x * p + v) * b == x * (b * p) + v * b
  {
    assert x * p * b == x * (b * p);
  }

  lemma {:induction false} ValueBound(b: nat, s: seq<nat>)
    requires b >= 1 && AllBelow(b, s)
    ensures Value(b, s) < Pow(b, |s|)
  {
    if s != [] {
      var v := Value(b, s[..|s| - 1]);
      ValueBound(b, s[..|s| - 1]);
      MulMono(v + 1, Pow(b, |s| - 1), b);
      assert (v + 1) * b == v * b + b;
      assert Pow(b, |s| - 1) * b == b * Pow(b, |s| - 1);
    }
  }

  function Zeros(n: nat): (s: seq<nat>)
    ensures |s| == n && forall k :: 0 <= k < n ==> s[k] == 0
  {
    seq(n, _ => 0)
  }

  /** Leading zeros add nothing. */
  lemma {:induction false} ValueZeros(b: nat, n: nat, s: seq<nat>)
    ensures Value(b, Zeros(n) + s) == Value(b, s)
    decreases n
  {
    if n == 0 {
      assert Zeros(0) + s == s;
    } else {
      assert Zeros(n) + s == [0] + (Zeros(n - 1) + s);
      ValueCons(b, 0, Zeros(n - 1) + s);
      ValueZeros(b, n - 1, s);
    }
  }

  lemma CarryAlgebra(v: int, w: int, c: int, carry: nat, d: nat, m: nat, b: nat, p: nat, x: nat)
    requires b >= 1 && x == carry + m * d
    requires v + carry * p == w * m + c
    ensures (x % b) * p + v + (x / b) * (b * p) == (d * p + w) * m + c
  {
    DivModFacts(x, b);
    assert (x / b) * (b * p) == (x / b * b) * p;
    assert (x % b) * p + (x / b * b) * p == x * p by { assert (x % b + x / b * b) * p == x * p; }
    assert x * p == carry * p + m * d * p;
    assert (d * p + w) * m == m * d * p + w * m;
  }

  /** Only the last n digits may be nonzero. */
  predicate Within(s: seq<nat>, n: nat) {
    n <= |s| && forall k :: 0 <= k < |s| - n ==> s[k] == 0
  }

  lemma WithinValue(b: nat, s: seq<nat>, n: nat)
    requires Within(s, n)
    ensures Value(b, s[|s| - n..]) == Value(b, s)
  {
    assert s == Zeros(|s| - n) + s[|s| - n..];
    ValueZeros(b, |s| - n, s[|s| - n..]);
  }

  /** buf := buf * m + c in base b, from the last digit up; beyond the first `length` digits it goes on
      only while there is a carry. No carry is left over if the result fits. */
  method MulAdd(buf: array<nat>, b: nat, m: nat, c: nat, length: nat) returns (used: nat)
    requires b >= 2 && AllBelow(b, buf[..]) && Within(buf[..], length)
    requires Value(b, buf[..]) * m + c < Pow(b, buf.Length)
    modifies buf
    ensures AllBelow(b, buf[..]) && Value(b, buf[..]) == old(Value(b, buf[..])) * m + c
    ensures Within(buf[..], used) && length <= used
  {
    hide Value, Pow, AllBelow, Within, Multiplied;
    ghost var s := buf[..];
    var n, i := buf.Length, 0;
    var carry: nat := c;
    MulAddStart(b, s, m, c);
    while (carry != 0 || i < length) && i < n
      invariant 0 <= i <= n
      invariant Multiplied(b, s, buf[..], m, c, i, carry)
    {
      ghost var was := buf[..];
      ghost var digit, next := MulAddStep(b, s, was, m, c, i, carry);
      var x := carry + m * buf[n - 1 - i];
      buf[n - 1 - i] := x % b;
      assert buf[..] == was[n - 1 - i := digit];
      carry := x / b;
      i := i + 1;
    }
    Finish(b, s, buf[..], m, c, i, carry, length);
    used := i;
  }

  /** The last i digits of t, with the carry out of them, are those of s times m plus c. */
  ghost predicate Multiplied(b: nat, s: seq<nat>, t: seq<nat>, m: nat, c: nat, i: nat, carry: nat) {
    i <= |s| == |t| && t[..|s| - i] == s[..|s| - i] && AllBelow(b, t) &&
    Value(b, t[|s| - i..]) + carry * Pow(b, i) == Value(b, s[|s| - i..]) * m + c
  }

  lemma MulAddStart(b: nat, s: seq<nat>, m: nat, c: nat)
    requires AllBelow(b, s)
    ensures Multiplied(b, s, s, m, c, 0, c)
  {
    EmptyValue(b, s[|s|..]);
  }

  lemma MulAddStep(b: nat, s: seq<nat>, t: seq<nat>, m: nat, c: nat, i: nat, carry: nat)
      returns (digit: nat, next: nat)
    requires b >= 2 && i < |s| && Multiplied(b, s, t, m, c, i, carry)
    ensures |s| == |t|
    ensures digit == (carry + m * t[|s| - 1 - i]) % b && next == (carry + m * t[|s| - 1 - i]) / b
    ensures Multiplied(b, s, t[|s| - 1 - i := digit], m, c, i + 1, next)
  {
    hide Value;
    var k := |s| - 1 - i;
    assert t[k] == t[..k + 1][k] == s[..k + 1][k] == s[k];
    MulNonneg(m, t[k]);
    var x := carry + m * t[k];
    DivModFacts(x, b);
    PowPositive(b, i);
    CarryAlgebra(Value(b, t[k + 1..]), Value(b, s[k + 1..]), c, carry, s[k], m, b, Pow(b, i), x);
    digit, next := x % b, x / b;
    var u := t[k := digit];
    assert u[k..] == [x % b] + t[k + 1..] && s[k..] == [s[k]] + s[k + 1..];
    ValueCons(b, x % b, t[k + 1..]);
    ValueCons(b, s[k], s[k + 1..]);
    assert u[..k] == t[..k + 1][..k] == s[..k];
  }

  lemma EmptyValue(b: nat, s: seq<nat>)
    requires s == []
    ensures Value(b, s) == 0
  {
  }

  /** Where the loop stops the untouched digits are zero, so the whole value is the one computed. */
  lemma Finish(b: nat, s: seq<nat>, t: seq<nat>, m: nat, c: nat, i: nat, carry: nat, length: nat)
    requires b >= 2 && Multiplied(b, s, t, m, c, i, carry) && Within(s, length)
    requires i < |s| ==> carry == 0 && i >= length
    requires Value(b, s) * m + c < Pow(b, |s|)
    ensures carry == 0 && AllBelow(b, t) && Value(b, t) == Value(b, s) * m + c && Within(t, i) && length <= i
  {
    hide Value;
    assert length <= i;
    assert Within(s, i);
    forall k | 0 <= k < |t| - i ensures t[k] == 0 { assert t[k] == t[..|s| - i][k] == s[..|s| - i][k] == s[k]; }
    WithinValue(b, s, i);
    WithinValue(b, t, i);
    if carry > 0 {
      MulAtLeast(carry, Pow(b, i)) by { PowPositive(b, i); }
    }
  }
}
