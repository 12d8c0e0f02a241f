/** Detecting scattered changes: up to four within 1025 values always change the remainder
    (src/cashaddr.cpp). The generator has six roots among the powers of T, at the exponents
    -30, 1, 32 and -32, -1, 30 modulo 1025: two progressions of three with the same step. */
module CashAddrErrors {
  import opened Powers
  import opened CashAddrCode
  import opened CashAddrField
  import opened Field20

  function Times(a: nat, b: nat): nat {
    MulNonneg(a, b);
    a * b
  }

  // --- The value of a polynomial at a power of T ---

  /** The polynomial with the given coefficients, highest first, at T^s. */
  function Ev(s: nat, v: seq<bv8>): bv64 {
    if v == [] then 0 else Xor(Ts(Ev(s, v[..|v| - 1]), s), Scaled(v[|v| - 1], 1))
  }

  lemma EvSnoc(s: nat, v: seq<bv8>, d: bv8)
    ensures Ev(s, v + [d]) == Xor(Ts(Ev(s, v), s), Scaled(d, 1))
  {
    hide Ts, Scaled, Xor;
    assert (v + [d])[..|v|] == v;
  }

  lemma {:induction false} MadeEv(s: nat, v: seq<bv8>)
    ensures Made(Ev(s, v))
  {
    hide Made, Ts, Scaled, Xor;
    MadeOne();
    if v != [] {
      MadeEv(s, v[..|v| - 1]);
      MadeTs(Ev(s, v[..|v| - 1]), s);
      MadeScaled(v[|v| - 1], 1);
      MadeXor(Ts(Ev(s, v[..|v| - 1]), s), Scaled(v[|v| - 1], 1));
    }
  }

  lemma {:induction false} EvSum(s: nat, a: seq<bv8>, b: seq<bv8>, c: seq<bv8>)
    requires |a| == |b| == |c| && forall i :: 0 <= i < |c| ==> c[i] == Add(a[i], b[i])
    ensures Ev(s, c) == Xor(Ev(s, a), Ev(s, b))
  {
    hide Ts, Scaled, Xor, Add;
    XorUndo(0, 0);
    if c != [] {
      var n := |c| - 1;
      EvSum(s, a[..n], b[..n], c[..n]);
      var x, y := Ev(s, a[..n]), Ev(s, b[..n]);
      TsLinear(x, y, s);
      ScaledAdd(a[n], b[n], 1);
      XorPairs(Ts(x, s), Ts(y, s), Scaled(a[n], 1), Scaled(b[n], 1));
    }
  }

  lemma {:induction false} EvScale(s: nat, l: bv8, a: seq<bv8>, b: seq<bv8>)
    requires |a| == |b| && Fives(a) && forall i :: 0 <= i < |b| ==> b[i] == Mul(l, a[i])
    ensures Ev(s, b) == Scaled(l, Ev(s, a))
  {
    hide Ts, Scaled, Xor, Mul, Made;
    ScaledLinear(l, 0, 0);
    if b != [] {
      var n := |b| - 1;
      EvScale(s, l, a[..n], b[..n]);
      var x := Ev(s, a[..n]);
      MadeOne();
      ScaledMul(l, a[n], 1);
      ScaledTs(l, x, s);
      ScaledLinear(l, Ts(x, s), Scaled(a[n], 1));
    }
  }

  lemma {:induction false} EvFront(s: nat, d: bv8, u: seq<bv8>)
    ensures Ev(s, [d] + u) == Xor(Ev(s, u), Ts(Scaled(d, 1), Times(s, |u|)))
  {
    hide Ts, Scaled, Xor;
    if u == [] {
      assert [d] + u == [] + [d];
      EvSnoc(s, [], d);
      TsLinear(0, 0, s);
      Ts2(Scaled(d, 1));
    } else {
      var t, e := u[..|u| - 1], u[|u| - 1];
      EvFront(s, d, t);
      assert [d] + u == ([d] + t) + [e];
      EvSnoc(s, [d] + t, e);
      TsLinear(Ev(s, t), Ts(Scaled(d, 1), Times(s, |t|)), s);
      TsAdd(Scaled(d, 1), Times(s, |t|), s);
      assert Times(s, |t|) + s == Times(s, |u|);
      XorLast(Ts(Ev(s, t), s), Scaled(e, 1), Ts(Scaled(d, 1), Times(s, |u|)));
    }
  }

  // --- The roots of the generator ---

  const GENERATOR: seq<bv8> := [1, 19, 3, 25, 11, 25, 3, 19, 1]

  predicate Root(s: nat) { Ev(s, GENERATOR) == 0 }

  /** The coefficients of the generator as words. */
  function Word(k: nat): bv64 {
    if k == 1 || k == 7 then 0x5c8c6 else if k == 2 || k == 6 then 0x91852 else if k == 3 || k == 5 then 0x0bc66
    else if k == 4 then 0x574a1 else 1
  }

  lemma Coefficients()
    ensures Scaled(19, 1) == 0x5c8c6 && Scaled(3, 1) == 0x91852 && Scaled(25, 1) == 0x0bc66 && Scaled(11, 1) == 0x574a1
    ensures Scaled(1, 1) == 1
  {
    hide Thetas;
    ThetaPowers();
  }

  lemma Words(k: nat)
    requires k < 9
    ensures Scaled(GENERATOR[k], 1) == Word(k)
  {
    hide Scaled;
    Coefficients();
  }

  lemma EvStep(s: nat, k: nat, e: bv64, next: bv64)
    requires k < 9 && Ev(s, GENERATOR[..k]) == e && Ts(e, s) == Xor(next, Word(k))
    ensures Ev(s, GENERATOR[..k + 1]) == next
  {
    hide Ts, Scaled, Xor, Word;
    var g := GENERATOR;
    assert g[..k + 1] == g[..k] + [g[k]];
    EvSnoc(s, g[..k], g[k]);
    Words(k);
    Cancelled(next, Word(k));
  }

  /** A root, from the values after each coefficient. */
  lemma RootFrom(s: nat, e1: bv64, e2: bv64, e3: bv64, e4: bv64, e5: bv64, e6: bv64, e7: bv64)
    requires Ts(1, s) == Xor(e1, Word(1)) && Ts(e1, s) == Xor(e2, Word(2)) && Ts(e2, s) == Xor(e3, Word(3))
    requires Ts(e3, s) == Xor(e4, Word(4)) && Ts(e4, s) == Xor(e5, Word(5)) && Ts(e5, s) == Xor(e6, Word(6))
    requires Ts(e6, s) == Xor(e7, Word(7)) && Ts(e7, s) == 1
    ensures Root(s)
  {
    hide Ts, Xor, Ev;
    var g := GENERATOR;
    assert g[..0] == [] && g[..9] == g;
    EvNone(s);
    TsLinear(0, 0, s);
    XorUndo(1, 0);
    XorUndo(0, 0);
    EvStep(s, 0, 0, 1);
    EvStep(s, 1, 1, e1);
    EvStep(s, 2, e1, e2);
    EvStep(s, 3, e2, e3);
    EvStep(s, 4, e3, e4);
    EvStep(s, 5, e4, e5);
    EvStep(s, 6, e5, e6);
    EvStep(s, 7, e6, e7);
    EvStep(s, 8, e7, 0);
  }

  lemma EvNone(s: nat)
    ensures Ev(s, []) == 0
  {
  }

  lemma Cancelled(e: bv64, c: bv64)
    ensures Xor(Xor(e, c), c) == e
  {
    hide Xor;
    XorAssoc(e, c, c);
    XorUndo(c, 0);
    XorUndo(e, 0);
  }

  lemma Root1()
    ensures Root(1)
  {
    hide Ts, Root;
    Ts2(0x00001);
    Ts2(0x5c8c4);
    Ts2(0x289da);
    Ts2(0x5afd2);
    Ts2(0xe2b05);
    Ts2(0xe84a5);
    Ts2(0x67fd1);
    Ts2(0x93764);
    RootFrom(1, 0x5c8c4, 0x289da, 0x5afd2, 0xe2b05, 0xe84a5, 0x67fd1, 0x93764);
  }

  function T30(w: bv64): bv64 { T2(T4(T8(T16(w)))) }

  lemma Ts30(w: bv64)
    ensures Ts(w, 30) == T30(w)
  {
    hide Ts, T2, T4, T8, T16;
    TsAdd(w, 16, 8); TsAdd(w, 24, 4); TsAdd(w, 28, 2);
    Ts16(w); Ts8(T16(w)); Ts4(T8(T16(w))); Ts2(T4(T8(T16(w))));
  }

  lemma Jumps30a()
    ensures T30(0x00001) == 0xd5801 && T30(0x890c7) == 0xc7a0a
  {
    assert T16(0x00001) == 0x10000 && T8(0x10000) == 0x23102;
    assert T16(0x890c7) == 0xc44ed && T8(0xc44ed) == 0x674f5;
  }

  lemma Jumps30b()
    ensures T30(0x56258) == 0xb29a7 && T30(0xb95c1) == 0x8348b
  {
    assert T16(0x56258) == 0x9eaaf && T8(0x9eaaf) == 0x706ec;
    assert T16(0xb95c1) == 0x4c406 && T8(0x4c406) == 0x461ad;
  }

  lemma Jumps30c()
    ensures T30(0xd402a) == 0x45bf4 && T30(0x4e792) == 0x3a776
  {
    assert T16(0xd402a) == 0x3ef81 && T8(0x3ef81) == 0x5ac31;
    assert T16(0x4e792) == 0xab194 && T8(0xab194) == 0x1bb07;
  }

  lemma Jumps30d()
    ensures T30(0xabf24) == 0x7b82f && T30(0x270e9) == 0x00001
  {
    assert T16(0xabf24) == 0x676d7 && T8(0x676d7) == 0x57973;
    assert T16(0x270e9) == 0x7d65e && T8(0x7d65e) == 0x20462;
  }

  lemma Root30()
    ensures Root(30)
  {
    hide Ts, Root, T30;
    Jumps30a(); Jumps30b(); Jumps30c(); Jumps30d();
    Ts30(0x00001);
    Ts30(0x890c7);
    Ts30(0x56258);
    Ts30(0xb95c1);
    Ts30(0xd402a);
    Ts30(0x4e792);
    Ts30(0xabf24);
    Ts30(0x270e9);
    RootFrom(30, 0x890c7, 0x56258, 0xb95c1, 0xd402a, 0x4e792, 0xabf24, 0x270e9);
  }

  lemma Jumps32a()
    ensures T32(0x00001) == 0x3d35f
  {
    assert T16(0x00001) == 0x10000;
  }

  lemma Jumps32b()
    ensures T32(0x61b99) == 0xb9693
  {
    assert T16(0x61b99) == 0x0e5e7;
  }

  lemma Jumps32c()
    ensures T32(0x28ec1) == 0x081c8
  {
    assert T16(0x28ec1) == 0x99b05;
  }

  lemma Jumps32d()
    ensures T32(0x03dae) == 0x7e28d
  {
    assert T16(0x03dae) == 0xa8016;
  }

  lemma Jumps32e()
    ensures T32(0x2962c) == 0xbaabf
  {
    assert T16(0x2962c) == 0xcce59;
  }

  lemma Jumps32f()
    ensures T32(0xb16d9) == 0x30c6a
  {
    assert T16(0xb16d9) == 0x02702;
  }

  lemma Jumps32g()
    ensures T32(0xa1438) == 0x1cf4e
  {
    assert T16(0xa1438) == 0xae86e;
  }

  lemma Jumps32h()
    ensures T32(0x40788) == 0x00001
  {
    assert T16(0x40788) == 0x8c2f3;
  }

  lemma Root32()
    ensures Root(32)
  {
    hide Ts, Root, T32;
    Jumps32a(); Jumps32b(); Jumps32c(); Jumps32d(); Jumps32e(); Jumps32f(); Jumps32g(); Jumps32h();
    Ts32(0x00001);
    Ts32(0x61b99);
    Ts32(0x28ec1);
    Ts32(0x03dae);
    Ts32(0x2962c);
    Ts32(0xb16d9);
    Ts32(0xa1438);
    Ts32(0x40788);
    RootFrom(32, 0x61b99, 0x28ec1, 0x03dae, 0x2962c, 0xb16d9, 0xa1438, 0x40788);
  }

  function Reversed(v: seq<bv8>): seq<bv8> { if v == [] then [] else [v[|v| - 1]] + Reversed(v[..|v| - 1]) }

  lemma {:induction false} ReversedLength(v: seq<bv8>)
    ensures |Reversed(v)| == |v|
  {
    if v != [] { ReversedLength(v[..|v| - 1]); }
  }

  /** At the inverse of T^s a polynomial has, but for a factor, the value of its reverse at T^s. */
  lemma {:induction false} EvReversed(s: nat, v: seq<bv8>)
    requires s <= 1025 && v != []
    ensures Ts(Ev(1025 - s, v), Times(s, |v| - 1)) == Ev(s, Reversed(v))
    decreases |v|
  {
    hide Ts, Scaled, Xor, Made;
    var t, d := v[..|v| - 1], v[|v| - 1];
    assert v == t + [d];
    EvSnoc(1025 - s, t, d);
    EvFront(s, d, Reversed(t));
    ReversedLength(t);
    var x, n := Ev(1025 - s, t), Times(s, |t|);
    TsLinear(Ts(x, 1025 - s), Scaled(d, 1), n);
    TsAdd(x, 1025 - s, n);
    if t == [] {
      TsLinear(0, 0, 1025 - s + n);
    } else {
      EvReversed(s, t);
      assert 1025 - s + n == 1025 + Times(s, |t| - 1);
      TsAdd(x, 1025, Times(s, |t| - 1));
      MadeEv(1025 - s, t);
      Cycle(x);
    }
  }

  /** The generator reads the same both ways, so inverses of roots are roots. */
  lemma RootInverse(s: nat)
    requires s <= 1025 && Root(s)
    ensures Root(1025 - s)
  {
    hide Ts, Ev, Made;
    GeneratorReversed();
    EvReversed(s, GENERATOR);
    MadeEv(1025 - s, GENERATOR);
    OnlyZeroMoved(Ev(1025 - s, GENERATOR), Times(s, 8));
  }

  lemma GeneratorReversed()
    ensures Reversed(GENERATOR) == GENERATOR
  {
    ReversedLength(GENERATOR);
    forall i | 0 <= i < 9 ensures |Reversed(GENERATOR)| == 9 && Reversed(GENERATOR)[i] == GENERATOR[i] {
      ReversedAt(GENERATOR, i);
      SameBackwards(i);
    }
  }

  lemma SameBackwards(i: nat)
    requires i < 9
    ensures GENERATOR[8 - i] == GENERATOR[i]
  {
  }

  lemma {:induction false} ReversedAt(v: seq<bv8>, i: nat)
    requires i < |v|
    ensures |Reversed(v)| == |v| && Reversed(v)[i] == v[|v| - 1 - i]
  {
    ReversedLength(v);
    if i > 0 { ReversedAt(v[..|v| - 1], i - 1); }
  }

  lemma OnlyZeroMoved(w: bv64, e: nat)
    requires Made(w) && Ts(w, e) == 0
    ensures w == 0
  {
    hide Ts, Made;
    Cycle(w);
    FixedMultiple(w, 1025, e);
    TsAdd(w, e, 1024 * e);
    TsLinear(0, 0, 1024 * e);
    assert e + 1024 * e == 1025 * e;
  }

  /** The six roots, with the first progression shifted by 1025 to be sums. */
  lemma Roots(s: nat)
    requires s == 995 || s == 1026 || s == 1057 || s == 2018 || s == 2049 || s == 2080
    ensures Root(s)
  {
    hide Root;
    Root1(); Root30(); Root32();
    RootInverse(1); RootInverse(30); RootInverse(32);
    RootCycle(1); RootCycle(32); RootCycle(993); RootCycle(1024); RootCycle(30); RootCycle(1055);
  }

  lemma RootCycle(s: nat)
    ensures Root(s) <==> Root(s + 1025)
  {
    hide Ev;
    EvCycle(s, GENERATOR);
  }

  lemma {:induction false} EvCycle(s: nat, v: seq<bv8>)
    ensures Ev(s + 1025, v) == Ev(s, v)
  {
    hide Ts, Scaled, Xor, Made;
    if v != [] {
      var x := Ev(s, v[..|v| - 1]);
      EvCycle(s, v[..|v| - 1]);
      MadeEv(s, v[..|v| - 1]);
      TsAdd(x, s, 1025);
      MadeTs(x, s);
      Cycle(Ts(x, s));
    }
  }

  // --- Multiples of the generator are 0 at its roots ---

  /** The remainder of a polynomial, without the 1 in front. */
  function Remainder(u: seq<bv8>): bv64 {
    if u == [] then 0 else Xor(Next(Remainder(u[..|u| - 1])), Wide(u[|u| - 1]))
  }

  lemma {:induction false} RemainderBound(u: seq<bv8>)
    ensures Remainder(u) < 0x100_0000_0000
  {
    hide Next, Xor, Wide;
    if u != [] { NextBound(Remainder(u[..|u| - 1]), u[|u| - 1]); }
  }

  lemma UnpackedCoefficient(c: bv64, i: nat)
    requires i < 8
    ensures Unpacked(c, 8)[i] == Coefficient(c, 7 - i) < 32
  {
    hide Down, LowFive;
    UnpackedAt(c, 8, i);
    LowFiveSmall(Down(c, 7 - i));
  }

  lemma LowFiveSmall(m: bv64)
    ensures LowFive(m) < 32
  {
  }

  lemma GeneratorAt(i: nat)
    requires i < 9
    ensures GENERATOR[i] == Generator(8 - i) && GENERATOR[i] < 32
  {
  }

  /** One step of the remainder: the leading coefficient times the generator is taken off. */
  lemma EvNext(s: nat, c: bv64, d: bv8)
    requires Root(s) && c < 0x100_0000_0000 && d < 32
    ensures Ev(s, Unpacked(Xor(Next(c), Wide(d)), 8)) == Xor(Ts(Ev(s, Unpacked(c, 8)), s), Scaled(d, 1))
  {
    hide Ts, Scaled, Xor, Next, Wide, Mul, Add, Ev, Coefficient, Generator;
    var v, n := Unpacked(c, 8), Unpacked(Xor(Next(c), Wide(d)), 8);
    var l := Coefficient(c, 7);
    UnpackedCoefficient(c, 0);
    var full, less := v + [d], seq(9, i requires 0 <= i < 9 => Mul(l, GENERATOR[i]));
    var zero: seq<bv8> := [0];
    forall i | 0 <= i < 9 ensures (zero + n)[i] == Add(full[i], less[i]) { CoefficientLess(c, d, i); }
    EvSum(s, full, less, zero + n);
    assert Fives(GENERATOR) by { forall i | 0 <= i < 9 ensures GENERATOR[i] < 32 { GeneratorAt(i); } }
    EvScale(s, l, GENERATOR, less);
    ScaledLinear(l, 0, 0);
    EvFront(s, 0, n);
    ScaledAdd(0, 0, 1);
    TsLinear(0, 0, Times(s, 8));
    EvSnoc(s, v, d);
    XorUndo(Ev(s, n), 0);
    XorUndo(Ev(s, full), 0);
  }

  lemma CoefficientLess(c: bv64, d: bv8, i: nat)
    requires c < 0x100_0000_0000 && d < 32 && i < 9
    ensures var n := Unpacked(Xor(Next(c), Wide(d)), 8);
      (if i == 0 then 0 else n[i - 1]) ==
      Add(if i < 8 then Unpacked(c, 8)[i] else d, Mul(Coefficient(c, 7), GENERATOR[i]))
  {
    hide Xor, Next, Wide, Mul, Add, Coefficient, Generator;
    var l := Coefficient(c, 7);
    GeneratorAt(i);
    if i == 0 {
      UnpackedCoefficient(c, 0);
      MulOne(l);
    } else {
      CoefficientNext(c, d, 8 - i);
      UnpackedCoefficient(Xor(Next(c), Wide(d)), i - 1);
      if i < 8 { UnpackedCoefficient(c, i); }
    }
  }

  lemma MulOne(l: bv8)
    requires l < 32
    ensures Mul(l, 1) == l && Add(l, l) == 0 && Generator(8) == 1
  {
    MulEnds(l);
  }

  lemma {:induction false} EvRemainder(s: nat, u: seq<bv8>)
    requires Root(s) && Fives(u)
    ensures Ev(s, u) == Ev(s, Unpacked(Remainder(u), 8))
  {
    hide Ts, Scaled, Xor, Next, Wide, Root, Unpacked;
    if u == [] {
      EvZeros(s, 8);
    } else {
      var t := u[..|u| - 1];
      EvRemainder(s, t);
      RemainderBound(t);
      EvNext(s, Remainder(t), u[|u| - 1]);
    }
  }

  lemma {:induction false} EvZeros(s: nat, n: nat)
    ensures Ev(s, Unpacked(0, n)) == 0
  {
    hide Ts, Scaled, Xor;
    if n > 0 {
      EvZeros(s, n - 1);
      DropZero();
      EvSnoc(s, Unpacked(0, n - 1), 0);
      TsLinear(0, 0, s);
      ScaledAdd(0, 0, 1);
      XorUndo(0, 0);
    }
  }

  lemma DropZero()
    ensures Drop(0) == 0 && LowFive(0) == 0
  {
  }

  /** The values two texts differ by. */
  predicate Differ(v: seq<bv8>, w: seq<bv8>, u: seq<bv8>) {
    |v| == |w| == |u| && forall i :: 0 <= i < |u| ==> u[i] == Add(v[i], w[i])
  }

  lemma {:induction false} RemainderOfDifference(v: seq<bv8>, w: seq<bv8>, u: seq<bv8>)
    requires Differ(v, w, u)
    ensures Xor(PolyMod(v), PolyMod(w)) == Remainder(u)
  {
    hide Xor, Next, Wide, Add;
    XorUndo(1, 0);
    if u != [] {
      var n := |u| - 1;
      RemainderOfDifference(v[..n], w[..n], u[..n]);
      var x, y := PolyMod(v[..n]), PolyMod(w[..n]);
      NextLinear(x, y);
      XorPairs(Next(x), Wide(v[n]), Next(y), Wide(w[n]));
      WideAdd(v[n], w[n]);
    }
  }

  lemma WideAdd(b: bv8, c: bv8)
    ensures Wide(Add(b, c)) == Xor(Wide(b), Wide(c))
  {
  }

  // --- Sums of few terms ---

  /** A term w * (T^c)^n, for every c. */
  datatype Term = Term(n: nat, w: bv64)

  function Total(l: seq<Term>, c: nat): bv64 {
    if l == [] then 0 else
    var t := l[|l| - 1];
    Xor(Total(l[..|l| - 1], c), Ts(t.w, Times(c, t.n)))
  }

  ghost predicate AllMade(l: seq<Term>) { forall k :: 0 <= k < |l| ==> Made(l[k].w) }

  /** The exponents differ modulo the order of T. */
  predicate Apart(l: seq<Term>) { forall i, j :: 0 <= i < j < |l| ==> (l[i].n - l[j].n) % 1025 != 0 }

  predicate AllZero(l: seq<Term>) { forall k :: 0 <= k < |l| ==> l[k].w == 0 }

  /** One term less: what is left of the others when the sum at c is combined with the next one. */
  function Eliminated(l: seq<Term>, n0: nat, c: nat): (r: seq<Term>)
    ensures |r| == |l|
    ensures forall k :: 0 <= k < |l| ==>
      r[k] == Term(l[k].n, Xor(Ts(l[k].w, Times(c, l[k].n)), Ts(l[k].w, Times(c, n0))))
  {
    seq(|l|, k requires 0 <= k < |l| =>
      Term(l[k].n, Xor(Ts(l[k].w, Times(c, l[k].n)), Ts(l[k].w, Times(c, n0)))))
  }

  lemma {:induction false} EliminatedTotal(l: seq<Term>, n0: nat, c: nat, b: nat)
    ensures Total(Eliminated(l, n0, c), b) == Xor(Total(l, b + c), Ts(Total(l, b), Times(c, n0)))
  {
    hide Ts, Xor, Times;
    TsLinear(0, 0, Times(c, n0));
    XorUndo(0, 0);
    if l != [] {
      var f, t := l[..|l| - 1], l[|l| - 1];
      EliminatedTotal(f, n0, c, b);
      assert Eliminated(l, n0, c)[..|f|] == Eliminated(f, n0, c);
      var bn, cn, c0 := Times(b, t.n), Times(c, t.n), Times(c, n0);
      TsLinear(Ts(t.w, cn), Ts(t.w, c0), bn);
      TimesSum(b, c, t.n);
      TsAdd(t.w, cn, bn);
      TsSwap(t.w, c0, bn);
      TsLinear(Total(f, b), Ts(t.w, bn), c0);
      XorPairs(Total(f, b + c), Ts(Total(f, b), c0), Ts(t.w, cn + bn), Ts(Ts(t.w, bn), c0));
    }
  }

  lemma TimesSum(b: nat, c: nat, n: nat)
    ensures Times(b + c, n) == Times(c, n) + Times(b, n)
  {
    assert (b + c) * n == b * n + c * n;
  }

  /** If the sums at b and b + c are 0, so is the sum with one term less. */
  lemma OneLess(l: seq<Term>, c: nat, b: nat)
    requires l != [] && Total(l, b) == 0 && Total(l, b + c) == 0
    ensures Total(Eliminated(l[..|l| - 1], l[|l| - 1].n, c), b) == 0
  {
    hide Ts, Xor, Times;
    var f, t := l[..|l| - 1], l[|l| - 1];
    EliminatedTotal(f, t.n, c, b);
    XorSame(Total(f, b), Ts(t.w, Times(b, t.n)));
    XorSame(Total(f, b + c), Ts(t.w, Times(b + c, t.n)));
    TimesSum(b, c, t.n);
    TsAdd(t.w, Times(b, t.n), Times(c, t.n));
    assert Times(c, t.n) + Times(b, t.n) == Times(b, t.n) + Times(c, t.n);
    XorUndo(Total(f, b + c), 0);
  }

  lemma Divided(c: nat, i: nat, q: nat, x: int)
    requires c * i == 1025 * q + 1 && c * x % 1025 == 0
    ensures x % 1025 == 0
  {
    var m := c * x / 1025;
    assert c * x == 1025 * m;
    assert i * (c * x) == c * i * x;
    assert (1025 * q + 1) * x == 1025 * (q * x) + x;
    assert x == 1025 * (i * m - q * x);
    DivModUnique(x, 1025, i * m - q * x, 0);
  }

  /** Multiplying by c keeps what is not a multiple of 1025 that way. */
  predicate Unit(c: nat) { c == 31 || c == 1023 }

  lemma UnitKeeps(c: nat, x: int)
    requires Unit(c) && x % 1025 != 0
    ensures c * x % 1025 != 0
  {
    if c * x % 1025 == 0 {
      if c == 31 { Divided(31, 496, 15, x); } else { Divided(1023, 512, 511, x); }
    }
  }

  /** Different powers of T tell words apart from 0. */
  lemma Separated(w: bv64, n: nat, m: nat, c: nat)
    requires Made(w) && Unit(c) && n > m && (n - m) % 1025 != 0
    requires Ts(w, Times(c, n)) == Ts(w, Times(c, m))
    ensures w == 0
  {
    hide Ts, Made;
    var v, e := Ts(w, Times(c, m)), Times(c, n - m);
    assert Times(c, n) == Times(c, m) + e;
    TsAdd(w, Times(c, m), e);
    MadeTs(w, Times(c, m));
    UnitKeeps(c, n - m);
    Cycle(v);
    FixedRest(v, e, 1025);
    OnlyZeroFixed(v, e % 1025);
    OnlyZeroMoved(w, Times(c, m));
  }

  lemma NotEliminated(t: Term, n0: nat, c: nat)
    requires Made(t.w) && Unit(c) && (t.n - n0) % 1025 != 0
    requires Xor(Ts(t.w, Times(c, t.n)), Ts(t.w, Times(c, n0))) == 0
    ensures t.w == 0
  {
    hide Ts, Made, Xor, Times;
    XorSame(Ts(t.w, Times(c, t.n)), Ts(t.w, Times(c, n0)));
    if t.n > n0 {
      Separated(t.w, t.n, n0, c);
    } else {
      Opposite(t.n - n0);
      Separated(t.w, n0, t.n, c);
    }
  }

  lemma Opposite(x: int)
    requires x % 1025 != 0
    ensures -x % 1025 != 0
  {
    if -x % 1025 == 0 { DivModUnique(x, 1025, -(-x / 1025), 0); }
  }

  lemma EliminatedKeeps(l: seq<Term>, c: nat)
    requires l != [] && AllMade(l) && Apart(l) && Unit(c)
    ensures var r := Eliminated(l[..|l| - 1], l[|l| - 1].n, c);
      AllMade(r) && Apart(r) && (AllZero(r) ==> AllZero(l[..|l| - 1]))
  {
    hide Ts, Made, Xor, Times;
    var f, n0 := l[..|l| - 1], l[|l| - 1].n;
    var r := Eliminated(f, n0, c);
    forall k | 0 <= k < |f| ensures Made(r[k].w) && (r[k].w == 0 ==> f[k].w == 0) {
      var w := f[k].w;
      assert Made(l[k].w);
      MadeTs(w, Times(c, f[k].n));
      MadeTs(w, Times(c, n0));
      MadeXor(Ts(w, Times(c, f[k].n)), Ts(w, Times(c, n0)));
      assert (l[k].n - l[|l| - 1].n) % 1025 != 0;
      if r[k].w == 0 { NotEliminated(f[k], n0, c); }
    }
  }

  lemma {:induction false} ZeroTotal(l: seq<Term>, c: nat)
    requires AllZero(l)
    ensures Total(l, c) == 0
  {
    hide Ts, Xor, Times;
    if l != [] {
      ZeroTotal(l[..|l| - 1], c);
      TsLinear(0, 0, Times(c, l[|l| - 1].n));
      XorUndo(0, 0);
    }
  }

  lemma LastZero(l: seq<Term>)
    requires l != [] && Total(l, 0) == 0 && AllZero(l[..|l| - 1])
    ensures AllZero(l)
  {
    hide Ts, Xor;
    var t := l[|l| - 1];
    ZeroTotal(l[..|l| - 1], 0);
    Ts2(t.w);
    XorUndo(t.w, 0);
  }

  /** Terms that sum to 0 at as many consecutive multiples of 31 as there are terms are all 0. */
  lemma {:induction false} Solved(l: seq<Term>, m: nat)
    requires AllMade(l) && Apart(l) && |l| <= m && forall i: nat :: i < m ==> Total(l, 31 * i) == 0
    ensures AllZero(l)
    decreases |l|
  {
    hide Ts, Made, Xor, Times, Total;
    if l != [] {
      var r := Eliminated(l[..|l| - 1], l[|l| - 1].n, 31);
      EliminatedKeeps(l, 31);
      forall i: nat | i < m - 1 ensures Total(r, 31 * i) == 0 {
        assert 31 * (i + 1) == 31 * i + 31;
        assert Total(l, 31 * i) == 0 && Total(l, 31 * (i + 1)) == 0;
        OneLess(l, 31, 31 * i);
      }
      Solved(r, m - 1);
      assert Total(l, 31 * 0) == 0;
      LastZero(l);
    }
  }

  /** Four terms are, with two such progressions of three. */
  lemma FourSolved(l: seq<Term>)
    requires AllMade(l) && Apart(l) && |l| <= 4
    requires Total(l, 0) == 0 && Total(l, 31) == 0 && Total(l, 62) == 0
    requires Total(l, 1023) == 0 && Total(l, 1054) == 0 && Total(l, 1085) == 0
    ensures AllZero(l)
  {
    hide Ts, Made, Xor, Times, Total;
    if l != [] {
      var r := Eliminated(l[..|l| - 1], l[|l| - 1].n, 1023);
      EliminatedKeeps(l, 1023);
      OneLess(l, 1023, 0);
      OneLess(l, 1023, 31);
      OneLess(l, 1023, 62);
      forall i: nat | i < 3 ensures Total(r, 31 * i) == 0 {
        if i == 0 {} else if i == 1 {} else {}
      }
      Solved(r, 3);
      LastZero(l);
    }
  }

  // --- The changed values as terms ---

  function Moved(l: seq<Term>): (r: seq<Term>)
    ensures |r| == |l| && forall k :: 0 <= k < |l| ==> r[k] == Term(l[k].n + 1, Ts(l[k].w, 995))
  {
    seq(|l|, k requires 0 <= k < |l| => Term(l[k].n + 1, Ts(l[k].w, 995)))
  }

  /** A term for every value that is not 0, with its distance from the end. */
  function Terms(u: seq<bv8>): seq<Term> {
    if u == [] then [] else
    var d := u[|u| - 1];
    Moved(Terms(u[..|u| - 1])) + if d == 0 then [] else [Term(0, Scaled(d, 1))]
  }

  lemma {:induction false} MovedTotal(l: seq<Term>, c: nat)
    ensures Total(Moved(l), c) == Ts(Total(l, c), 995 + c)
  {
    hide Ts, Xor, Times;
    TsLinear(0, 0, 995 + c);
    if l != [] {
      var f, t := l[..|l| - 1], l[|l| - 1];
      MovedTotal(f, c);
      assert Moved(l)[..|f|] == Moved(f);
      TsLinear(Total(f, c), Ts(t.w, Times(c, t.n)), 995 + c);
      TimesNext(c, t.n);
      TsAdd(t.w, 995, Times(c, t.n + 1));
      TsAdd(t.w, Times(c, t.n), 995 + c);
    }
  }

  lemma TimesNext(c: nat, n: nat)
    ensures 995 + Times(c, n + 1) == Times(c, n) + (995 + c)
  {
  }

  lemma {:induction false} TermsTotal(u: seq<bv8>, c: nat)
    ensures Total(Terms(u), c) == Ev(995 + c, u)
  {
    hide Ts, Xor, Scaled;
    if u != [] {
      var t, d := u[..|u| - 1], u[|u| - 1];
      TermsTotal(t, c);
      var l := Moved(Terms(t));
      MovedTotal(Terms(t), c);
      if d == 0 {
        assert Terms(u) == l;
        ScaledAdd(0, 0, 1);
        XorUndo(Total(l, c), 0);
      } else {
        assert Terms(u)[..|l|] == l;
        Ts2(Scaled(d, 1));
      }
    }
  }

  /** The positions of the values that are not 0. */
  function NonZero(u: seq<bv8>): set<int> { set i | 0 <= i < |u| && u[i] != 0 }

  predicate Placed(u: seq<bv8>, l: seq<Term>) {
    && (forall k :: 0 <= k < |l| ==> l[k].n < |u| && u[|u| - 1 - l[k].n] != 0)
    && forall i, j :: 0 <= i < j < |l| ==> l[i].n > l[j].n
  }

  lemma {:induction false} TermsPlaced(u: seq<bv8>)
    ensures Placed(u, Terms(u)) && |Terms(u)| == |NonZero(u)|
  {
    hide Ts, Scaled, Placed, NonZero;
    if u == [] {
      NonePlaced();
    } else {
      var t, d := u[..|u| - 1], u[|u| - 1];
      TermsPlaced(t);
      PlacedMoved(u, Terms(t));
      NonZeroLast(u);
      var l := Moved(Terms(t));
      assert Terms(u) == if d == 0 then l else l + [Term(0, Scaled(d, 1))];
    }
  }

  lemma NonePlaced()
    ensures Placed([], []) && |NonZero([])| == 0
  {
  }

  lemma NonZeroLast(u: seq<bv8>)
    requires u != []
    ensures |NonZero(u)| == |NonZero(u[..|u| - 1])| + if u[|u| - 1] == 0 then 0 else 1
  {
    var t := u[..|u| - 1];
    if u[|u| - 1] == 0 {
      assert NonZero(u) == NonZero(t);
    } else {
      assert NonZero(u) == NonZero(t) + {|t|};
    }
  }

  lemma PlacedMoved(u: seq<bv8>, l: seq<Term>)
    requires u != [] && Placed(u[..|u| - 1], l)
    ensures Placed(u, Moved(l)) && (u[|u| - 1] != 0 ==> forall w :: Placed(u, Moved(l) + [Term(0, w)]))
  {
    hide Ts;
    var t, r := u[..|u| - 1], Moved(l);
    forall k | 0 <= k < |l| ensures r[k].n < |u| && u[|u| - 1 - r[k].n] != 0 {
      assert t[|t| - 1 - l[k].n] != 0;
    }
  }

  lemma {:induction false} TermsMade(u: seq<bv8>)
    requires Fives(u)
    ensures AllMade(Terms(u)) && forall k :: 0 <= k < |Terms(u)| ==> Terms(u)[k].w != 0
  {
    hide Ts, Scaled, Made;
    if u != [] {
      var t, d := u[..|u| - 1], u[|u| - 1];
      TermsMade(t);
      var l := Moved(Terms(t));
      forall k | 0 <= k < |l| ensures Made(l[k].w) && l[k].w != 0 {
        assert Made(Terms(t)[k].w);
        TermMoved(Terms(t)[k].w);
      }
      if d != 0 { TermMade(d); }
    }
  }

  lemma TermMoved(w: bv64)
    requires Made(w) && w != 0
    ensures Made(Ts(w, 995)) && Ts(w, 995) != 0
  {
    hide Ts, Made;
    MadeTs(w, 995);
    if Ts(w, 995) == 0 { OnlyZeroMoved(w, 995); }
  }

  lemma TermMade(d: bv8)
    requires 0 < d < 32
    ensures Made(Scaled(d, 1)) && Scaled(d, 1) != 0
  {
    hide Scaled, Made;
    MadeOne();
    MadeScaled(d, 1);
    if Scaled(d, 1) == 0 { NotScaledAway(d, 1); }
  }

  /** Every nonzero polynomial of at most four terms within 1025 places has a remainder. */
  lemma FewTerms(u: seq<bv8>)
    requires Fives(u) && 1 <= |NonZero(u)| <= 4
    requires forall i, j :: i in NonZero(u) && j in NonZero(u) ==> i - j < 1025
    ensures Remainder(u) != 0
  {
    hide Ts, Made, Total, Terms, Ev, Unpacked, NonZero;
    var l := Terms(u);
    TermsPlaced(u);
    TermsMade(u);
    WindowApart(u, l);
    assert l[0].w != 0;
    if Remainder(u) == 0 {
      VanishesAt(u, 995); VanishesAt(u, 1026); VanishesAt(u, 1057);
      VanishesAt(u, 2018); VanishesAt(u, 2049); VanishesAt(u, 2080);
      TermsTotal(u, 0); TermsTotal(u, 31); TermsTotal(u, 62);
      TermsTotal(u, 1023); TermsTotal(u, 1054); TermsTotal(u, 1085);
      FourSolved(l);
    }
  }

  lemma WindowApart(u: seq<bv8>, l: seq<Term>)
    requires Placed(u, l) && forall i, j :: i in NonZero(u) && j in NonZero(u) ==> i - j < 1025
    ensures Apart(l)
  {
    forall i, j | 0 <= i < j < |l| ensures (l[i].n - l[j].n) % 1025 != 0 {
      assert |u| - 1 - l[i].n in NonZero(u) && |u| - 1 - l[j].n in NonZero(u);
    }
  }

  lemma VanishesAt(u: seq<bv8>, s: nat)
    requires Fives(u) && Remainder(u) == 0
    requires s == 995 || s == 1026 || s == 1057 || s == 2018 || s == 2049 || s == 2080
    ensures Ev(s, u) == 0
  {
    hide Ev, Unpacked;
    Roots(s);
    EvRemainder(s, u);
    EvZeros(s, 8);
  }

  /** The positions at which two lists of values differ. */
  function Changed(v: seq<bv8>, w: seq<bv8>): set<int>
    requires |v| == |w|
  {
    set i | 0 <= i < |v| && v[i] != w[i]
  }

  /** Up to four changed values within a window of 1025 are detected, wherever they are. */
  lemma FourDetected(v: seq<bv8>, w: seq<bv8>)
    requires |v| == |w| && Fives(v) && Fives(w) && 1 <= |Changed(v, w)| <= 4
    requires forall i, j :: i in Changed(v, w) && j in Changed(v, w) ==> i - j < 1025
    ensures PolyMod(v) != PolyMod(w)
  {
    hide PolyMod, Remainder, Xor;
    var u := seq(|v|, i requires 0 <= i < |v| => Add(v[i], w[i]));
    forall i | 0 <= i < |v| ensures u[i] < 32 && (u[i] == 0 <==> v[i] == w[i]) { AddSame(v[i], w[i]); }
    assert NonZero(u) == Changed(v, w);
    RemainderOfDifference(v, w, u);
    FewTerms(u);
    XorSame(PolyMod(v), PolyMod(w));
  }

  lemma AddSame(b: bv8, c: bv8)
    requires b < 32 && c < 32
    ensures Add(b, c) < 32 && (Add(b, c) == 0 <==> b == c)
  {
  }
}
