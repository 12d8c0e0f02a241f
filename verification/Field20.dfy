/** The words of 20 bits as the field of 2^20 elements in which the cashaddr code lives
    (src/cashaddr.cpp): T multiplies by an element of order 1025, Theta by the generator a of
    GF(32). */
module Field20 {
  import opened Powers
  import opened CashAddrCode
  import opened CashAddrField

  // --- Multiplying by the element of order 1025 ---

  function Fold20(w: bv64): bv64 { if w & 0x80000 != 0 then 0x26ec9 else 0 }

  function Shift20(w: bv64): bv64 { (w & 0x7ffff) << 1 }

  function T(w: bv64): bv64 { Xor(Shift20(w), Fold20(w)) }

  function Ts(w: bv64, e: nat): bv64 { if e == 0 then w else T(Ts(w, e - 1)) }

  lemma Shift20Linear(a: bv64, b: bv64)
    ensures Shift20(Xor(a, b)) == Xor(Shift20(a), Shift20(b))
  {
  }

  lemma TopBit(a: bv64, b: bv64)
    ensures Xor(a, b) & 0x80000 != 0 <==> (a & 0x80000 != 0) != (b & 0x80000 != 0)
  {
  }

  lemma Fold20Linear(a: bv64, b: bv64)
    ensures Fold20(Xor(a, b)) == Xor(Fold20(a), Fold20(b))
  {
    TopBit(a, b);
    FoldXor();
    hide Xor;
    assert Fold20(Xor(a, b)) == if (a & 0x80000 != 0) != (b & 0x80000 != 0) then 0x26ec9 else 0;
  }

  lemma FoldXor()
    ensures Xor(0x26ec9, 0x26ec9) == 0 && Xor(0x26ec9, 0) == 0x26ec9 && Xor(0, 0x26ec9) == 0x26ec9 && Xor(0, 0) == 0
  {
  }

  lemma TLinear(a: bv64, b: bv64)
    ensures T(Xor(a, b)) == Xor(T(a), T(b)) && T(0) == 0
  {
    TZero();
    hide Xor, Shift20, Fold20;
    Shift20Linear(a, b);
    Fold20Linear(a, b);
    XorPairs(Shift20(a), Shift20(b), Fold20(a), Fold20(b));
  }

  lemma TZero()
    ensures T(0) == 0
  {
  }

  lemma {:induction false} TsLinear(a: bv64, b: bv64, e: nat)
    ensures Ts(Xor(a, b), e) == Xor(Ts(a, e), Ts(b, e)) && Ts(0, e) == 0
  {
    hide Xor, T;
    TLinear(a, b);
    if e > 0 {
      TsLinear(a, b, e - 1);
      TLinear(Ts(a, e - 1), Ts(b, e - 1));
    }
  }

  lemma {:induction false} TsAdd(w: bv64, a: nat, b: nat)
    ensures Ts(w, a + b) == Ts(Ts(w, a), b)
  {
    hide T;
    if b > 0 { TsAdd(w, a, b - 1); }
  }

  lemma TsSwap(w: bv64, a: nat, b: nat)
    ensures Ts(Ts(w, a), b) == Ts(Ts(w, b), a)
  {
    hide Ts;
    TsAdd(w, a, b);
    TsAdd(w, b, a);
    assert a + b == b + a;
  }

  // --- Words made from 1 ---

  /** The sum of powers of T. */
  function Value(es: seq<nat>): bv64 {
    if es == [] then 0 else Xor(Value(es[..|es| - 1]), Ts(1, es[|es| - 1]))
  }

  ghost predicate Made(w: bv64) { exists es :: Value(es) == w }

  lemma ValueSnoc(es: seq<nat>, e: nat)
    ensures Value(es + [e]) == Xor(Value(es), Ts(1, e))
  {
    assert (es + [e])[..|es|] == es;
  }

  lemma {:induction false} ValueAppend(a: seq<nat>, b: seq<nat>)
    ensures Value(a + b) == Xor(Value(a), Value(b))
  {
    hide Xor, Ts;
    if b == [] {
      assert a + b == a;
      XorUndo(Value(a), 0);
    } else {
      var t, e := b[..|b| - 1], b[|b| - 1];
      ValueAppend(a, t);
      assert a + b == (a + t) + [e];
      ValueSnoc(a + t, e);
      XorAssoc(Value(a), Value(t), Ts(1, e));
    }
  }

  lemma {:induction false} ValueShift(es: seq<nat>, k: nat) returns (r: seq<nat>)
    ensures Value(r) == Ts(Value(es), k)
  {
    hide Xor, Ts;
    if es == [] {
      r := [];
      TsLinear(0, 0, k);
    } else {
      var t, e := es[..|es| - 1], es[|es| - 1];
      r := ValueShift(t, k);
      ValueSnoc(r, e + k);
      TsLinear(Value(t), Ts(1, e), k);
      TsAdd(1, e, k);
      r := r + [e + k];
    }
  }

  lemma MadeOne()
    ensures Made(1) && Made(0)
  {
    assert Value([]) == 0;
    assert [0][..0] == [];
    XorUndo(1, 0);
    assert Value([0]) == 1;
  }

  lemma MadeXor(a: bv64, b: bv64)
    requires Made(a) && Made(b)
    ensures Made(Xor(a, b))
  {
    hide Value, Xor;
    var es :| Value(es) == a;
    var fs :| Value(fs) == b;
    ValueAppend(es, fs);
  }

  lemma MadeTs(w: bv64, k: nat)
    requires Made(w)
    ensures Made(Ts(w, k))
  {
    hide Value, Ts;
    var es :| Value(es) == w;
    var r := ValueShift(es, k);
  }

  // --- Polynomials in T, by the gaps between their exponents ---

  datatype Gaps = End | Gap(k: nat, rest: Gaps)

  function Horner(p: Gaps, acc: bv64, w: bv64): bv64 {
    match p
    case End => acc
    case Gap(k, rest) => Horner(rest, Xor(Ts(acc, k), w), w)
  }

  function Apply(p: Gaps, w: bv64): bv64 { Horner(p, w, w) }

  lemma {:induction false} HornerLinear(p: Gaps, a: bv64, b: bv64, v: bv64, w: bv64)
    ensures Horner(p, Xor(a, b), Xor(v, w)) == Xor(Horner(p, a, v), Horner(p, b, w))
    decreases p
  {
    hide Xor, Ts;
    if p.Gap? {
      TsLinear(a, b, p.k);
      XorPairs(Ts(a, p.k), Ts(b, p.k), v, w);
      HornerLinear(p.rest, Xor(Ts(a, p.k), v), Xor(Ts(b, p.k), w), v, w);
    }
  }

  lemma {:induction false} HornerTs(p: Gaps, acc: bv64, w: bv64, e: nat)
    ensures Horner(p, Ts(acc, e), Ts(w, e)) == Ts(Horner(p, acc, w), e)
    decreases p
  {
    hide Xor, Ts;
    if p.Gap? {
      TsSwap(acc, e, p.k);
      TsLinear(Ts(acc, p.k), w, e);
      HornerTs(p.rest, Xor(Ts(acc, p.k), w), w, e);
    }
  }

  lemma {:induction false} HornerZero(p: Gaps)
    ensures Horner(p, 0, 0) == 0
  {
    hide Xor, Ts;
    if p.Gap? {
      TsLinear(0, 0, p.k);
      XorUndo(0, 0);
      HornerZero(p.rest);
    }
  }

  lemma {:induction false} MadeHorner(p: Gaps, acc: bv64, w: bv64)
    requires Made(acc) && Made(w)
    ensures Made(Horner(p, acc, w))
    decreases p
  {
    hide Xor, Ts, Made;
    if p.Gap? {
      MadeTs(acc, p.k);
      MadeXor(Ts(acc, p.k), w);
      MadeHorner(p.rest, Xor(Ts(acc, p.k), w), w);
    }
  }

  // --- The order of T ---

  function T2(w: bv64): bv64 { T(T(w)) }

  function T4(w: bv64): bv64 { T2(T2(w)) }

  function T8(w: bv64): bv64 { T4(T4(w)) }

  function T16(w: bv64): bv64 { T8(T8(w)) }

  function T32(w: bv64): bv64 { T16(T16(w)) }

  lemma Ts2(w: bv64)
    ensures Ts(w, 0) == w && Ts(w, 1) == T(w) && Ts(w, 2) == T2(w)
  {
    hide T;
    assert Ts(w, 0) == w;
  }

  lemma Ts4(w: bv64)
    ensures Ts(w, 4) == T4(w)
  {
    hide T, T2, Ts;
    TsAdd(w, 2, 2); Ts2(w); Ts2(T2(w));
  }

  lemma Ts8(w: bv64)
    ensures Ts(w, 8) == T8(w)
  {
    hide T, T4, Ts;
    TsAdd(w, 4, 4); Ts4(w); Ts4(T4(w));
  }

  lemma Ts16(w: bv64)
    ensures Ts(w, 16) == T16(w)
  {
    hide T, T8, Ts;
    TsAdd(w, 8, 8); Ts8(w); Ts8(T8(w));
  }

  lemma Ts32(w: bv64)
    ensures Ts(w, 32) == T32(w)
  {
    hide T, T16, Ts;
    TsAdd(w, 16, 16); Ts16(w); Ts16(T16(w));
  }

  /** T^z * p(T) is T^k. */
  predicate IsPower(p: Gaps, z: nat, k: nat) { Ts(Apply(p, 1), z) == Ts(1, k) }

  lemma {:induction false} PowerOf(p: Gaps, z: nat, k: nat, es: seq<nat>)
    requires IsPower(p, z, k)
    ensures Ts(Apply(p, Value(es)), z) == Ts(Value(es), k)
  {
    hide Xor, Ts, Horner;
    if es == [] {
      TsLinear(0, 0, k);
      TsLinear(0, 0, z);
      HornerZero(p);
    } else {
      var t, e := es[..|es| - 1], es[|es| - 1];
      PowerOf(p, z, k, t);
      HornerLinear(p, Value(t), Ts(1, e), Value(t), Ts(1, e));
      TsLinear(Apply(p, Value(t)), Apply(p, Ts(1, e)), z);
      HornerTs(p, 1, 1, e);
      TsSwap(Apply(p, 1), e, z);
      TsSwap(1, k, e);
      TsLinear(Value(t), Ts(1, e), k);
    }
  }

  /** From one power to the next multiple of k. */
  lemma NextPower(p: Gaps, z: nat, k: nat, n: nat, a: bv64, b: bv64)
    requires IsPower(p, z, k) && Ts(1, n) == a && Ts(Apply(p, a), z) == b
    ensures Ts(1, n + k) == b
  {
    hide Ts, Apply, Value;
    MadeOne();
    MadeTs(1, n);
    var es :| Value(es) == a;
    PowerOf(p, z, k, es);
    TsAdd(1, n, k);
  }

  const P41 := Gap(1, Gap(2, Gap(1, Gap(1, Gap(1, Gap(2, Gap(1, Gap(6, Gap(1, Gap(1, Gap(2, End)))))))))))

  const P205 := Gap(1, Gap(1, Gap(1, Gap(2, Gap(3, Gap(4, Gap(1, Gap(1, Gap(2, End)))))))))

  lemma Product41x1() ensures Apply(P41, 1) == 0xdec1d { }

  lemma Product41x2() ensures Apply(P41, 0xdec1d) == 0xb17cd { }

  lemma Product41x3() ensures Apply(P41, 0xb17cd) == 0xa63b2 { }

  lemma Product41x4() ensures Apply(P41, 0xa63b2) == 0x35687 { }

  lemma Product41x5() ensures Apply(P41, 0x35687) == 0x7a474 { }

  lemma Products205()
    ensures T(T(Apply(P205, 1))) == 0x7a474 && T(T(Apply(P205, 0x7a474))) == 0x0ff58
    ensures T(T(Apply(P205, 0x0ff58))) == 0x9ff39
  {
  }

  lemma MoreProducts205()
    ensures T(T(Apply(P205, 0x9ff39))) == 0xea414 && T(T(Apply(P205, 0xea414))) == 1
  {
  }

  lemma Power41()
    ensures Ts(1, 41) == 0xdec1d && IsPower(P41, 0, 41)
  {
    hide Ts, Apply;
    TsAdd(1, 32, 8); TsAdd(1, 40, 1);
    var a := 0x3d35f;
    assert T32(1) == a;
    Ts32(1); Ts8(a); Ts2(T8(a));
    Product41x1();
    Shifted(Apply(P41, 1));
  }

  lemma Shifted(w: bv64)
    ensures Ts(w, 0) == w && Ts(w, 1) == T(w) && Ts(w, 2) == T(T(w)) && Ts(w, 3) == T(T(T(w)))
  {
    hide T;
    assert Ts(w, 1) == T(w) && Ts(w, 2) == T(Ts(w, 1));
  }

  lemma Power205()
    ensures Ts(1, 205) == 0x7a474 && IsPower(P205, 2, 205)
  {
    hide Ts, T, Apply;
    Power41();
    Product41x2(); Product41x3(); Product41x4(); Product41x5();
    Products205();
    Shifted(Apply(P41, 0xdec1d)); NextPower(P41, 0, 41, 41, 0xdec1d, 0xb17cd);
    Shifted(Apply(P41, 0xb17cd)); NextPower(P41, 0, 41, 82, 0xb17cd, 0xa63b2);
    Shifted(Apply(P41, 0xa63b2)); NextPower(P41, 0, 41, 123, 0xa63b2, 0x35687);
    Shifted(Apply(P41, 0x35687)); NextPower(P41, 0, 41, 164, 0x35687, 0x7a474);
    Shifted(Apply(P205, 1));
  }

  lemma Power1025()
    ensures Ts(1, 1025) == 1
  {
    hide Ts, T, Apply;
    Power205();
    Products205();
    MoreProducts205();
    Shifted(Apply(P205, 0x7a474)); NextPower(P205, 2, 205, 205, 0x7a474, 0x0ff58);
    Shifted(Apply(P205, 0x0ff58)); NextPower(P205, 2, 205, 410, 0x0ff58, 0x9ff39);
    Shifted(Apply(P205, 0x9ff39)); NextPower(P205, 2, 205, 615, 0x9ff39, 0xea414);
    Shifted(Apply(P205, 0xea414)); NextPower(P205, 2, 205, 820, 0xea414, 1);
  }

  lemma Power25()
    ensures Ts(1, 25) == 0x46204
  {
    hide Ts;
    TsAdd(1, 16, 8); TsAdd(1, 24, 1);
    var a := 0x10000;
    assert T16(1) == a;
    Ts16(1); Ts8(a); Ts2(T8(a));
  }

  lemma {:induction false} ValueCycle(es: seq<nat>)
    ensures Ts(Value(es), 1025) == Value(es)
  {
    hide Xor, Ts;
    TsLinear(0, 0, 1025);
    if es != [] {
      var t, e := es[..|es| - 1], es[|es| - 1];
      ValueCycle(t);
      TsLinear(Value(t), Ts(1, e), 1025);
      TsSwap(1, e, 1025);
      Power1025();
    }
  }

  /** T has order 1025 on all of them. */
  lemma Cycle(w: bv64)
    requires Made(w)
    ensures Ts(w, 1025) == w
  {
    hide Value, Ts;
    var es :| Value(es) == w;
    ValueCycle(es);
  }

  // --- No word but 0 is fixed by a smaller power ---

  /** T^z * p(T) undoes T^k + 1. */
  predicate Inverts(p: Gaps, z: nat, k: nat) { Ts(Apply(p, Xor(Ts(1, k), 1)), z) == 1 }

  lemma {:induction false} InvertsAll(p: Gaps, z: nat, k: nat, es: seq<nat>)
    requires Inverts(p, z, k)
    ensures Ts(Apply(p, Xor(Ts(Value(es), k), Value(es))), z) == Value(es)
  {
    hide Xor, Ts, Horner;
    if es == [] {
      TsLinear(0, 0, k);
      TsLinear(0, 0, z);
      XorUndo(0, 0);
      HornerZero(p);
    } else {
      var t, e := es[..|es| - 1], es[|es| - 1];
      InvertsAll(p, z, k, t);
      var v, w := Value(t), Ts(1, e);
      var a, b := Xor(Ts(v, k), v), Xor(Ts(w, k), w);
      TsLinear(v, w, k);
      XorPairs(Ts(v, k), Ts(w, k), v, w);
      HornerLinear(p, a, b, a, b);
      TsLinear(Apply(p, a), Apply(p, b), z);
      InvertsShifted(p, z, k, e);
    }
  }

  lemma InvertsShifted(p: Gaps, z: nat, k: nat, e: nat)
    requires Inverts(p, z, k)
    ensures Ts(Apply(p, Xor(Ts(Ts(1, e), k), Ts(1, e))), z) == Ts(1, e)
  {
    hide Xor, Ts, Horner;
    var c := Xor(Ts(1, k), 1);
    TsSwap(1, e, k);
    TsLinear(Ts(1, k), 1, e);
    HornerTs(p, c, c, e);
    TsSwap(Apply(p, c), e, z);
  }

  lemma NotFixedBy(p: Gaps, z: nat, k: nat, w: bv64)
    requires Made(w) && Inverts(p, z, k) && Ts(w, k) == w
    ensures w == 0
  {
    hide Xor, Ts, Horner, Value;
    var es :| Value(es) == w;
    InvertsAll(p, z, k, es);
    XorUndo(w, 0);
    HornerZero(p);
    TsLinear(0, 0, z);
  }

  const INVERSE_25 := Gap(1, Gap(3, Gap(1, Gap(4, Gap(1, Gap(1, Gap(2, Gap(4, Gap(1, End)))))))))

  const INVERSE_205 :=
    Gap(1, Gap(1, Gap(3, Gap(2, Gap(1, Gap(2, Gap(1, Gap(2, Gap(3, Gap(1, Gap(2, End)))))))))))

  lemma Inverts25()
    ensures Inverts(INVERSE_25, 1, 25)
  {
    hide Ts;
    Power25();
    Shifted(Apply(INVERSE_25, 0x46205));
    Undone25();
  }

  lemma Undone25()
    ensures Xor(0x46204, 1) == 0x46205 && T(Horner(INVERSE_25, 0x46205, 0x46205)) == 1
  {
  }

  lemma Inverts205()
    ensures Inverts(INVERSE_205, 0, 205)
  {
    hide Ts;
    Power205();
    Shifted(Apply(INVERSE_205, 0x7a475));
    Undone205();
  }

  lemma Undone205()
    ensures Xor(0x7a474, 1) == 0x7a475 && Horner(INVERSE_205, 0x7a475, 0x7a475) == 1
  {
  }

  /** So no power of T that is not a multiple of the 1025th fixes anything but 0. */
  lemma {:induction false} FixedMultiple(w: bv64, k: nat, m: nat)
    requires Ts(w, k) == w
    ensures Ts(w, k * m) == w
  {
    hide Ts;
    if m == 0 {
      Ts2(w);
    } else {
      FixedMultiple(w, k, m - 1);
      assert k * m == k * (m - 1) + k;
      MulNonneg(k, m - 1);
      TsAdd(w, k * (m - 1), k);
    }
  }

  lemma {:induction false} FixedRest(w: bv64, n: nat, k: nat)
    requires k > 0 && Ts(w, n) == w && Ts(w, k) == w
    ensures Ts(w, n % k) == w
  {
    hide Ts;
    DivModFacts(n, k);
    FixedMultiple(w, k, n / k);
    MulNonneg(k, n / k);
    assert n == k * (n / k) + n % k;
    TsAdd(w, k * (n / k), n % k);
  }

  lemma {:induction false} OnlyZeroFixed(w: bv64, k: nat)
    requires Made(w) && 0 < k < 1025 && Ts(w, k) == w
    ensures w == 0
    decreases k
  {
    hide Ts, Made;
    Cycle(w);
    FixedRest(w, 1025, k);
    if 1025 % k != 0 {
      OnlyZeroFixed(w, 1025 % k);
    } else {
      Divisors(k);
      if 205 % k == 0 {
        FixedMultiple(w, k, 205 / k);
        assert k * (205 / k) == 205 by { DivModFacts(205, k); }
        Inverts205();
        NotFixedBy(INVERSE_205, 0, 205, w);
      } else {
        FixedMultiple(w, k, 25 / k);
        assert k * (25 / k) == 25 by { DivModFacts(25, k); }
        Inverts25();
        NotFixedBy(INVERSE_25, 1, 25, w);
      }
    }
  }

  /** 1025 == 5 * 5 * 41: its proper divisors divide 205 or 25. */
  lemma Divisors(k: nat)
    requires 0 < k < 1025 && 1025 % k == 0
    ensures 205 % k == 0 || 25 % k == 0
  {
    var q := 1025 / k;
    DivModFacts(1025, k);
    assert q * k == 1025;
    if k <= 32 {
      SmallDivisor(k);
    } else {
      if q > 32 { MulMono(33, q, k); }
      DivModUnique(1025, q, k, 0) by { assert k * q == q * k; PositiveFactor(q, k); }
      SmallDivisor(q);
    }
  }

  lemma PositiveFactor(q: int, k: nat)
    requires q * k == 1025
    ensures q > 0
  {
    if q <= 0 { MulMono(q, 0, k); }
  }

  lemma SmallDivisor(k: nat)
    requires 0 < k <= 32 && 1025 % k == 0
    ensures k == 1 || k == 5 || k == 25
  {
  }

  // --- The elements of GF(32) ---

  const THETA := Gap(3, Gap(4, Gap(1, Gap(5, Gap(2, Gap(3, Gap(1, End)))))))

  /** Multiplying by a. */
  function Theta(w: bv64): bv64 { Apply(THETA, w) }

  function Thetas(w: bv64, b: nat): bv64 { if b == 0 then w else Theta(Thetas(w, b - 1)) }

  lemma ThetaLinear(v: bv64, w: bv64)
    ensures Theta(Xor(v, w)) == Xor(Theta(v), Theta(w)) && Theta(0) == 0
  {
    hide Xor, Horner;
    HornerLinear(THETA, v, w, v, w);
    HornerZero(THETA);
  }

  lemma {:induction false} ThetasLinear(v: bv64, w: bv64, b: nat)
    ensures Thetas(Xor(v, w), b) == Xor(Thetas(v, b), Thetas(w, b)) && Thetas(0, b) == 0
  {
    hide Xor, Theta;
    if b > 0 {
      ThetasLinear(v, w, b - 1);
      ThetaLinear(Thetas(v, b - 1), Thetas(w, b - 1));
    }
  }

  lemma {:induction false} ThetasTs(w: bv64, b: nat, e: nat)
    ensures Thetas(Ts(w, e), b) == Ts(Thetas(w, b), e)
  {
    hide Ts, Horner;
    if b > 0 {
      ThetasTs(w, b - 1, e);
      HornerTs(THETA, Thetas(w, b - 1), Thetas(w, b - 1), e);
    }
  }

  lemma {:induction false} MadeThetas(w: bv64, b: nat)
    requires Made(w)
    ensures Made(Thetas(w, b))
  {
    hide Made, Horner;
    if b > 0 {
      MadeThetas(w, b - 1);
      MadeHorner(THETA, Thetas(w, b - 1), Thetas(w, b - 1));
    }
  }

  lemma Theta1() ensures Theta(1) == 0x91853 { }

  lemma Theta2() ensures Theta(0x91853) == 0x28f42 { }

  lemma Theta3() ensures Theta(0x28f42) == 0xc6cf3 { }

  lemma Theta4() ensures Theta(0xc6cf3) == 0xcd094 { }

  lemma Theta5() ensures Theta(0xcd094) == 0xc6cf2 { }

  lemma ThetaPowers()
    ensures Thetas(1, 1) == 0x91853 && Thetas(1, 2) == 0x28f42 && Thetas(1, 3) == 0xc6cf3 && Thetas(1, 4) == 0xcd094
    ensures Thetas(1, 5) == 0xc6cf2
  {
    hide Theta;
    Theta1(); Theta2(); Theta3(); Theta4(); Theta5();
    assert Thetas(1, 0) == 1;
    assert Thetas(1, 1) == Theta(Thetas(1, 0));
    assert Thetas(1, 2) == Theta(Thetas(1, 1));
    assert Thetas(1, 3) == Theta(Thetas(1, 2));
    assert Thetas(1, 4) == Theta(Thetas(1, 3));
    assert Thetas(1, 5) == Theta(Thetas(1, 4));
  }

  /** a^5 == a^3 + 1. */
  lemma {:induction false} Relation(es: seq<nat>)
    ensures Thetas(Value(es), 5) == Xor(Thetas(Value(es), 3), Value(es))
  {
    hide Xor, Ts, Thetas;
    if es == [] {
      ThetasLinear(0, 0, 5);
      ThetasLinear(0, 0, 3);
      XorUndo(0, 0);
    } else {
      var t, e := es[..|es| - 1], es[|es| - 1];
      Relation(t);
      var v, w := Value(t), Ts(1, e);
      RelationOne(e);
      ThetasLinear(v, w, 5);
      ThetasLinear(v, w, 3);
      XorPairs(Thetas(v, 3), v, Thetas(w, 3), w);
    }
  }

  lemma RelationOne(e: nat)
    ensures Thetas(Ts(1, e), 5) == Xor(Thetas(Ts(1, e), 3), Ts(1, e))
  {
    hide Ts, Thetas;
    ThetaPowers();
    ThetasTs(1, 5, e);
    ThetasTs(1, 3, e);
    assert Xor(0xc6cf3, 1) == 0xc6cf2;
    TsLinear(0xc6cf3, 1, e);
  }

  function When(bit: bool, w: bv64): bv64 { if bit then w else 0 }

  function Five(a0: bv64, a1: bv64, a2: bv64, a3: bv64, a4: bv64): bv64 { Xor(Xor(Xor(Xor(a0, a1), a2), a3), a4) }

  /** w times an element of GF(32). */
  function Scaled(d: bv8, w: bv64): bv64 {
    Five(When(d & 1 != 0, w), When(d & 2 != 0, Thetas(w, 1)), When(d & 4 != 0, Thetas(w, 2)),
         When(d & 8 != 0, Thetas(w, 3)), When(d & 16 != 0, Thetas(w, 4)))
  }

  lemma WhenLinear(bit: bool, v: bv64, w: bv64)
    ensures When(bit, Xor(v, w)) == Xor(When(bit, v), When(bit, w))
  {
    XorUndo(0, 0);
  }

  lemma FiveXor(a0: bv64, a1: bv64, a2: bv64, a3: bv64, a4: bv64, b0: bv64, b1: bv64, b2: bv64, b3: bv64, b4: bv64)
    ensures Five(Xor(a0, b0), Xor(a1, b1), Xor(a2, b2), Xor(a3, b3), Xor(a4, b4)) ==
      Xor(Five(a0, a1, a2, a3, a4), Five(b0, b1, b2, b3, b4))
  {
    hide Xor;
    var s1, t1 := Xor(a0, a1), Xor(b0, b1);
    var s2, t2 := Xor(s1, a2), Xor(t1, b2);
    var s3, t3 := Xor(s2, a3), Xor(t2, b3);
    XorPairs(a0, b0, a1, b1);
    XorPairs(s1, t1, a2, b2);
    XorPairs(s2, t2, a3, b3);
    XorPairs(s3, t3, a4, b4);
  }

  lemma FiveTs(a0: bv64, a1: bv64, a2: bv64, a3: bv64, a4: bv64, e: nat)
    ensures Ts(Five(a0, a1, a2, a3, a4), e) == Five(Ts(a0, e), Ts(a1, e), Ts(a2, e), Ts(a3, e), Ts(a4, e))
  {
    hide Xor, Ts;
    TsLinear(a0, a1, e);
    TsLinear(Xor(a0, a1), a2, e);
    TsLinear(Xor(Xor(a0, a1), a2), a3, e);
    TsLinear(Xor(Xor(Xor(a0, a1), a2), a3), a4, e);
  }

  lemma ScaledLinear(d: bv8, v: bv64, w: bv64)
    ensures Scaled(d, Xor(v, w)) == Xor(Scaled(d, v), Scaled(d, w)) && Scaled(d, 0) == 0
  {
    ScaledZero(d);
    hide Xor, When, Thetas, Five;
    ThetasLinear(v, w, 1); ThetasLinear(v, w, 2); ThetasLinear(v, w, 3); ThetasLinear(v, w, 4);
    WhenLinear(d & 1 != 0, v, w);
    WhenLinear(d & 2 != 0, Thetas(v, 1), Thetas(w, 1));
    WhenLinear(d & 4 != 0, Thetas(v, 2), Thetas(w, 2));
    WhenLinear(d & 8 != 0, Thetas(v, 3), Thetas(w, 3));
    WhenLinear(d & 16 != 0, Thetas(v, 4), Thetas(w, 4));
    FiveXor(When(d & 1 != 0, v), When(d & 2 != 0, Thetas(v, 1)), When(d & 4 != 0, Thetas(v, 2)),
             When(d & 8 != 0, Thetas(v, 3)), When(d & 16 != 0, Thetas(v, 4)),
             When(d & 1 != 0, w), When(d & 2 != 0, Thetas(w, 1)), When(d & 4 != 0, Thetas(w, 2)),
             When(d & 8 != 0, Thetas(w, 3)), When(d & 16 != 0, Thetas(w, 4)));
  }

  lemma ScaledZero(d: bv8)
    ensures Scaled(d, 0) == 0
  {
    hide Thetas, Xor;
    ThetasLinear(0, 0, 1); ThetasLinear(0, 0, 2); ThetasLinear(0, 0, 3); ThetasLinear(0, 0, 4);
    XorUndo(0, 0);
  }

  lemma WhenTs(bit: bool, w: bv64, e: nat)
    ensures When(bit, Ts(w, e)) == Ts(When(bit, w), e)
  {
    hide Ts;
    TsLinear(0, 0, e);
  }

  lemma ScaledTs(d: bv8, w: bv64, e: nat)
    ensures Scaled(d, Ts(w, e)) == Ts(Scaled(d, w), e)
  {
    hide Xor, When, Thetas, Ts, Five;
    ThetasTs(w, 1, e); ThetasTs(w, 2, e); ThetasTs(w, 3, e); ThetasTs(w, 4, e);
    WhenTs(d & 1 != 0, w, e);
    WhenTs(d & 2 != 0, Thetas(w, 1), e);
    WhenTs(d & 4 != 0, Thetas(w, 2), e);
    WhenTs(d & 8 != 0, Thetas(w, 3), e);
    WhenTs(d & 16 != 0, Thetas(w, 4), e);
    FiveTs(When(d & 1 != 0, w), When(d & 2 != 0, Thetas(w, 1)), When(d & 4 != 0, Thetas(w, 2)),
           When(d & 8 != 0, Thetas(w, 3)), When(d & 16 != 0, Thetas(w, 4)), e);
  }

  lemma BitOfAdd(d: bv8, b: bv8)
    ensures Add(d, b) & 1 != 0 <==> (d & 1 != 0) != (b & 1 != 0)
    ensures Add(d, b) & 2 != 0 <==> (d & 2 != 0) != (b & 2 != 0)
    ensures Add(d, b) & 4 != 0 <==> (d & 4 != 0) != (b & 4 != 0)
    ensures Add(d, b) & 8 != 0 <==> (d & 8 != 0) != (b & 8 != 0)
    ensures Add(d, b) & 16 != 0 <==> (d & 16 != 0) != (b & 16 != 0)
  {
  }

  lemma WhenAdd(a: bool, b: bool, w: bv64)
    ensures When(a != b, w) == Xor(When(a, w), When(b, w))
  {
    XorUndo(w, 0);
    XorUndo(0, 0);
  }

  lemma ScaledAdd(d: bv8, b: bv8, w: bv64)
    ensures Scaled(Add(d, b), w) == Xor(Scaled(d, w), Scaled(b, w)) && Scaled(0, w) == 0 && Scaled(1, w) == w
  {
    ScaledEnds(w);
    hide Xor, When, Thetas, Add, Five;
    BitOfAdd(d, b);
    WhenAdd(d & 1 != 0, b & 1 != 0, w);
    WhenAdd(d & 2 != 0, b & 2 != 0, Thetas(w, 1));
    WhenAdd(d & 4 != 0, b & 4 != 0, Thetas(w, 2));
    WhenAdd(d & 8 != 0, b & 8 != 0, Thetas(w, 3));
    WhenAdd(d & 16 != 0, b & 16 != 0, Thetas(w, 4));
    FiveXor(When(d & 1 != 0, w), When(d & 2 != 0, Thetas(w, 1)), When(d & 4 != 0, Thetas(w, 2)),
             When(d & 8 != 0, Thetas(w, 3)), When(d & 16 != 0, Thetas(w, 4)),
             When(b & 1 != 0, w), When(b & 2 != 0, Thetas(w, 1)), When(b & 4 != 0, Thetas(w, 2)),
             When(b & 8 != 0, Thetas(w, 3)), When(b & 16 != 0, Thetas(w, 4)));
  }

  lemma ScaledEnds(w: bv64)
    ensures Scaled(0, w) == 0 && Scaled(1, w) == w
  {
    hide Thetas, Xor;
    XorUndo(w, 0);
    XorUndo(0, 0);
  }

  lemma MadeWhen(bit: bool, w: bv64)
    requires Made(w)
    ensures Made(When(bit, w))
  {
    hide Made;
    MadeOne();
  }

  lemma MadeScaled(d: bv8, w: bv64)
    requires Made(w)
    ensures Made(Scaled(d, w))
  {
    hide Xor, When, Thetas, Made;
    MadeThetas(w, 1); MadeThetas(w, 2); MadeThetas(w, 3); MadeThetas(w, 4);
    var a0, a1, a2 := When(d & 1 != 0, w), When(d & 2 != 0, Thetas(w, 1)), When(d & 4 != 0, Thetas(w, 2));
    var a3, a4 := When(d & 8 != 0, Thetas(w, 3)), When(d & 16 != 0, Thetas(w, 4));
    MadeWhen(d & 1 != 0, w);
    MadeWhen(d & 2 != 0, Thetas(w, 1));
    MadeWhen(d & 4 != 0, Thetas(w, 2));
    MadeWhen(d & 8 != 0, Thetas(w, 3));
    MadeWhen(d & 16 != 0, Thetas(w, 4));
    MadeXor(a0, a1);
    MadeXor(Xor(a0, a1), a2);
    MadeXor(Xor(Xor(a0, a1), a2), a3);
    MadeXor(Xor(Xor(Xor(a0, a1), a2), a3), a4);
  }

  lemma WhenTheta(bit: bool, w: bv64)
    ensures When(bit, Theta(w)) == Theta(When(bit, w))
  {
    hide Theta;
    ThetaLinear(0, 0);
  }

  lemma FiveTheta(a0: bv64, a1: bv64, a2: bv64, a3: bv64, a4: bv64)
    ensures Theta(Five(a0, a1, a2, a3, a4)) == Five(Theta(a0), Theta(a1), Theta(a2), Theta(a3), Theta(a4))
  {
    hide Xor, Theta;
    ThetaLinear(a0, a1);
    ThetaLinear(Xor(a0, a1), a2);
    ThetaLinear(Xor(Xor(a0, a1), a2), a3);
    ThetaLinear(Xor(Xor(Xor(a0, a1), a2), a3), a4);
  }

  /** The bits of d times a: the highest comes back at 3 and 0. */
  lemma BitsOfDouble(d: bv8)
    requires d < 32
    ensures Double(d) & 1 != 0 <==> d & 16 != 0
    ensures Double(d) & 2 != 0 <==> d & 1 != 0
    ensures Double(d) & 4 != 0 <==> d & 2 != 0
    ensures Double(d) & 8 != 0 <==> (d & 4 != 0) != (d & 16 != 0)
    ensures Double(d) & 16 != 0 <==> d & 8 != 0
    ensures Double(d) < 32
  {
  }

  lemma ScaledDouble(d: bv8, w: bv64)
    requires d < 32 && Made(w)
    ensures Scaled(Double(d), w) == Theta(Scaled(d, w))
  {
    hide Xor, When, Thetas, Five, Theta, Double;
    BitsOfDouble(d);
    WhenTheta(d & 1 != 0, w);
    WhenTheta(d & 2 != 0, Thetas(w, 1));
    WhenTheta(d & 4 != 0, Thetas(w, 2));
    WhenTheta(d & 8 != 0, Thetas(w, 3));
    WhenTheta(d & 16 != 0, Thetas(w, 4));
    ThetasStep(w);
    FiveTheta(When(d & 1 != 0, w), When(d & 2 != 0, Thetas(w, 1)), When(d & 4 != 0, Thetas(w, 2)),
              When(d & 8 != 0, Thetas(w, 3)), When(d & 16 != 0, Thetas(w, 4)));
    WhenLinear(d & 16 != 0, Thetas(w, 3), w);
    WhenAdd(d & 4 != 0, d & 16 != 0, Thetas(w, 3));
    Wrapped(When(d & 1 != 0, Thetas(w, 1)), When(d & 2 != 0, Thetas(w, 2)), When(d & 4 != 0, Thetas(w, 3)),
            When(d & 8 != 0, Thetas(w, 4)), When(d & 16 != 0, Thetas(w, 3)), When(d & 16 != 0, w));
  }

  lemma ThetasStep(w: bv64)
    requires Made(w)
    ensures Theta(w) == Thetas(w, 1) && Theta(Thetas(w, 1)) == Thetas(w, 2) && Theta(Thetas(w, 2)) == Thetas(w, 3)
    ensures Theta(Thetas(w, 3)) == Thetas(w, 4) && Theta(Thetas(w, 4)) == Xor(Thetas(w, 3), w)
  {
    hide Theta, Xor, Value;
    var es :| Value(es) == w;
    Relation(es);
    assert Thetas(w, 0) == w;
    assert Thetas(w, 1) == Theta(Thetas(w, 0)) && Thetas(w, 5) == Theta(Thetas(w, 4));
  }

  /** Moving the wrapped terms to their places. */
  lemma Wrapped(b1: bv64, b2: bv64, b3: bv64, b4: bv64, c3: bv64, c0: bv64)
    ensures Five(c0, b1, b2, Xor(b3, c3), b4) == Five(b1, b2, b3, b4, Xor(c3, c0))
  {
    hide Xor;
    var s := Xor(b1, b2);
    XorComm(c0, b1); XorLast(b1, b2, c0);
    assert Xor(Xor(c0, b1), b2) == Xor(s, c0);
    XorAssoc(Xor(s, c0), b3, c3);
    XorLast(s, b3, c0);
    var t := Xor(s, b3);
    XorLast(t, c3, c0);
    XorAssoc(t, c3, c0);
    XorLast(t, b4, Xor(c3, c0));
  }

  lemma ScaledIf(bit: bool, b: bv8, w: bv64)
    ensures Scaled(If(bit, b), w) == When(bit, Scaled(b, w))
  {
    hide Scaled;
    ScaledAdd(0, 0, w);
  }

  /** The product of two elements of GF(32) acts as one after the other. */
  lemma ScaledMul(d: bv8, b: bv8, w: bv64)
    requires b < 32 && Made(w)
    ensures Scaled(Mul(d, b), w) == Scaled(d, Scaled(b, w))
  {
    hide Xor, When, Thetas, Theta, Double, Add, If, Scaled;
    var b2 := Double(b);
    var b4 := Double(b2);
    var b8 := Double(b4);
    var b16 := Double(b8);
    BitsOfDouble(b); BitsOfDouble(b2); BitsOfDouble(b4); BitsOfDouble(b8);
    var v := Scaled(b, w);
    ScaledDouble(b, w); ScaledDouble(b2, w); ScaledDouble(b4, w); ScaledDouble(b8, w);
    MadeScaled(b, w);
    ThetasStep(v);
    SumScaled(If(d & 1 != 0, b), If(d & 2 != 0, b2), If(d & 4 != 0, b4), If(d & 8 != 0, b8), If(d & 16 != 0, b16), w);
    ScaledIf(d & 1 != 0, b, w);
    ScaledIf(d & 2 != 0, b2, w);
    ScaledIf(d & 4 != 0, b4, w);
    ScaledIf(d & 8 != 0, b8, w);
    ScaledIf(d & 16 != 0, b16, w);
    ScaledIs(d, v);
  }

  lemma ScaledIs(d: bv8, v: bv64)
    ensures Scaled(d, v) == Five(When(d & 1 != 0, v), When(d & 2 != 0, Thetas(v, 1)), When(d & 4 != 0, Thetas(v, 2)),
                                 When(d & 8 != 0, Thetas(v, 3)), When(d & 16 != 0, Thetas(v, 4)))
  {
  }

  lemma SumScaled(b0: bv8, b1: bv8, b2: bv8, b3: bv8, b4: bv8, w: bv64)
    ensures Scaled(Sum(b0, b1, b2, b3, b4), w) ==
      Five(Scaled(b0, w), Scaled(b1, w), Scaled(b2, w), Scaled(b3, w), Scaled(b4, w))
  {
    hide Xor, Scaled, Add;
    ScaledAdd(b0, b1, w);
    ScaledAdd(Add(b0, b1), b2, w);
    ScaledAdd(Add(Add(b0, b1), b2), b3, w);
    ScaledAdd(Add(Add(Add(b0, b1), b2), b3), b4, w);
  }

  /** The inverse of an element. */
  function Inverse(d: bv8): bv8 {
    if d == 1 then 1 else if d == 2 then 20 else if d == 3 then 24 else if d == 4 then 10
    else if d == 5 then 8 else if d == 6 then 12 else if d == 7 then 29 else if d == 8 then 5
    else if d == 9 then 11 else if d == 10 then 4 else if d == 11 then 9 else if d == 12 then 6
    else if d == 13 then 28 else if d == 14 then 26 else if d == 15 then 31 else if d == 16 then 22
    else if d == 17 then 18 else if d == 18 then 17 else if d == 19 then 23 else if d == 20 then 2
    else if d == 21 then 25 else if d == 22 then 16 else if d == 23 then 19 else if d == 24 then 3
    else if d == 25 then 21 else if d == 26 then 14 else if d == 27 then 30 else if d == 28 then 13
    else if d == 29 then 7 else if d == 30 then 27
    else 15
  }

  lemma LowInverses(d: bv8)
    requires 0 < d < 16
    ensures Mul(Inverse(d), d) == 1
  {
  }

  lemma HighInverses(d: bv8)
    requires 16 <= d < 32
    ensures Mul(Inverse(d), d) == 1
  {
  }

  /** No element but 0 takes a word to 0 that is not 0 itself. */
  lemma NotScaledAway(d: bv8, w: bv64)
    requires 0 < d < 32 && Made(w) && Scaled(d, w) == 0
    ensures w == 0
  {
    hide Scaled, Mul, Inverse;
    if d < 16 { LowInverses(d); } else { HighInverses(d); }
    ScaledMul(Inverse(d), d, w);
    ScaledLinear(Inverse(d), 0, 0);
    ScaledAdd(0, 0, w);
  }
}
