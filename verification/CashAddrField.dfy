/** What the checksum of cashaddr computes: the remainder of a polynomial over GF(32) on division
    by the generator g(x) (src/cashaddr.cpp). */
module CashAddrField {
  import opened CashAddrCode

  // --- GF(32): polynomials in a over two elements, modulo a^5 + a^3 + 1 ---

  function Add(b: bv8, c: bv8): bv8 { b ^ c }

  /** a times b. */
  function Double(b: bv8): bv8 { ((b << 1) & 31) ^ (if b & 16 != 0 then 9 else 0) }

  function If(bit: bool, b: bv8): bv8 { if bit then b else 0 }

  /** Multiplication, one bit of the first factor at a time. */
  function Mul(d: bv8, b: bv8): bv8 {
    var b2 := Double(b);
    var b4 := Double(b2);
    var b8 := Double(b4);
    var b16 := Double(b8);
    Sum(If(d & 1 != 0, b), If(d & 2 != 0, b2), If(d & 4 != 0, b4), If(d & 8 != 0, b8), If(d & 16 != 0, b16))
  }

  function Sum(b0: bv8, b1: bv8, b2: bv8, b3: bv8, b4: bv8): bv8 {
    Add(Add(Add(Add(b0, b1), b2), b3), b4)
  }

  // --- Polynomials ---

  /** The coefficients of g(x), by exponent. */
  function Generator(i: nat): bv8 {
    if i == 0 then 1 else if i == 1 then 19 else if i == 2 then 3 else if i == 3 then 25 else if i == 4 then 11
    else if i == 5 then 25 else if i == 6 then 3 else if i == 7 then 19 else if i == 8 then 1 else 0
  }

  /** The coefficient of x^i in the polynomial with the given coefficients, highest first. */
  function At(p: seq<bv8>, i: nat): bv8 { if i < |p| then p[|p| - 1 - i] else 0 }

  /** The coefficient of x^i in q(x) * g(x). */
  function ProductAt(q: seq<bv8>, i: nat): bv8 {
    if q == [] then 0 else
    Add(if i == 0 then 0 else ProductAt(q[..|q| - 1], i - 1), Mul(q[|q| - 1], Generator(i)))
  }

  /** The coefficient of x^i in a remainder packed in 40 bits. */
  function Coefficient(c: bv64, i: nat): bv8 { if i < 8 then LowFive(Down(c, i)) else 0 }

  // --- Coefficients of the parts of one step ---

  lemma DropXor(c: bv64, d: bv64)
    ensures Drop(Xor(c, d)) == Xor(Drop(c), Drop(d))
  {
  }

  lemma {:induction false} DownXor(c: bv64, d: bv64, k: nat)
    requires k < 8
    ensures Down(Xor(c, d), k) == Xor(Down(c, k), Down(d, k))
    decreases k
  {
    hide Down, Drop, Xor;
    DownStep(c, 0); DownStep(d, 0); DownStep(Xor(c, d), 0);
    if k > 0 {
      DownStep(c, k - 1); DownStep(d, k - 1); DownStep(Xor(c, d), k - 1);
      DropXor(c, d);
      DownXor(Drop(c), Drop(d), k - 1);
    }
  }

  lemma LowFiveXor(c: bv64, d: bv64)
    ensures LowFive(Xor(c, d)) == Add(LowFive(c), LowFive(d))
  {
  }

  lemma CoefficientXor(c: bv64, d: bv64, i: nat)
    ensures Coefficient(Xor(c, d), i) == Add(Coefficient(c, i), Coefficient(d, i))
  {
    hide Down, LowFive, Xor;
    if i < 8 {
      DownXor(c, d, i);
      LowFiveXor(Down(c, i), Down(d, i));
    }
  }

  lemma CoefficientUp(c: bv64, i: nat)
    requires i < 8
    ensures Coefficient(Up(c), i) == if i == 0 then 0 else Coefficient(c, i - 1)
  {
  }

  lemma CoefficientWide(d: bv8, i: nat)
    requires d < 32
    ensures Coefficient(Wide(d), i) == if i == 0 then d else 0
  {
  }

  lemma CoefficientFold(c: bv64, bit: bv64, k: bv64, i: nat)
    ensures Coefficient(Fold(c, bit, k), i) == If(Leading(c, bit), Coefficient(k, i))
  {
  }

  lemma LeadingBits(c: bv64)
    requires c < 0x100_0000_0000
    ensures Leading(c, 0x01) <==> Coefficient(c, 7) & 1 != 0
    ensures Leading(c, 0x02) <==> Coefficient(c, 7) & 2 != 0
    ensures Leading(c, 0x04) <==> Coefficient(c, 7) & 4 != 0
    ensures Leading(c, 0x08) <==> Coefficient(c, 7) & 8 != 0
    ensures Leading(c, 0x10) <==> Coefficient(c, 7) & 16 != 0
  {
  }

  /** The five constants are k(x) = x^8 mod g(x) times 1, a, a^2, a^3 and a^4. */
  lemma Constants(i: nat)
    requires i < 8
    ensures Coefficient(0x98_f2bc_8e61, i) == Generator(i)
    ensures Coefficient(0x79_b76d_99e2, i) == Double(Generator(i))
    ensures Coefficient(0xf3_3e5f_b3c4, i) == Double(Double(Generator(i)))
    ensures Coefficient(0xae_2eab_e2a8, i) == Double(Double(Double(Generator(i))))
    ensures Coefficient(0x1e_4f43_e470, i) == Double(Double(Double(Double(Generator(i)))))
  {
  }

  // --- One step is c(x) * x + d mod g(x) ---

  lemma AddAssoc(b: bv8, c: bv8, d: bv8)
    ensures Add(b, Add(c, d)) == Add(Add(b, c), d)
  {
  }

  lemma AddComm(b: bv8, c: bv8)
    ensures Add(b, c) == Add(c, b) && Add(b, 0) == b && Add(0, b) == b
  {
  }

  lemma Gather(u: bv8, w: bv8, b0: bv8, b1: bv8, b2: bv8, b3: bv8, b4: bv8)
    requires u == 0 || w == 0
    ensures Add(Add(Add(Add(Add(Add(u, b0), b1), b2), b3), b4), w) ==
      Add(if u == 0 then w else u, Sum(b0, b1, b2, b3, b4))
  {
    hide Add;
    var s1 := Add(b0, b1);
    var s2 := Add(s1, b2);
    var s3 := Add(s2, b3);
    AddAssoc(u, b0, b1);
    AddAssoc(u, s1, b2);
    AddAssoc(u, s2, b3);
    AddAssoc(u, s3, b4);
    var s4 := Add(s3, b4);
    AddComm(u, s4);
    AddComm(s4, w);
    AddComm(Add(u, s4), 0);
  }

  /** Coefficient by coefficient: moved up by one power, plus the leading coefficient times k(x). */
  lemma CoefficientNext(c: bv64, d: bv8, i: nat)
    requires c < 0x100_0000_0000 && d < 32 && i < 8
    ensures Coefficient(Xor(Next(c), Wide(d)), i)
         == Add(if i == 0 then d else Coefficient(c, i - 1), Mul(Coefficient(c, 7), Generator(i)))
  {
    hide Xor, Up, Fold, Coefficient, Wide, Leading, Double, Generator, Add, Sum;
    LeadingBits(c);
    Constants(i);
    CoefficientUp(c, i);
    CoefficientWide(d, i);
    var a0, a1, a2 := Fold(c, 0x01, 0x98_f2bc_8e61), Fold(c, 0x02, 0x79_b76d_99e2), Fold(c, 0x04, 0xf3_3e5f_b3c4);
    var a3, a4 := Fold(c, 0x08, 0xae_2eab_e2a8), Fold(c, 0x10, 0x1e_4f43_e470);
    CoefficientFold(c, 0x01, 0x98_f2bc_8e61, i);
    CoefficientFold(c, 0x02, 0x79_b76d_99e2, i);
    CoefficientFold(c, 0x04, 0xf3_3e5f_b3c4, i);
    CoefficientFold(c, 0x08, 0xae_2eab_e2a8, i);
    CoefficientFold(c, 0x10, 0x1e_4f43_e470, i);
    var s0 := Xor(Up(c), a0);
    var s1 := Xor(s0, a1);
    var s2 := Xor(s1, a2);
    var s3 := Xor(s2, a3);
    CoefficientXor(Up(c), a0, i);
    CoefficientXor(s0, a1, i);
    CoefficientXor(s1, a2, i);
    CoefficientXor(s2, a3, i);
    CoefficientXor(s3, a4, i);
    CoefficientXor(Next(c), Wide(d), i);
    Gather(Coefficient(Up(c), i), Coefficient(Wide(d), i), Coefficient(a0, i), Coefficient(a1, i), Coefficient(a2, i),
           Coefficient(a3, i), Coefficient(a4, i));
  }

  lemma AddTwice(b: bv8, m: bv8, r: bv8)
    ensures Add(Add(b, m), Add(r, m)) == Add(b, r) && Add(Add(0, m), Add(r, m)) == r && Add(b, 0) == b
  {
  }

  lemma MulEnds(d: bv8)
    requires d < 32
    ensures Mul(d, 1) == d && Mul(d, 0) == 0
  {
  }

  lemma LeadIsFive(c: bv64)
    ensures Coefficient(c, 7) < 32
  {
  }

  /** 1, v0, v1, ... as a polynomial is q(x) * g(x) + r(x), with r(x) of degree below eight: the
      loop's value is the remainder. */
  ghost predicate Divides(v: seq<bv8>, q: seq<bv8>, r: bv64) {
    forall i: nat :: At([1] + v, i) == Add(ProductAt(q, i), Coefficient(r, i))
  }

  lemma {:induction false} IsRemainder(v: seq<bv8>) returns (q: seq<bv8>)
    requires Fives(v)
    ensures |q| == |v| && Divides(v, q, PolyMod(v))
  {
    if v == [] {
      q := [];
    } else {
      var t, d := v[..|v| - 1], v[|v| - 1];
      var p := IsRemainder(t);
      var c := PolyMod(t);
      PolyModBound(t);
      q := p + [Coefficient(c, 7)];
      forall i: nat ensures At([1] + v, i) == Add(ProductAt(q, i), Coefficient(PolyMod(v), i)) {
        DividesStep(t, p, c, d, i);
        assert v == t + [d];
        PolyModSnoc(t, d);
      }
    }
  }

  lemma DividesStep(t: seq<bv8>, p: seq<bv8>, c: bv64, d: bv8, i: nat)
    requires Divides(t, p, c) && c < 0x100_0000_0000 && d < 32
    ensures At([1] + (t + [d]), i)
         == Add(ProductAt(p + [Coefficient(c, 7)], i), Coefficient(Xor(Next(c), Wide(d)), i))
  {
    hide Add, Mul, Xor, Next, Wide, ProductAt, At;
    var l := Coefficient(c, 7);
    var m := Mul(l, Generator(i));
    LeadIsFive(c);
    MulEnds(l);
    AtSnoc(t, d, i);
    ProductSnoc(p, l, i);
    if i < 8 { CoefficientNext(c, d, i); }
    if i > 0 {
      assert At([1] + t, i - 1) == Add(ProductAt(p, i - 1), Coefficient(c, i - 1));
      AddTwice(ProductAt(p, i - 1), m, Coefficient(c, i - 1));
      AddTwice(Add(ProductAt(p, i - 1), m), 0, 0);
    } else {
      AddTwice(0, m, d);
    }
  }

  lemma AtSnoc(t: seq<bv8>, d: bv8, i: nat)
    ensures At([1] + (t + [d]), i) == if i == 0 then d else At([1] + t, i - 1)
  {
  }

  lemma ProductSnoc(p: seq<bv8>, l: bv8, i: nat)
    ensures ProductAt(p + [l], i) == Add(if i == 0 then 0 else ProductAt(p, i - 1), Mul(l, Generator(i)))
  {
    hide Add, Mul;
    assert (p + [l])[..|p|] == p;
  }
}
