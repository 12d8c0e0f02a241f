/** The checksum of cashaddr (src/cashaddr.cpp): remainders of polynomials over GF(32), eight 5-bit
    coefficients packed in 40 bits. */
module CashAddrCode {

  function Xor(a: bv64, b: bv64): bv64 { a ^ b }

  // Facts of bitwise xor, first as the solver sees them and then by name.

  lemma RawXor(a: bv64, b: bv64)
    ensures a ^ (a ^ b) == b && a ^ 0 == a && 0 ^ a == a && a ^ a == 0 && a ^ b == b ^ a
  {
  }

  lemma XorAssoc(a: bv64, b: bv64, c: bv64)
    ensures Xor(a, Xor(b, c)) == Xor(Xor(a, b), c)
  {
  }

  lemma XorComm(a: bv64, b: bv64)
    ensures Xor(a, b) == Xor(b, a)
  {
    RawXor(a, b);
  }

  lemma XorLast(a: bv64, b: bv64, d: bv64)
    ensures Xor(Xor(a, d), b) == Xor(Xor(a, b), d)
  {
    hide Xor;
    XorAssoc(a, d, b);
    XorComm(d, b);
    XorAssoc(a, b, d);
  }

  lemma XorPairs(a: bv64, b: bv64, c: bv64, d: bv64)
    ensures Xor(Xor(a, b), Xor(c, d)) == Xor(Xor(a, c), Xor(b, d))
  {
    hide Xor;
    XorAssoc(Xor(a, b), c, d);
    XorLast(a, c, b);
    XorAssoc(Xor(a, c), b, d);
  }

  lemma XorUndo(a: bv64, b: bv64)
    ensures Xor(a, Xor(a, b)) == b && Xor(a, 0) == a && Xor(0, a) == a && Xor(a, a) == 0
  {
    RawXor(a, b);
  }

  /** All coefficients but the leading one, moved up by one power of x. */
  function Up(c: bv64): bv64 { (c & 0x07_ffff_ffff) << 5 }

  /** k if the given bit of the leading coefficient is set. */
  function Fold(c: bv64, bit: bv64, k: bv64): bv64 { if Leading(c, bit) then k else 0 }

  /** From s, the terms folded in for the leading coefficient of c: multiples of x^8 mod g(x). */
  function Folded(c: bv64, s: bv64): bv64 {
    Xor(Xor(Xor(Xor(Xor(s, Fold(c, 0x01, 0x98_f2bc_8e61)), Fold(c, 0x02, 0x79_b76d_99e2)),
                Fold(c, 0x04, 0xf3_3e5f_b3c4)), Fold(c, 0x08, 0xae_2eab_e2a8)), Fold(c, 0x10, 0x1e_4f43_e470))
  }

  /** x * c(x) mod g(x). */
  function Next(c: bv64): bv64 { Folded(c, Up(c)) }

  function Wide(d: bv8): bv64 { d as bv64 }

  /** The remainder for a list of values, with an implicit 1 in front. */
  function PolyMod(v: seq<bv8>): bv64 {
    if v == [] then 1 else Xor(Next(PolyMod(v[..|v| - 1])), Wide(v[|v| - 1]))
  }

  predicate Leading(c: bv64, bit: bv64) { (c >> 35) & bit != 0 }

  lemma RawLeading(x: bv64, y: bv64)
    ensures ((x ^ y) >> 35) & 0x01 != 0 <==> ((x >> 35) & 0x01 != 0) != ((y >> 35) & 0x01 != 0)
    ensures ((x ^ y) >> 35) & 0x02 != 0 <==> ((x >> 35) & 0x02 != 0) != ((y >> 35) & 0x02 != 0)
    ensures ((x ^ y) >> 35) & 0x04 != 0 <==> ((x >> 35) & 0x04 != 0) != ((y >> 35) & 0x04 != 0)
    ensures ((x ^ y) >> 35) & 0x08 != 0 <==> ((x >> 35) & 0x08 != 0) != ((y >> 35) & 0x08 != 0)
    ensures ((x ^ y) >> 35) & 0x10 != 0 <==> ((x >> 35) & 0x10 != 0) != ((y >> 35) & 0x10 != 0)
  {
  }

  lemma LeadingXor(x: bv64, y: bv64, bit: bv64)
    requires bit == 0x01 || bit == 0x02 || bit == 0x04 || bit == 0x08 || bit == 0x10
    ensures Leading(Xor(x, y), bit) <==> Leading(x, bit) != Leading(y, bit)
  {
    RawLeading(x, y);
  }

  lemma FoldLinear(x: bv64, y: bv64, bit: bv64, k: bv64)
    requires bit == 0x01 || bit == 0x02 || bit == 0x04 || bit == 0x08 || bit == 0x10
    ensures Fold(Xor(x, y), bit, k) == Xor(Fold(x, bit, k), Fold(y, bit, k))
  {
    hide Xor, Leading;
    LeadingXor(x, y, bit);
    XorUndo(k, 0);
    XorUndo(0, 0);
  }

  lemma UpLinear(x: bv64, y: bv64)
    ensures Up(Xor(x, y)) == Xor(Up(x), Up(y))
  {
  }

  lemma FoldedLinear(x: bv64, y: bv64, s: bv64, t: bv64)
    ensures Folded(Xor(x, y), Xor(s, t)) == Xor(Folded(x, s), Folded(y, t))
  {
    hide Xor, Fold;
    var a0, b0 := Fold(x, 0x01, 0x98_f2bc_8e61), Fold(y, 0x01, 0x98_f2bc_8e61);
    var a1, b1 := Fold(x, 0x02, 0x79_b76d_99e2), Fold(y, 0x02, 0x79_b76d_99e2);
    var a2, b2 := Fold(x, 0x04, 0xf3_3e5f_b3c4), Fold(y, 0x04, 0xf3_3e5f_b3c4);
    var a3, b3 := Fold(x, 0x08, 0xae_2eab_e2a8), Fold(y, 0x08, 0xae_2eab_e2a8);
    var a4, b4 := Fold(x, 0x10, 0x1e_4f43_e470), Fold(y, 0x10, 0x1e_4f43_e470);
    FoldLinear(x, y, 0x01, 0x98_f2bc_8e61);
    FoldLinear(x, y, 0x02, 0x79_b76d_99e2);
    FoldLinear(x, y, 0x04, 0xf3_3e5f_b3c4);
    FoldLinear(x, y, 0x08, 0xae_2eab_e2a8);
    FoldLinear(x, y, 0x10, 0x1e_4f43_e470);
    var s0, t0 := Xor(s, a0), Xor(t, b0);
    var s1, t1 := Xor(s0, a1), Xor(t0, b1);
    var s2, t2 := Xor(s1, a2), Xor(t1, b2);
    var s3, t3 := Xor(s2, a3), Xor(t2, b3);
    XorPairs(s, t, a0, b0);
    XorPairs(s0, t0, a1, b1);
    XorPairs(s1, t1, a2, b2);
    XorPairs(s2, t2, a3, b3);
    XorPairs(s3, t3, a4, b4);
  }

  /** Multiplying by x is linear. */
  lemma NextLinear(x: bv64, y: bv64)
    ensures Next(Xor(x, y)) == Xor(Next(x), Next(y))
  {
    hide Xor, Up, Folded;
    UpLinear(x, y);
    FoldedLinear(x, y, Up(x), Up(y));
  }

  lemma RawShift(x: bv64)
    requires x < 0x8_0000_0000
    ensures (x & 0x07_ffff_ffff) << 5 == x << 5
    ensures (x >> 35) & 0x01 == 0 && (x >> 35) & 0x02 == 0 && (x >> 35) & 0x04 == 0 && (x >> 35) & 0x08 == 0
      && (x >> 35) & 0x10 == 0
  {
  }

  /** With no leading coefficient, multiplying by x only shifts. */
  lemma NextShifts(x: bv64)
    requires x < 0x8_0000_0000
    ensures Next(x) == x << 5
  {
    hide Xor;
    RawShift(x);
    XorUndo(Up(x), 0);
  }

  lemma NextBound(x: bv64, d: bv8)
    ensures Xor(Next(x), Wide(d)) < 0x100_0000_0000
  {
  }

  lemma {:induction false} PolyModBound(v: seq<bv8>)
    ensures PolyMod(v) < 0x100_0000_0000
  {
    hide Next, Xor, Wide;
    if v != [] { NextBound(PolyMod(v[..|v| - 1]), v[|v| - 1]); }
  }

  lemma {:induction false} PolyModSnoc(v: seq<bv8>, d: bv8)
    ensures PolyMod(v + [d]) == Xor(Next(PolyMod(v)), Wide(d))
  {
    assert (v + [d])[..|v|] == v;
  }

  /** Folding commutes with putting in the next value. */
  lemma ValueLast(c: bv64, s: bv64, d: bv64)
    ensures Folded(c, Xor(s, d)) == Xor(Folded(c, s), d)
  {
    hide Xor, Fold;
    var a0, a1, a2 := Fold(c, 0x01, 0x98_f2bc_8e61), Fold(c, 0x02, 0x79_b76d_99e2), Fold(c, 0x04, 0xf3_3e5f_b3c4);
    var a3, a4 := Fold(c, 0x08, 0xae_2eab_e2a8), Fold(c, 0x10, 0x1e_4f43_e470);
    var s0 := Xor(s, a0);
    var s1 := Xor(s0, a1);
    var s2 := Xor(s1, a2);
    var s3 := Xor(s2, a3);
    XorLast(s, a0, d); XorLast(s0, a1, d); XorLast(s1, a2, d); XorLast(s2, a3, d); XorLast(s3, a4, d);
  }

  method PolyModLoop(v: seq<bv8>) returns (c: bv64)
    ensures c == PolyMod(v)
  {
    hide Xor, Fold, Up, Wide;
    c := 1;
    var i := 0;
    while i < |v|
      invariant 0 <= i <= |v|
      invariant c == PolyMod(v[..i])
    {
      assert v[..i + 1] == v[..i] + [v[i]];
      PolyModSnoc(v[..i], v[i]);
      ValueLast(c, Up(c), Wide(v[i]));
      var c0 := c;
      c := Xor(Up(c), Wide(v[i]));
      c := Xor(c, Fold(c0, 0x01, 0x98_f2bc_8e61));
      c := Xor(c, Fold(c0, 0x02, 0x79_b76d_99e2));
      c := Xor(c, Fold(c0, 0x04, 0xf3_3e5f_b3c4));
      c := Xor(c, Fold(c0, 0x08, 0xae_2eab_e2a8));
      c := Xor(c, Fold(c0, 0x10, 0x1e_4f43_e470));
      i := i + 1;
    }
    assert v[..i] == v;
  }

  // --- Appending the checksum ---

  function Shift(x: bv64): bv64 { x << 5 }

  /** Values packed five bits each, first value highest. */
  function Packed(v: seq<bv8>): bv64 {
    if v == [] then 0 else Xor(Shift(Packed(v[..|v| - 1])), Wide(v[|v| - 1]))
  }

  predicate Fives(v: seq<bv8>) { forall k :: 0 <= k < |v| ==> v[k] < 32 }

  /** n multiplications by x. */
  function Steps(c: bv64, n: nat): bv64 {
    if n == 0 then c else Next(Steps(c, n - 1))
  }

  /** 2^(5n), for up to eight values. */
  function Limit(n: nat): bv64
    requires n <= 8
  {
    if n == 0 then 1 else if n == 1 then 0x20 else if n == 2 then 0x400 else if n == 3 then 0x8000
    else if n == 4 then 0x10_0000 else if n == 5 then 0x200_0000 else if n == 6 then 0x4000_0000
    else if n == 7 then 0x8_0000_0000 else 0x100_0000_0000
  }

  /** x is the packing of at most n values. */
  predicate Below(x: bv64, n: nat)
    requires n <= 8
  {
    x < Limit(n)
  }

  function Drop(m: bv64): bv64 { m >> 5 }

  function LowFive(m: bv64): bv8 { (m & 31) as bv8 }

  lemma DropPacked(p: bv64, d: bv8)
    requires p < 0x8_0000_0000 && d < 32
    ensures Drop(Xor(Shift(p), Wide(d))) == p
  {
  }

  lemma LowPacked(p: bv64, d: bv8)
    requires d < 32
    ensures LowFive(Xor(Shift(p), Wide(d))) == d
  {
  }

  lemma BelowPacked(p: bv64, d: bv8, n: nat)
    requires n < 8 && Below(p, n) && d < 32
    ensures Below(Xor(Shift(p), Wide(d)), n + 1) && p < 0x8_0000_0000
  {
  }

  lemma PackStep(p: bv64, d: bv8, n: nat)
    requires n < 8 && Below(p, n) && d < 32
    ensures Below(Xor(Shift(p), Wide(d)), n + 1)
    ensures Drop(Xor(Shift(p), Wide(d))) == p && LowFive(Xor(Shift(p), Wide(d))) == d
  {
    hide Below, Xor, Shift, Wide, Drop, LowFive;
    BelowPacked(p, d, n);
    DropPacked(p, d);
    LowPacked(p, d);
  }

  lemma Rejoin(m: bv64)
    ensures LowFive(m) < 32 && Xor(Shift(Drop(m)), Wide(LowFive(m))) == m
  {
  }

  lemma DropBelow(m: bv64, n: nat)
    requires 0 < n <= 8 && Below(m, n)
    ensures Below(Drop(m), n - 1)
  {
  }

  lemma UnpackStep(m: bv64, n: nat)
    requires 0 < n <= 8 && Below(m, n)
    ensures Below(Drop(m), n - 1) && LowFive(m) < 32 && Xor(Shift(Drop(m)), Wide(LowFive(m))) == m
  {
    hide Below, Xor, Shift, Wide, Drop, LowFive;
    Rejoin(m);
    DropBelow(m, n);
  }

  /** n values of five bits each. */
  function Unpacked(m: bv64, n: nat): (v: seq<bv8>)
    ensures |v| == n
  {
    if n == 0 then [] else Unpacked(Drop(m), n - 1) + [LowFive(m)]
  }

  lemma PackedSnoc(v: seq<bv8>, d: bv8)
    ensures Packed(v + [d]) == Xor(Shift(Packed(v)), Wide(d))
  {
    assert (v + [d])[..|v|] == v;
  }

  lemma NothingPacked(m: bv64)
    requires Below(m, 0)
    ensures m == 0 && Packed([]) == 0 && Below(0, 0)
  {
  }

  lemma {:induction false} PackedUnpacked(m: bv64, n: nat)
    requires n <= 8 && Below(m, n)
    ensures Fives(Unpacked(m, n)) && Packed(Unpacked(m, n)) == m
    decreases n
  {
    hide Below, Xor, Shift, Wide, Drop, LowFive, Packed;
    if n == 0 {
      NothingPacked(m);
    } else {
      UnpackStep(m, n);
      PackedUnpacked(Drop(m), n - 1);
      PackedSnoc(Unpacked(Drop(m), n - 1), LowFive(m));
    }
  }

  lemma {:induction false} UnpackedPacked(v: seq<bv8>)
    requires |v| <= 8 && Fives(v)
    ensures Below(Packed(v), |v|) && Unpacked(Packed(v), |v|) == v
  {
    hide Below, Xor, Shift, Wide, Drop, LowFive, Packed;
    if v == [] {
      NothingPacked(0) by { assert Below(0, 0) by { ZeroBelow(); } }
    } else {
      var t, d := v[..|v| - 1], v[|v| - 1];
      assert v == t + [d];
      UnpackedPacked(t);
      PackStep(Packed(t), d, |t|);
      PackedSnoc(t, d);
    }
  }

  lemma ZeroBelow()
    ensures Below(0, 0)
  {
  }

  /** Up to eight values after e enter the remainder unchanged, beside what e alone gives. */
  lemma {:induction false} Append(e: seq<bv8>, v: seq<bv8>)
    requires |v| <= 8 && Fives(v)
    ensures PolyMod(e + v) == Xor(Steps(PolyMod(e), |v|), Packed(v))
  {
    hide Xor, Next, Wide, PolyMod, Shift, Below, Packed;
    if v == [] {
      assert e + v == e;
      XorUndo(PolyMod(e), 0);
      NothingPacked(0) by { ZeroBelow(); }
    } else {
      var t, d := v[..|v| - 1], v[|v| - 1];
      Append(e, t);
      assert e + v == (e + t) + [d];
      PolyModSnoc(e + t, d);
      var s, p := Steps(PolyMod(e), |t|), Packed(t);
      NextLinear(s, p);
      UnpackedPacked(t);
      ShortShift(p, |t|);
      assert v == t + [d];
      PackedSnoc(t, d);
      XorAssoc(Next(s), Shift(p), Wide(d));
    }
  }

  lemma ShortShift(p: bv64, n: nat)
    requires n < 8 && Below(p, n)
    ensures Next(p) == Shift(p)
  {
    hide Next;
    assert p < 0x8_0000_0000;
    NextShifts(p);
  }

  function ZeroValues(n: nat): (v: seq<bv8>)
    ensures |v| == n && Fives(v)
  {
    if n == 0 then [] else ZeroValues(n - 1) + [0]
  }

  lemma {:induction false} PackedZeros(n: nat)
    ensures Packed(ZeroValues(n)) == 0
  {
    if n > 0 {
      PackedZeros(n - 1);
      PackedSnoc(ZeroValues(n - 1), 0);
    }
  }

  /** The checksum of e: what to put for eight zeros after it to leave the remainder 1. */
  function Checksum(e: seq<bv8>): (cs: seq<bv8>)
    ensures |cs| == 8
  {
    Unpacked(Xor(PolyMod(e + ZeroValues(8)), 1), 8)
  }

  lemma XorOneBound(m: bv64)
    requires m < 0x100_0000_0000
    ensures Below(Xor(m, 1), 8)
  {
  }

  lemma XorIsOne(m: bv64, p: bv64)
    ensures Xor(m, p) == 1 <==> p == Xor(m, 1)
  {
    hide Xor;
    XorUndo(m, 1);
    XorUndo(m, p);
  }

  /** Eight values verify after e exactly when they are its checksum. */
  lemma ChecksumIff(e: seq<bv8>, cs: seq<bv8>)
    requires |cs| == 8 && Fives(cs)
    ensures PolyMod(e + cs) == 1 <==> cs == Checksum(e)
  {
    hide Xor, PolyMod, Steps, Packed, Unpacked, Below;
    var m := PolyMod(e + ZeroValues(8));
    Append(e, cs);
    Append(e, ZeroValues(8));
    PackedZeros(8);
    XorUndo(Steps(PolyMod(e), 8), 0);
    PolyModBound(e + ZeroValues(8));
    XorOneBound(m);
    XorIsOne(m, Packed(cs));
    UnpackedPacked(cs);
    PackedUnpacked(Xor(m, 1), 8);
  }

  /** Fewer than eight values, or eight, verify after e exactly when what e leaves for them fits
      that many and they are it. */
  lemma ShortIff(e: seq<bv8>, v: seq<bv8>)
    requires |v| <= 8 && Fives(v)
    ensures var w := Xor(Steps(PolyMod(e), |v|), 1);
      PolyMod(e + v) == 1 <==> Below(w, |v|) && v == Unpacked(w, |v|)
  {
    hide Xor, PolyMod, Steps, Packed, Unpacked, Below;
    var m := Steps(PolyMod(e), |v|);
    Append(e, v);
    XorIsOne(m, Packed(v));
    UnpackedPacked(v);
    if Below(Xor(m, 1), |v|) { PackedUnpacked(Xor(m, 1), |v|); }
  }

  lemma ChecksumFives(e: seq<bv8>)
    ensures Fives(Checksum(e))
  {
    hide Xor, PolyMod, Packed, Unpacked, Below;
    PolyModBound(e + ZeroValues(8));
    XorOneBound(PolyMod(e + ZeroValues(8)));
    PackedUnpacked(Xor(PolyMod(e + ZeroValues(8)), 1), 8);
  }

  /** m shifted down by k groups. */
  function Down(m: bv64, k: nat): bv64
    requires k < 8
  {
    if k == 0 then m else if k == 1 then m >> 5 else if k == 2 then m >> 10 else if k == 3 then m >> 15
    else if k == 4 then m >> 20 else if k == 5 then m >> 25 else if k == 6 then m >> 30 else m >> 35
  }

  lemma DownStep(m: bv64, k: nat)
    requires k < 7
    ensures Down(m, k + 1) == Down(Drop(m), k) && Down(m, 0) == m
  {
  }

  lemma {:induction false} UnpackedAt(m: bv64, n: nat, i: nat)
    requires i < n <= 8
    ensures Unpacked(m, n)[i] == LowFive(Down(m, n - 1 - i))
    decreases n
  {
    hide Down, Drop, LowFive;
    DownStep(m, 0);
    if i < n - 1 {
      UnpackedAt(Drop(m), n - 1, i);
      DownStep(m, n - 2 - i);
    }
  }

  /** The source's computation of the eight checksum values. */
  method CreateChecksum(e: seq<bv8>) returns (cs: seq<bv8>)
    ensures cs == Checksum(e)
  {
    hide Xor, PolyMod, Unpacked;
    var r := PolyModLoop(e + ZeroValues(8));
    cs := Groups(Xor(r, 1));
  }

  /** The eight groups of a 40-bit word, highest first. */
  method Groups(mod: bv64) returns (v: seq<bv8>)
    ensures v == Unpacked(mod, 8)
  {
    hide Down, LowFive, Unpacked;
    v := [];
    ghost var all := Unpacked(mod, 8);
    var i := 0;
    while i < 8
      invariant 0 <= i <= 8
      invariant v == all[..i]
    {
      UnpackedAt(mod, 8, i);
      v := v + [LowFive(Down(mod, 7 - i))];
      i := i + 1;
    }
  }

  // --- Detecting bursts ---

  /** Multiplication by x loses nothing: the constant coefficient of g is 1. */
  lemma NextZero(x: bv64)
    requires x < 0x100_0000_0000
    ensures Next(x) == 0 ==> x == 0
  {
  }

  lemma XorSame(a: bv64, b: bv64)
    ensures Xor(a, b) == 0 <==> a == b
  {
  }

  lemma XorBound(a: bv64, b: bv64)
    requires a < 0x100_0000_0000 && b < 0x100_0000_0000
    ensures Xor(a, b) < 0x100_0000_0000
  {
  }

  lemma NextInjective(x: bv64, y: bv64)
    requires x < 0x100_0000_0000 && y < 0x100_0000_0000 && Next(x) == Next(y)
    ensures x == y
  {
    hide Next, Xor;
    NextLinear(x, y);
    XorBound(x, y);
    XorSame(Next(x), Next(y));
    NextZero(Xor(x, y));
    XorSame(x, y);
  }

  /** The same values after two lists never make their remainders equal. */
  lemma {:induction false} StaysDifferent(a: seq<bv8>, b: seq<bv8>, rest: seq<bv8>)
    requires PolyMod(a + rest) == PolyMod(b + rest)
    ensures PolyMod(a) == PolyMod(b)
  {
    hide Next, Xor, Wide, PolyMod;
    if rest == [] {
      assert a + rest == a && b + rest == b;
    } else {
      var t, d := rest[..|rest| - 1], rest[|rest| - 1];
      assert a + rest == (a + t) + [d] && b + rest == (b + t) + [d];
      PolyModSnoc(a + t, d);
      PolyModSnoc(b + t, d);
      var x, y := PolyMod(a + t), PolyMod(b + t);
      XorUndo(Wide(d), Next(x)); XorUndo(Wide(d), Next(y));
      XorComm(Wide(d), Next(x)); XorComm(Wide(d), Next(y));
      PolyModBound(a + t); PolyModBound(b + t);
      NextInjective(x, y);
      StaysDifferent(a, b, t);
    }
  }

  /** Any change confined to eight consecutive values is detected. */
  lemma BurstDetected(e: seq<bv8>, v: seq<bv8>, w: seq<bv8>, rest: seq<bv8>)
    requires |v| == |w| <= 8 && Fives(v) && Fives(w) && v != w
    ensures PolyMod(e + v + rest) != PolyMod(e + w + rest)
  {
    hide Xor, PolyMod, Steps, Packed, Unpacked, Below;
    Append(e, v);
    Append(e, w);
    UnpackedPacked(v);
    UnpackedPacked(w);
    var s := Steps(PolyMod(e), |v|);
    XorUndo(s, Packed(v)); XorUndo(s, Packed(w));
    if PolyMod(e + v + rest) == PolyMod(e + w + rest) { StaysDifferent(e + v, e + w, rest); }
  }
}
