/** Difficulty: proof of work from a compact target (src/chain.cpp) and the per-block retarget
    (src/pow.cpp). */
module Retarget {
  import opened Basics
  import opened Powers
  import opened Limbs
  import opened Arith
  import opened ArithShift
  import opened ArithDivide
  import opened Compact
  import opened ChainIndex

  /** A 256-bit word as limbs (uint256 read by UintToArith256). */
  type Word = s: seq<Limb> | |s| == 8 witness [0, 0, 0, 0, 0, 0, 0, 0]

  datatype Params = Params(powLimit: Word, posLimit: Word, posLimitV2: Word,
                           spacingV1: int, spacing: int, timespan: int,
                           fixTime: int, v2Time: int, v3Time: int,
                           powNoRetarget: bool, posNoRetarget: bool)
  {
    predicate IsFixed(t: int) { t > fixTime && t != 1769817600 }
    predicate IsV2(t: int) { t > v2Time && t != 1769817601 }
    predicate IsV3(t: int) { t > v3Time && t != 1769817602 }

    function Spacing(t: int): int { if IsV2(t) then spacing else spacingV1 }
    function Limit(t: int, stake: bool): Word {
      if stake then (if IsV2(t) then posLimitV2 else posLimit) else powLimit
    }

    /** What the arithmetic needs of the constants: no division by zero, no 64-bit overflow. */
    predicate Ok() {
      spacing > 0 && spacingV1 > 0 && timespan >= 0 &&
      timespan + spacing < 0x8000_0000_0000_0000 && timespan + spacingV1 < 0x8000_0000_0000_0000
    }
  }

  method FromWord(w: Word) returns (a: array<Limb>)
    ensures fresh(a) && a.Length == 8 && a[..] == w
  {
    a := new Limb[8];
    var i := 0;
    while i < 8
      invariant 0 <= i <= 8
      invariant a[..i] == w[..i]
    {
      a[i] := w[i];
      i := i + 1;
    }
    assert w[..8] == w;
  }

  method FromUint64(b: int) returns (a: array<Limb>)
    requires 0 <= b < BASE * BASE
    ensures fresh(a) && a.Length == 8 && Val(a[..]) == b
  {
    a := new Limb[8];
    Clear(a);
    ghost var s := a[..];
    a[0] := b % BASE;
    ValUpdate(s, 0, a[0]);
    assert a[..] == s[0 := a[0]];
    ghost var t := a[..];
    a[1] := b / BASE;
    ValUpdate(t, 1, a[1]);
    assert a[..] == t[1 := a[1]];
    assert Pow(BASE, 1) == BASE;
  }

  // --- Proof of work ---

  /** One more than any representable target still fits the width. */
  lemma TargetBelowMax(c: Limb)
    requires Decoded(c) < Modulus(8)
    ensures 0 <= Decoded(c) && Decoded(c) + 1 < Modulus(8)
  {
    hide Pow;
    var w, n := Mantissa(c), Size(c);
    WidthBytes();
    DecodedNonneg(c);
    if n <= 3 {
      Shrinks(w, Pow256(3 - n));
      PowMono(256, 3, 32);
      PowSmall();
    } else {
      assert Pow256(32) == 256 * Pow256(31) by { PowStep(31); }
      assert Pow256(n - 3) == 256 * Pow256(n - 4) by { PowStep(n - 4); }
      assert w * (256 * Pow256(n - 4)) == 256 * (w * Pow256(n - 4));
    }
  }

  lemma PowStep(k: nat)
    ensures Pow256(k + 1) == 256 * Pow256(k)
  {
  }

  lemma ProofQuotient(t: int, m: int)
    requires 1 <= t && t + 1 < m
    ensures (m - 1 - t) / (t + 1) + 1 == m / (t + 1)
    ensures 1 <= m / (t + 1) < m
  {
    var d := t + 1;
    var q := (m - d) / d;
    DivModFacts(m - d, d);
    assert (q + 1) * d == q * d + d;
    DivModUnique(m, d, q + 1, (m - d) % d);
    MulMono(2, d, q + 1);
    assert d * (q + 1) == (q + 1) * d;
  }

  /** Expected hashes for a block: floor(2^256 / (target + 1)), or zero for a target that is
      negative, zero or too large. The division never fails. */
  method GetBlockProof(c: Limb) returns (proof: array<Limb>)
    ensures fresh(proof) && proof.Length == 8
    ensures Signed(c) || Decoded(c) == 0 || Decoded(c) >= Modulus(8) ==> Val(proof[..]) == 0
    ensures !Signed(c) && 0 < Decoded(c) < Modulus(8) ==>
      Val(proof[..]) == Modulus(8) / (Decoded(c) + 1) && Val(proof[..]) >= 1
  {
    hide Val, Pow, Decoded;
    DecodedNonneg(c);
    var target := new Limb[8];
    var negative, overflow := SetCompact(target, c);
    var zero := new Limb[8];
    Clear(zero);
    var isZero := CompareTo(target, zero);
    if !overflow { Small(Decoded(c), Modulus(8)); }
    if negative || overflow || isZero == 0 {
      return zero;
    }
    TargetBelowMax(c);
    ghost var t := Decoded(c);
    ProofQuotient(t, Modulus(8));
    proof := Complement(target);
    var one := new Limb[8];
    SetLow(one, 1);
    var next := Copy(target);
    Add(next, one);
    Small(t + 1, Modulus(8));
    var ok := Divide(proof, next);
    assert ok;
    Increment(proof);
    Small(Modulus(8) / (t + 1), Modulus(8));
  }

  lemma Small(x: int, m: int)
    requires 0 <= x < m
    ensures x % m == x
  {
    DivModUnique(x, m, 0, x);
  }

  /** A header's proof of work holds exactly when its target is in range and the hash is under it. */
  method CheckProofOfWork(hash: Word, c: Limb, params: Params) returns (ok: bool)
    ensures ok <==> !Signed(c) && 0 < Decoded(c) <= Val(params.powLimit) && Val(hash) <= Decoded(c)
  {
    hide Val, Pow, Decoded;
    DecodedNonneg(c);
    ValBound(params.powLimit);
    var target := new Limb[8];
    var negative, overflow := SetCompact(target, c);
    if !overflow { Small(Decoded(c), Modulus(8)); }
    var zero := new Limb[8];
    Clear(zero);
    var isZero := CompareTo(target, zero);
    var limit := FromWord(params.powLimit);
    var over := CompareTo(target, limit);
    if negative || isZero == 0 || overflow || over > 0 {
      return false;
    }
    var h := FromWord(hash);
    var above := CompareTo(h, target);
    return above <= 0;
  }

  // --- The next target ---

  /** The spacing that counts, after the limits on one step. */
  function CountedSpacing(params: Params, time: int, firstTime: int): int {
    var s := params.Spacing(time);
    var a := if params.IsFixed(time) && time - firstTime < 0 then s else time - firstTime;
    if params.IsV3(time) && a > s * 10 then s * 10 else a
  }

  function Interval(params: Params, time: int): int
    requires params.Ok()
  {
    params.timespan / params.Spacing(time)
  }

  function Multiplier(params: Params, time: int, firstTime: int): int
    requires params.Ok()
  {
    (Interval(params, time) - 1) * params.Spacing(time) + 2 * CountedSpacing(params, time, firstTime)
  }

  function Divisor(params: Params, time: int): (d: int)
    requires params.Ok()
    ensures 0 < d < BASE * BASE
  {
    var s := params.Spacing(time);
    var i := Interval(params, time);
    DivModFacts(params.timespan, s);
    assert (i + 1) * s == i * s + s;
    MulNonneg(i, s);
    (i + 1) * s
  }

  /** The new target the code computes: the product is taken with the multiplier cut to 32 bits and
      wraps at 256 bits; a target of zero or above the limit becomes the limit. */
  ghost function Retargeted(old256: int, mult: int, div: int, limit: int): int
    requires div > 0
  {
    var v := old256 * (mult % BASE) % Modulus(8) / div;
    if v == 0 || v > limit then limit else v
  }

  predicate NoRetarget(params: Params, stake: bool) {
    if stake then params.posNoRetarget else params.powNoRetarget
  }

  /** bits is what CalculateNextTargetRequired gives after a block with these bits and time. */
  ghost predicate NextTarget(params: Params, lastBits: Limb, time: int, firstTime: int, stake: bool, bits: Limb)
    requires params.Ok()
  {
    if NoRetarget(params, stake) then bits == lastBits
    else
      var v := Retargeted(Decoded(lastBits) % Modulus(8), Multiplier(params, time, firstTime),
                          Divisor(params, time), Val(params.Limit(time, stake)));
      v >= 0 && Encodes(bits, v)
  }

  /** The multiplication and division of one retarget. */
  method Scale(bn: array<Limb>, mult: int, div: int)
    requires bn.Length == 8 && 0 < div < BASE * BASE
    modifies bn
    ensures Val(bn[..]) == old(Val(bn[..])) * (mult % BASE) % Modulus(8) / div
  {
    hide Val, Pow;
    MulLimb(bn, mult % BASE);
    var d := FromUint64(div);
    var ok := Divide(bn, d);
    assert ok;
  }

  method CalculateNextTargetRequired(last: BlockIndex, firstTime: int, params: Params, stake: bool) returns (bits: Limb)
    requires params.Ok()
    ensures NextTarget(params, last.bits, last.time, firstTime, stake, bits)
  {
    hide Val, Pow, Decoded, Encodes, Retargeted;
    if stake {
      if params.posNoRetarget { return last.bits; }
    } else {
      if params.powNoRetarget { return last.bits; }
    }
    var spacing := if params.IsV2(last.time) then params.spacing else params.spacingV1;
    var actual := last.time - firstTime;
    if params.IsFixed(last.time) && actual < 0 {
      actual := spacing;
    }
    if params.IsV3(last.time) && actual > spacing * 10 {
      actual := spacing * 10;
    }
    var interval := params.timespan / spacing;
    assert (interval + 1) * spacing == Divisor(params, last.time);
    bits := RetargetBits(last.bits, (interval - 1) * spacing + actual + actual, (interval + 1) * spacing,
                         params.Limit(last.time, stake));
  }

  /** The arithmetic of one retarget, from compact word to compact word. */
  method RetargetBits(c: Limb, mult: int, div: int, top: Word) returns (bits: Limb)
    requires 0 < div < BASE * BASE
    ensures var v := Retargeted(Decoded(c) % Modulus(8), mult, div, Val(top)); v >= 0 && Encodes(bits, v)
  {
    hide Val, Pow, Decoded, Encodes;
    var limit := FromWord(top);
    var bn := new Limb[8];
    var _, _ := SetCompact(bn, c);
    Scale(bn, mult, div);
    var zero := new Limb[8];
    Clear(zero);
    var atMostZero := CompareTo(bn, zero);
    var over := CompareTo(bn, limit);
    if atMostZero <= 0 || over > 0 {
      bn := limit;
    }
    bits := GetCompact(bn, false);
  }

  /** bits is what the chain ending at last requires of the next block of a kind. */
  ghost predicate Required(params: Params, last: BlockIndex, stake: bool, bits: Limb)
    requires params.Ok() && Linked(last)
  {
    var prev := LastOfKind(last, stake);
    if prev.pprev == null then Encodes(bits, Val(params.Limit(last.time, stake)))
    else
      var before := LastOfKind(prev.pprev, stake);
      if before.pprev == null then Encodes(bits, Val(params.Limit(last.time, stake)))
      else NextTarget(params, prev.bits, prev.time, before.time, stake, bits)
  }

  /** The source reads the last block before it tests that there is one: without one there is no
      defined result. */
  method GetNextTargetRequired(last: BlockIndex?, params: Params, stake: bool) returns (bits: Option<Limb>)
    requires params.Ok() && (last != null ==> Linked(last))
    ensures bits.None? <==> last == null
    ensures last != null ==> Required(params, last, stake, bits.value)
  {
    hide Val, Pow, Decoded, Encodes, NextTarget;
    if last == null {
      return None;
    }
    var limit := FromWord(params.Limit(last.time, stake));
    var limitBits := GetCompact(limit, false);
    var prev := GetLastBlockIndex(last, stake);
    if prev.pprev == null {
      return Some(limitBits);
    }
    var before := GetLastBlockIndex(prev.pprev, stake);
    if before.pprev == null {
      return Some(limitBits);
    }
    var next := CalculateNextTargetRequired(prev, before.time, params, stake);
    return Some(next);
  }

  // --- When the arithmetic is exact ---

  /** The 32-bit multiplier and the 256-bit product lose nothing exactly when both fit. */
  lemma ExactIff(target: int, mult: int)
    requires 0 < target < Modulus(8)
    ensures target * (mult % BASE) % Modulus(8) == target * mult <==>
      0 <= mult < BASE && 0 <= target * mult < Modulus(8)
  {
    var m, r := Modulus(8), mult % BASE;
    var x := target * r;
    DivModFacts(x, m);
    MulNonneg(target, r);
    assert r * target == x && mult * target == target * mult;
    Shrunk(x, m);
    if x % m == target * mult {
      if mult < 0 { MulStrict(mult, 0, target); }
      if mult >= BASE { MulStrict(r, mult, target); }
    } else if 0 <= mult < BASE && 0 <= target * mult < m {
      Small(target * mult, m);
    }
  }

  lemma Shrunk(x: int, m: int)
    requires x >= 0 && m > 0
    ensures x % m <= x
  {
    DivModFacts(x, m);
    MulNonneg(x / m, m);
  }

  /** The spacing that counts is not negative and at most ten times the target spacing. */
  predicate Steady(params: Params, time: int, firstTime: int) {
    0 <= CountedSpacing(params, time, firstTime) <= 10 * params.Spacing(time)
  }

  /** It always is where both limits on a step are in force; the first alone keeps it from being
      negative and the second from being too large. */
  lemma LimitsSteady(params: Params, time: int, firstTime: int)
    requires params.Ok()
    ensures Steady(params, time, firstTime) <==>
      (params.IsFixed(time) || time >= firstTime) &&
      (params.IsV3(time) || time - firstTime <= 10 * params.Spacing(time))
  {
  }

  /** The factor of one step in terms of the two block times. A block dated before the one it
      follows leaves the target alone, once that is fixed; a gap of more than ten spacings counts as
      ten, once that is; any other gap counts as it is. */
  lemma MultiplierByTimes(params: Params, time: int, firstTime: int)
    requires params.Ok()
    ensures
      var s := if time > params.v2Time && time != 1769817601 then params.spacing else params.spacingV1;
      var i, d := params.timespan / s, time - firstTime;
      var fixed, capped := time > params.fixTime && time != 1769817600, time > params.v3Time && time != 1769817602;
      && Divisor(params, time) == (i + 1) * s
      && (d < 0 && fixed ==> Multiplier(params, time, firstTime) == (i + 1) * s)
      && (d > 10 * s && capped ==> Multiplier(params, time, firstTime) == (i + 19) * s)
      && ((d >= 0 || !fixed) && (d <= 10 * s || !capped) ==>
            Multiplier(params, time, firstTime) == (i - 1) * s + 2 * d)
  {
    var s := params.Spacing(time);
    var i := params.timespan / s;
    assert (i + 1) * s == (i - 1) * s + 2 * s;
    assert (i + 19) * s == (i - 1) * s + 20 * s;
  }

  /** The limit on a target: by kind, and for staked blocks by protocol version. */
  lemma LimitByTime(params: Params, time: int)
    ensures params.Limit(time, false) == params.powLimit
    ensures time <= params.v2Time ==> params.Limit(time, true) == params.posLimit
    ensures time > params.v2Time && time != 1769817601 ==> params.Limit(time, true) == params.posLimitV2
  {
  }

  ghost function Ceiling(params: Params, stake: bool): int {
    if !stake then Val(params.powLimit)
    else if Val(params.posLimit) > Val(params.posLimitV2) then Val(params.posLimit) else Val(params.posLimitV2)
  }

  /** The largest multiplier a retarget can use. */
  function TopMultiplier(params: Params, spacing: int): int
    requires spacing > 0
  {
    (params.timespan / spacing + 19) * spacing
  }

  ghost predicate SaneFor(params: Params, spacing: int)
    requires spacing > 0
  {
    && params.timespan >= spacing && TopMultiplier(params, spacing) < BASE
    && Ceiling(params, true) * TopMultiplier(params, spacing) < Modulus(8)
    && Ceiling(params, false) * TopMultiplier(params, spacing) < Modulus(8)
  }

  /** Constants for which a retarget cannot overflow. */
  ghost predicate Sane(params: Params) {
    && params.Ok() && SaneFor(params, params.spacing) && SaneFor(params, params.spacingV1)
    && Val(params.powLimit) > 0 && Val(params.posLimit) > 0 && Val(params.posLimitV2) > 0
  }

  lemma MultiplierBounds(params: Params, time: int, firstTime: int)
    requires params.Ok() && params.timespan >= params.Spacing(time) && Steady(params, time, firstTime)
    ensures var s, i := params.Spacing(time), Interval(params, time);
      0 <= (i - 1) * s <= Multiplier(params, time, firstTime) <= TopMultiplier(params, s)
  {
    var s, i := params.Spacing(time), Interval(params, time);
    DivModFacts(params.timespan, s);
    if i < 1 { MulMono(i, 0, s); }
    MulNonneg(i - 1, s);
    assert (i + 19) * s == (i - 1) * s + 20 * s;
  }

  /** The exact new target: floor(target * mult / div), or the limit when that is zero or too large. */
  function ExactTarget(target: int, mult: int, div: int, limit: int): int
    requires div > 0
  {
    var v := target * mult / div;
    if v == 0 || v > limit then limit else v
  }

  /** With a steady spacing and sane constants, one retarget is exact and stays in range. */
  lemma RetargetExact(params: Params, lastBits: Limb, time: int, firstTime: int, stake: bool, bits: Limb)
    requires Sane(params) && Steady(params, time, firstTime) && !NoRetarget(params, stake)
    requires 0 < Decoded(lastBits) <= Ceiling(params, stake)
    requires NextTarget(params, lastBits, time, firstTime, stake, bits)
    ensures var limit := Val(params.Limit(time, stake));
      var v := ExactTarget(Decoded(lastBits), Multiplier(params, time, firstTime), Divisor(params, time), limit);
      0 < v <= limit <= Ceiling(params, stake) && Encodes(bits, v) && 0 < Decoded(bits) <= v && !Signed(bits)
  {
    hide Val, Pow, Decoded, Encodes;
    var d, mult, top := Decoded(lastBits), Multiplier(params, time, firstTime),
      TopMultiplier(params, params.Spacing(time));
    MultiplierBounds(params, time, firstTime);
    MulMono(d, Ceiling(params, stake), top);
    MulMono(mult, top, d);
    assert top * d == d * top && mult * d == d * mult;
    MulNonneg(d, mult);
    ValBound(params.powLimit); ValBound(params.posLimit); ValBound(params.posLimitV2);
    ExactIff(d, mult);
    Small(d, Modulus(8));
    DivModFacts(d * mult, Divisor(params, time));
    DecodeEncode(bits, ExactTarget(d, mult, Divisor(params, time), Val(params.Limit(time, stake))));
  }

  /** One retarget moves the target by a bounded factor: at most (I + 19) / (I + 1) up and, but for
      rounding, (I - 1) / (I + 1) down, where I is the number of spacings in the timespan. */
  lemma StepBounded(params: Params, target: int, time: int, firstTime: int)
    requires params.Ok() && params.timespan >= params.Spacing(time) && Steady(params, time, firstTime) && target > 0
    ensures var i := Interval(params, time);
      var v := target * Multiplier(params, time, firstTime) / Divisor(params, time);
      target * (i - 1) - (i + 1) < v * (i + 1) <= target * (i + 19)
  {
    var s, i := params.Spacing(time), Interval(params, time);
    var mult, div := Multiplier(params, time, firstTime), Divisor(params, time);
    MultiplierBounds(params, time, firstTime);
    DivModFacts(target * mult, div);
    ScaledBounds(target, mult, i, s, target * mult / div, target * mult % div);
  }

  lemma ScaledBounds(t: int, mult: int, i: int, s: int, v: int, r: int)
    requires s > 0 && t > 0 && t * mult == v * ((i + 1) * s) + r && 0 <= r < (i + 1) * s
    requires (i - 1) * s <= mult <= (i + 19) * s
    ensures t * (i - 1) - (i + 1) < v * (i + 1) <= t * (i + 19)
  {
    ScaledUp(t, mult, i, s);
    ScaledDown(t, mult, i, s);
    Regrouped(v, i + 1, s);
    LessThan(t * (i - 1), i + 1, s);
    Cancel(v * (i + 1), t * (i + 19), s);
    CancelStrict(t * (i - 1) - (i + 1), v * (i + 1), s);
  }

  lemma Regrouped(a: int, b: int, c: int)
    ensures a * (b * c) == a * b * c
  {
  }

  lemma LessThan(a: int, b: int, s: int)
    ensures (a - b) * s == a * s - b * s
  {
  }

  lemma ScaledUp(t: int, mult: int, i: int, s: int)
    requires t > 0 && mult <= (i + 19) * s
    ensures t * mult <= t * (i + 19) * s
  {
    MulMono(mult, (i + 19) * s, t);
    assert mult * t == t * mult;
    assert (i + 19) * s * t == t * (i + 19) * s;
  }

  lemma ScaledDown(t: int, mult: int, i: int, s: int)
    requires t > 0 && (i - 1) * s <= mult
    ensures t * (i - 1) * s <= t * mult
  {
    MulMono((i - 1) * s, mult, t);
    assert mult * t == t * mult;
    assert (i - 1) * s * t == t * (i - 1) * s;
  }

  lemma Cancel(x: int, y: int, s: int)
    requires s > 0 && x * s <= y * s
    ensures x <= y
  {
    if x > y { MulStrict(y, x, s); }
  }

  lemma CancelStrict(x: int, y: int, s: int)
    requires s > 0 && x * s < y * s
    ensures x < y
  {
    if x >= y { MulMono(y, x, s); }
  }

  // --- Along a chain ---

  /** The spacing that decides the target after last is steady, if one does. */
  ghost predicate SteadyStep(params: Params, last: BlockIndex, stake: bool)
    requires params.Ok() && Linked(last)
  {
    var prev := LastOfKind(last, stake);
    prev.pprev != null ==>
      var before := LastOfKind(prev.pprev, stake);
      before.pprev != null ==> Steady(params, prev.time, before.time)
  }

  /** Every block after the first carries the target required of it, after steady spacings. */
  ghost predicate Follows(params: Params, b: BlockIndex)
    requires params.Ok() && Linked(b)
    decreases b.height
  {
    b.pprev != null ==>
      Follows(params, b.pprev) && SteadyStep(params, b.pprev, b.stake) && Required(params, b.pprev, b.stake, b.bits)
  }

  lemma {:induction false} FollowsBack(params: Params, b: BlockIndex, h: nat)
    requires params.Ok() && Linked(b) && Follows(params, b) && h <= b.height
    ensures Follows(params, Ancestor(b, h))
    decreases b.height
  {
    if h < b.height { FollowsBack(params, b.pprev, h); }
  }

  lemma LimitUnderCeiling(params: Params, time: int, stake: bool)
    requires Sane(params)
    ensures 0 < Val(params.Limit(time, stake)) <= Ceiling(params, stake)
  {
  }

  /** On every such chain every target decodes without sign or overflow into (0, ceiling]. */
  lemma {:induction false} TargetsInRange(params: Params, b: BlockIndex)
    requires Sane(params) && Linked(b) && Follows(params, b) && b.pprev != null
    ensures !Signed(b.bits) && 0 < Decoded(b.bits) <= Ceiling(params, b.stake) < Modulus(8)
    decreases b.height
  {
    hide Val, Pow, Decoded, Encodes, NextTarget, Sane, Steady, Ceiling;
    CeilingFits(params, b.stake);
    var last, stake := b.pprev, b.stake;
    var prev := LastOfKind(last, stake);
    LimitUnderCeiling(params, last.time, stake);
    if prev.pprev == null || LastOfKind(prev.pprev, stake).pprev == null {
      DecodeEncode(b.bits, Val(params.Limit(last.time, stake)));
    } else {
      FollowsBack(params, last, prev.height);
      TargetsInRange(params, prev);
      NextInRange(params, prev.bits, prev.time, LastOfKind(prev.pprev, stake).time, stake, b.bits);
    }
  }

  /** Along every such chain every retarget is exact: a block that is neither the first nor the
      second of its kind carries the word of the exact target after the two before it. */
  lemma EveryStepExact(params: Params, b: BlockIndex)
    requires Sane(params) && Linked(b) && Follows(params, b) && b.pprev != null && !NoRetarget(params, b.stake)
    ensures var prev := LastOfKind(b.pprev, b.stake);
      prev.pprev != null ==>
      var before := LastOfKind(prev.pprev, b.stake);
      before.pprev != null ==>
      var v := ExactTarget(Decoded(prev.bits), Multiplier(params, prev.time, before.time), Divisor(params, prev.time),
                           Val(params.Limit(prev.time, b.stake)));
      v > 0 && Encodes(b.bits, v)
  {
    hide Val, Pow, Decoded, Encodes, NextTarget, Sane, Steady, Ceiling;
    CeilingFits(params, b.stake);
    var prev := LastOfKind(b.pprev, b.stake);
    if prev.pprev != null {
      var before := LastOfKind(prev.pprev, b.stake);
      if before.pprev != null {
        FollowsBack(params, b.pprev, prev.height);
        TargetsInRange(params, prev);
        RetargetExact(params, prev.bits, prev.time, before.time, b.stake, b.bits);
      }
    }
  }

  /** The same in terms of block times alone: after blocks of the kind at times t1 and t2, the
      target is multiplied by (I - 1) S + 2 d over (I + 1) S and rounded down, where S is the spacing,
      I S the timespan and d the gap t2 - t1, or S for a negative gap, or 10 S for a larger one; and a
      result of zero or above the limit becomes the limit. */
  lemma EveryStepTimed(params: Params, b: BlockIndex)
    requires Sane(params) && Linked(b) && Follows(params, b) && b.pprev != null && !NoRetarget(params, b.stake)
    ensures var prev := LastOfKind(b.pprev, b.stake);
      prev.pprev != null ==>
      var before := LastOfKind(prev.pprev, b.stake);
      before.pprev != null ==>
      var s := if prev.time > params.v2Time && prev.time != 1769817601 then params.spacing else params.spacingV1;
      var i, gap, limit := params.timespan / s, prev.time - before.time, Val(params.Limit(prev.time, b.stake));
      var d := if gap < 0 then s else if gap > 10 * s then 10 * s else gap;
      (i + 1) * s > 0 &&
      var v := Decoded(prev.bits) * ((i - 1) * s + 2 * d) / ((i + 1) * s);
      if 0 < v <= limit then Encodes(b.bits, v) else limit > 0 && Encodes(b.bits, limit)
  {
    hide Val, Pow, Decoded, Encodes, Multiplier, Divisor, Follows, Required, NextTarget, Sane;
    CeilingFits(params, b.stake);
    var prev := LastOfKind(b.pprev, b.stake);
    if prev.pprev != null {
      var before := LastOfKind(prev.pprev, b.stake);
      if before.pprev != null {
        EveryStepExact(params, b);
        StepIsSteady(params, b);
        LimitsSteady(params, prev.time, before.time);
        MultiplierByTimes(params, prev.time, before.time);
        LimitUnderCeiling(params, prev.time, b.stake);
        Factored(params.timespan / params.Spacing(prev.time), params.Spacing(prev.time));
      }
    }
  }

  lemma Factored(i: int, s: int)
    ensures (i + 1) * s == (i - 1) * s + 2 * s && (i + 19) * s == (i - 1) * s + 20 * s
  {
  }

  lemma StepIsSteady(params: Params, b: BlockIndex)
    requires params.Ok() && Linked(b) && Follows(params, b) && b.pprev != null
    ensures SteadyStep(params, b.pprev, b.stake)
  {
  }

  lemma CeilingFits(params: Params, stake: bool)
    requires Sane(params)
    ensures params.Ok() && Ceiling(params, stake) < Modulus(8)
  {
    ValBound(params.powLimit); ValBound(params.posLimit); ValBound(params.posLimitV2);
  }

  lemma NextInRange(params: Params, lastBits: Limb, time: int, firstTime: int, stake: bool, bits: Limb)
    requires Sane(params) && Steady(params, time, firstTime) && !Signed(lastBits)
    requires 0 < Decoded(lastBits) <= Ceiling(params, stake)
    requires NextTarget(params, lastBits, time, firstTime, stake, bits)
    ensures !Signed(bits) && 0 < Decoded(bits) <= Ceiling(params, stake)
  {
    hide Val, Pow, Decoded, Encodes, Sane, Steady, Ceiling, Retargeted;
    if !NoRetarget(params, stake) { RetargetExact(params, lastBits, time, firstTime, stake, bits); }
  }

  /** The main network's constants. */
  const MAIN_LIMIT: Word :=
    [0xffffffff, 0xffffffff, 0xffffffff, 0xffffffff, 0xffffffff, 0xffffffff, 0xffffffff, 0x00000fff]
  const MAIN := Params(MAIN_LIMIT, MAIN_LIMIT, MAIN_LIMIT, 120, 120, 3600,
                       1769817600, 1769817601, 1769817602, false, false)

  lemma MainIsSane()
    ensures Sane(MAIN)
  {
    hide Val, Pow;
    assert TopMultiplier(MAIN, 120) == 5880;
    var v := Val(MAIN_LIMIT);
    ValSplit(MAIN_LIMIT, 7);
    ValBound(MAIN_LIMIT[..7]);
    assert MAIN_LIMIT[7..] == [0xfff];
    assert Val([0xfff]) == 0xfff by { ValSingle(0xfff); }
    PowAdd(BASE, 7, 1);
    assert Pow(BASE, 1) == BASE by { PowOne(); }
    assert v > 0 by { if v == 0 { ValZero(MAIN_LIMIT); } }
  }

  /** On the main network, after the last of its changes: the target is multiplied by 3480 + 2 d over
      3720, where d is the gap in seconds, 120 for a negative one and at most 1200. */
  lemma MainStep(b: BlockIndex)
    requires Linked(b) && MAIN.Ok() && Follows(MAIN, b) && b.pprev != null
    ensures var prev := LastOfKind(b.pprev, b.stake);
      prev.pprev != null && prev.time > 1769817602 ==>
      var before := LastOfKind(prev.pprev, b.stake);
      before.pprev != null ==>
      var gap, limit := prev.time - before.time, Val(MAIN_LIMIT);
      var d := if gap < 0 then 120 else if gap > 1200 then 1200 else gap;
      var v := Decoded(prev.bits) * (3480 + 2 * d) / 3720;
      if 0 < v <= limit then Encodes(b.bits, v) else limit > 0 && Encodes(b.bits, limit)
  {
    hide Val, Pow, Decoded, Encodes, Follows;
    MainIsSane();
    EveryStepTimed(MAIN, b);
  }

  /** After the last change no block time can make a step on the main network unsteady. */
  lemma MainIsSteady(time: int, firstTime: int)
    requires time > 1769817602
    ensures MAIN.Ok() && Steady(MAIN, time, firstTime)
  {
  }

  /** Before the limits on a step are in force a block can be dated so far back that the multiplier
      is negative, and then it wraps: no target is scaled by it exactly. */
  lemma NegativeSpacing(target: int)
    requires 0 < target < Modulus(8)
    ensures !MAIN.IsFixed(0) && Multiplier(MAIN, 0, 1741) == -2
    ensures target * (-2 % BASE) % Modulus(8) != target * -2
  {
    hide Pow;
    ExactIff(target, -2);
  }

  lemma ValSingle(x: Limb)
    ensures Val([x]) == x
  {
  }

  lemma PowOne()
    ensures Pow(BASE, 1) == BASE
  {
  }
}
