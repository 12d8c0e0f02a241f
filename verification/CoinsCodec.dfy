/** The stored form of CCoins (src/coins.h): a header code, a bitmask of the unspent outputs that
    stops at its last nonzero byte, and the unspent outputs themselves. */
module CoinsCodec {
  import opened Basics
  import opened Powers
  import opened BitPack
  import C = Coins
  import V = Compressor

  type Vout = seq<Option<C.Out>>

  /** The encoding of one output (CTxOutCompressor), self-delimiting. */
  datatype OutCodec = OutCodec(enc: C.Out -> seq<nat>, dec: seq<nat> -> Option<(C.Out, nat)>)

  ghost predicate Good(o: OutCodec) {
    forall out: C.Out, rest: seq<nat> :: o.dec(o.enc(out) + rest) == Some((out, |o.enc(out)|))
  }

  // --- The mask ---

  /** Which outputs from position i on are unspent. */
  function Flags(v: Vout, i: nat): (bits: seq<bool>)
    ensures |bits| == if i <= |v| then |v| - i else 0
    ensures forall p :: 0 <= p < |bits| ==> bits[p] == v[i + p].Some?
  {
    if i < |v| then seq(|v| - i, p requires 0 <= p < |v| - i => v[i + p].Some?) else []
  }

  function TrimZeros(s: seq<nat>): (r: seq<nat>)
    ensures r <= s && (r != [] ==> r[|r| - 1] != 0)
    ensures forall k :: |r| <= k < |s| ==> s[k] == 0
  {
    if s != [] && s[|s| - 1] == 0 then TrimZeros(s[..|s| - 1]) else s
  }

  function NonZero(s: seq<nat>): nat {
    if s == [] then 0 else (if s[0] != 0 then 1 else 0) + NonZero(s[1..])
  }

  /** The mask bytes: outputs from the third on, without trailing zero bytes. */
  function Mask(v: Vout): seq<nat> { TrimZeros(Packed(Flags(v, 2))) }

  function ByteBits(b: nat): (bits: seq<bool>)
    ensures |bits| == 8 && forall p :: 0 <= p < 8 ==> bits[p] == TestBit(b, p)
  {
    seq(8, p requires 0 <= p < 8 => TestBit(b, p))
  }

  /** Reads bytes until k nonzero ones have been seen; the flags and the bytes used. */
  function ReadMask(s: seq<nat>, k: nat): (r: Option<(seq<bool>, nat)>)
    ensures r.Some? ==> r.value.1 <= |s|
    decreases |s|
  {
    if k == 0 then Some(([], 0))
    else if s == [] then None
    else
      match ReadMask(s[1..], if s[0] != 0 then k - 1 else k)
      case None => None
      case Some(p) => Some((ByteBits(s[0]) + p.0, p.1 + 1))
  }

  function AllBits(s: seq<nat>): (bits: seq<bool>)
    ensures |bits| == 8 * |s|
  {
    if s == [] then [] else ByteBits(s[0]) + AllBits(s[1..])
  }

  lemma {:induction false} AllBitsAt(s: seq<nat>, p: nat)
    requires p < 8 * |s|
    ensures AllBits(s)[p] == TestBit(s[p / 8], p % 8)
  {
    if p >= 8 {
      AllBitsAt(s[1..], p - 8);
      assert (p - 8) / 8 == p / 8 - 1 && (p - 8) % 8 == p % 8;
    } else {
      assert p / 8 == 0 && p % 8 == p;
    }
  }

  /** A mask that ends in a nonzero byte is read back whole, and no further. */
  lemma {:induction false} ReadMaskBack(m: seq<nat>, rest: seq<nat>)
    requires m != [] ==> m[|m| - 1] != 0
    ensures ReadMask(m + rest, NonZero(m)) == Some((AllBits(m), |m|))
  {
    if m != [] {
      assert (m + rest)[1..] == m[1..] + rest;
      ReadMaskBack(m[1..], rest);
      LastCounts(m);
    }
  }

  lemma {:induction false} LastCounts(m: seq<nat>)
    requires m != [] && m[|m| - 1] != 0
    ensures NonZero(m) >= 1
  {
    if |m| > 1 { LastCounts(m[1..]); }
  }

  lemma {:induction false} ZeroTail(s: seq<nat>, n: nat)
    requires n <= |s| && forall k :: n <= k < |s| ==> s[k] == 0
    ensures NonZero(s) == NonZero(s[..n])
  {
    if n == 0 {
      if s != [] { ZeroTail(s[1..], 0); }
    } else {
      ZeroTail(s[1..], n - 1);
      assert s[..n][1..] == s[1..][..n - 1];
    }
  }

  lemma TestZero(j: nat)
    ensures !TestBit(0, j)
  {
    PowPositive(2, j);
    DivModUnique(0, Pow(2, j), 0, 0);
  }

  /** The flags read from a mask are the flags it was made from. */
  lemma MaskFlags(v: Vout, p: nat)
    ensures At(AllBits(Mask(v)), p) == At(Flags(v, 2), p)
  {
    hide Low, TestBit;
    var bits, m := Flags(v, 2), Mask(v);
    if p < 8 * |m| {
      AllBitsAt(m, p);
      LowBit(bits, p / 8, 8, p % 8);
    } else if p < |bits| {
      LowBit(bits, p / 8, 8, p % 8);
      assert Packed(bits)[p / 8] == 0;
      TestZero(p % 8);
    }
  }

  // --- The outputs ---

  function Outs(o: OutCodec, v: Vout): seq<nat> {
    if v == [] then [] else (if v[0].Some? then o.enc(v[0].value) else []) + Outs(o, v[1..])
  }

  /** Reads an output for every flag that is set. */
  function ReadOuts(o: OutCodec, flags: seq<bool>, s: seq<nat>): (r: Option<(Vout, nat)>)
    ensures r.Some? ==> r.value.1 <= |s| && |r.value.0| == |flags|
    decreases |flags|
  {
    if flags == [] then Some(([], 0))
    else
      var n := if flags[0] then o.dec(s) else Some((C.Out(0, []), 0));
      if n.None? || n.value.1 > |s| then None
      else
        match ReadOuts(o, flags[1..], s[n.value.1..])
        case None => None
        case Some(p) => Some(([if flags[0] then Some(n.value.0) else None] + p.0, n.value.1 + p.1))
  }

  /** The outputs, cut or padded to n positions. */
  function Fit(v: Vout, n: nat): (w: Vout)
    ensures |w| == n && forall i :: 0 <= i < n ==> w[i] == if i < |v| then v[i] else None
  {
    seq(n, i requires 0 <= i => if i < |v| then v[i] else None)
  }

  /** The flags say which outputs are unspent, at every position. */
  ghost predicate Tells(flags: seq<bool>, v: Vout) {
    forall i: nat :: At(flags, i) == (i < |v| && v[i].Some?)
  }

  lemma {:induction false} NoOuts(o: OutCodec, v: Vout)
    requires forall i :: 0 <= i < |v| ==> v[i].None?
    ensures Outs(o, v) == []
  {
    if v != [] { NoOuts(o, v[1..]); }
  }

  lemma TellsNone(v: Vout)
    requires Tells([], v)
    ensures forall i :: 0 <= i < |v| ==> v[i].None?
  {
    forall i | 0 <= i < |v| ensures v[i].None? { assert !At([], i); }
  }

  lemma TellsRest(flags: seq<bool>, v: Vout)
    requires flags != [] && Tells(flags, v)
    ensures flags[0] == (v != [] && v[0].Some?)
    ensures Tells(flags[1..], if v == [] then [] else v[1..])
  {
    assert At(flags, 0) == flags[0];
    forall i: nat ensures At(flags[1..], i) == (i + 1 < |v| && v[i + 1].Some?) {
      assert At(flags, i + 1) == At(flags[1..], i);
    }
  }

  lemma {:induction false} ReadOutsBack(o: OutCodec, flags: seq<bool>, v: Vout, rest: seq<nat>)
    requires Good(o) && Tells(flags, v)
    ensures ReadOuts(o, flags, Outs(o, v) + rest) == Some((Fit(v, |flags|), |Outs(o, v)|))
    decreases |flags|
  {
    hide Tells, Good, Fit, ReadOuts;
    if flags == [] {
      TellsNone(v);
      NoOuts(o, v);
      FitSplit(v, 0);
      ReadNoOuts(o, Outs(o, v) + rest);
      assert flags == [];
    } else {
      TellsRest(flags, v);
      var w := if v == [] then [] else v[1..];
      ReadOutsBack(o, flags[1..], w, rest);
      FitSplit(v, |flags|);
      var t := Outs(o, w) + rest;
      if flags[0] {
        var e := o.enc(v[0].value);
        assert Outs(o, v) + rest == e + t;
        GoodAt(o, v[0].value, t);
        ReadSet(o, flags, e, t, v[0].value);
      } else {
        assert Outs(o, v) + rest == t;
        ReadClear(o, flags, t);
      }
    }
  }

  lemma ReadNoOuts(o: OutCodec, s: seq<nat>)
    ensures ReadOuts(o, [], s) == Some(([], 0))
  {
  }

  lemma {:induction false} ReadSet(o: OutCodec, flags: seq<bool>, e: seq<nat>, t: seq<nat>, out: C.Out)
    requires flags != [] && flags[0] && o.dec(e + t) == Some((out, |e|)) && ReadOuts(o, flags[1..], t).Some?
    ensures var p := ReadOuts(o, flags[1..], t).value;
      ReadOuts(o, flags, e + t) == Some(([Some(out)] + p.0, |e| + p.1))
  {
    assert (e + t)[|e|..] == t;
  }

  lemma {:induction false} ReadClear(o: OutCodec, flags: seq<bool>, t: seq<nat>)
    requires flags != [] && !flags[0] && ReadOuts(o, flags[1..], t).Some?
    ensures var p := ReadOuts(o, flags[1..], t).value;
      ReadOuts(o, flags, t) == Some(([None] + p.0, p.1))
  {
    assert t[0..] == t;
  }

  lemma FitSplit(v: Vout, n: nat)
    ensures n == 0 ==> Fit(v, n) == []
    ensures n > 0 ==> Fit(v, n) == [if v == [] then None else v[0]] + Fit(if v == [] then [] else v[1..], n - 1)
  {
  }

  lemma GoodAt(o: OutCodec, out: C.Out, rest: seq<nat>)
    requires Good(o)
    ensures o.dec(o.enc(out) + rest) == Some((out, |o.enc(out)|))
  {
  }

  // --- The whole record ---

  predicate Has(v: Vout, i: nat) { i < |v| && v[i].Some? }

  function Bit(b: bool, n: nat): nat { if b then n else 0 }

  /** Number of nonzero mask bytes, flags of the first two outputs, coinbase and coinstake, in one. */
  function HeaderCode(c: C.Coins): int {
    16 * (NonZero(Mask(c.vout)) - (if Has(c.vout, 0) || Has(c.vout, 1) then 0 else 1))
    + Bit(c.coinBase, 1) + Bit(Has(c.vout, 0), 2) + Bit(Has(c.vout, 1), 4) + Bit(c.coinStake, 8)
  }

  /** The assertion before writing holds exactly for records with an unspent output. */
  lemma AnyUnspentIff(c: C.Coins)
    ensures Has(c.vout, 0) || Has(c.vout, 1) || NonZero(Mask(c.vout)) > 0 <==> !C.IsPruned(c)
  {
    var v := c.vout;
    if NonZero(Mask(v)) > 0 {
      var b := NonZeroAt(Mask(v));
      NonZeroFlag(Flags(v, 2), b, 8);
    } else if !C.IsPruned(c) && !Has(v, 0) && !Has(v, 1) {
      var i :| 0 <= i < |v| && v[i].Some?;
      MaskFlags(v, i - 2);
      if Mask(v) != [] { LastCounts(Mask(v)); }
    }
  }

  lemma {:induction false} NonZeroAt(s: seq<nat>) returns (b: nat)
    requires NonZero(s) > 0
    ensures b < |s| && s[b] != 0
  {
    if s[0] != 0 { b := 0; } else { b := NonZeroAt(s[1..]); b := b + 1; }
  }

  lemma {:induction false} NonZeroFlag(bits: seq<bool>, k: nat, j: nat)
    requires Low(bits, k, j) != 0
    ensures exists p :: 0 <= p < |bits| && bits[p]
  {
    if At(bits, 8 * k + j - 1) { assert bits[8 * k + j - 1]; } else { NonZeroFlag(bits, k, j - 1); }
  }

  function Word32(t: nat): seq<nat> { [t % 256, t / 256 % 256, t / 65536 % 256, t / 16777216 % 256] }

  function ReadWord32(s: seq<nat>): Option<(nat, nat)> {
    if |s| < 4 then None else Some((s[0] + 256 * s[1] + 65536 * s[2] + 16777216 * s[3], 4))
  }

  function Serialized(o: OutCodec, c: C.Coins): seq<nat>
    requires !C.IsPruned(c)
  {
    AnyUnspentIff(c);
    V.SignedVarInt(c.version) + (V.VarInt(HeaderCode(c))
      + (Mask(c.vout) + (Outs(o, c.vout) + (V.SignedVarInt(c.height) + Word32(c.time)))))
  }

  /** The first record in the description of the format: version, code, the second output, height, and
      the time the description leaves out, low byte first. */
  lemma StoredSecondOutput(o: OutCodec, out: C.Out, t: nat)
    requires t < 0x1_0000_0000
    ensures
      var c := C.Coins(false, false, [None, Some(out)], 203998, 1, t);
      && !C.IsPruned(c)
      && Serialized(o, c) == [0x01, 0x04] + o.enc(out) + [0x8b, 0xb8, 0x5e]
                             + [t % 256, t / 256 % 256, t / 65536 % 256, t / 16777216]
  {
    hide Mask, Outs, Word32, HeaderCode, V.VarInt, V.VarHigh;
    SecondCode(o, out, t);
    TimeBytes(t);
  }

  lemma SecondCode(o: OutCodec, out: C.Out, t: nat)
    ensures
      var c := C.Coins(false, false, [None, Some(out)], 203998, 1, t);
      && !C.IsPruned(c) && Mask(c.vout) == [] && HeaderCode(c) == 4 && Outs(o, c.vout) == o.enc(out)
      && V.VarInt(4) == [0x04] && V.VarInt(203998) == [0x8b, 0xb8, 0x5e] && V.VarInt(1) == [0x01]
  {
    var v: Vout := [None, Some(out)];
    assert v[1].Some?;
    assert Mask(v) == [];
    assert v[1..] == [Some(out)] && v[1..][1..] == [];
    assert Outs(o, v[1..]) == o.enc(out) + Outs(o, v[1..][1..]);
  }

  /** A record of seventeen outputs with only the fifth and the last unspent. */
  function Sparse(a: C.Out, b: C.Out): (v: Vout)
    ensures |v| == 17
  {
    seq(17, k => if k == 4 then Some(a) else if k == 16 then Some(b) else None)
  }

  /** A byte with one bit set. */
  lemma {:induction false} LowOne(bits: seq<bool>, k: nat, i: nat, j: nat)
    requires forall p :: 8 * k <= p < 8 * k + j ==> (At(bits, p) <==> p == 8 * k + i)
    ensures Low(bits, k, j) == if i < j then Pow(2, i) else 0
  {
    if j > 0 {
      LowOne(bits, k, i, j - 1);
      assert At(bits, 8 * k + j - 1) <==> i == j - 1;
    }
  }

  lemma SparseMask(a: C.Out, b: C.Out)
    ensures Mask(Sparse(a, b)) == [0x04, 0x40]
  {
    var bits := Flags(Sparse(a, b), 2);
    assert forall p :: 0 <= p < 15 ==> bits[p] == (p == 2 || p == 14);
    assert Pow(2, 2) == 4 && Pow(2, 6) == 64;
    LowOne(bits, 0, 2, 8);
    LowOne(bits, 1, 6, 8);
    assert Packed(bits) == [0x04, 0x40];
  }

  lemma {:induction false} SparseOuts(o: OutCodec, a: C.Out, b: C.Out, k: nat)
    requires k <= 17
    ensures Outs(o, Sparse(a, b)[k..]) ==
      if k <= 4 then o.enc(a) + o.enc(b) else if k <= 16 then o.enc(b) else []
    decreases 17 - k
  {
    if k < 17 {
      SparseOuts(o, a, b, k + 1);
      assert Sparse(a, b)[k..][1..] == Sparse(a, b)[k + 1..];
    }
  }

  /** The second record, whose mask skips nothing and whose code counts its two bytes as one, with no
      output before it. The code is 17, not the 9 of the description: the count of mask bytes starts
      at bit 4 since bit 3 marks a coinstake. */
  lemma StoredSparseOutputs(o: OutCodec, a: C.Out, b: C.Out, t: nat)
    requires t < 0x1_0000_0000
    ensures
      var c := C.Coins(true, false, Sparse(a, b), 120891, 1, t);
      && !C.IsPruned(c)
      && Serialized(o, c) == [0x01, 0x11, 0x04, 0x40] + (o.enc(a) + o.enc(b)) + [0x86, 0xaf, 0x3b]
                             + [t % 256, t / 256 % 256, t / 65536 % 256, t / 16777216]
  {
    hide Mask, Outs, Word32, Sparse;
    var c := C.Coins(true, false, Sparse(a, b), 120891, 1, t);
    SparseCode(a, b, t);
    SparseMask(a, b);
    SparseOuts(o, a, b, 0);
    assert Sparse(a, b)[0..] == Sparse(a, b);
    TimeBytes(t);
  }

  lemma TimeBytes(t: nat)
    requires t < 0x1_0000_0000
    ensures Word32(t) == [t % 256, t / 256 % 256, t / 65536 % 256, t / 16777216]
  {
  }

  lemma SparseCode(a: C.Out, b: C.Out, t: nat)
    ensures
      var c := C.Coins(true, false, Sparse(a, b), 120891, 1, t);
      && !C.IsPruned(c) && HeaderCode(c) == 17 && V.VarInt(17) == [0x11]
      && V.SignedVarInt(c.height) == [0x86, 0xaf, 0x3b] && V.SignedVarInt(c.version) == [0x01]
  {
    hide Mask;
    var c := C.Coins(true, false, Sparse(a, b), 120891, 1, t);
    assert c.vout[4].Some?;
    SparseMask(a, b);
    assert HeaderCode(c) == 17 by { assert NonZero([0x04, 0x40]) == 2; }
    assert V.VarInt(120891) == [0x86, 0xaf, 0x3b];
  }

  /** The tail of a record, once the flags of its outputs are known. */
  function ReadTail(o: OutCodec, s: seq<nat>, version: nat, code: nat, flags: seq<bool>): Option<(C.Coins, nat)> {
    match ReadOuts(o, flags, s)
    case None => None
    case Some(outs) =>
      match V.ReadVarInt(s[outs.1..])
      case None => None
      case Some(height) =>
        match ReadWord32(s[outs.1 + height.1..])
        case None => None
        case Some(time) =>
          Some((C.Cleanup(C.Coins(code % 2 == 1, code / 8 % 2 == 1, outs.0, height.0, version, time.0)),
                  outs.1 + height.1 + time.1))
  }

  function MaskCode(code: nat): nat {
    code / 16 + (if code / 2 % 2 == 1 || code / 4 % 2 == 1 then 0 else 1)
  }

  function Unserialized(o: OutCodec, s: seq<nat>): Option<(C.Coins, nat)> {
    match V.ReadVarInt(s)
    case None => None
    case Some(version) =>
      match V.ReadVarInt(s[version.1..])
      case None => None
      case Some(code) =>
        var k := version.1 + code.1;
        match ReadMask(s[k..], MaskCode(code.0))
        case None => None
        case Some(mask) =>
          var flags := [code.0 / 2 % 2 == 1, code.0 / 4 % 2 == 1] + mask.0;
          match ReadTail(o, s[k + mask.1..], version.0, code.0, flags)
          case None => None
          case Some(r) => Some((r.0, k + mask.1 + r.1))
  }

  lemma CodeFields(c: C.Coins)
    requires !C.IsPruned(c)
    ensures var code := HeaderCode(c);
      && code >= 0 && MaskCode(code) == NonZero(Mask(c.vout))
      && (code % 2 == 1 <==> c.coinBase) && (code / 8 % 2 == 1 <==> c.coinStake)
      && (code / 2 % 2 == 1 <==> Has(c.vout, 0)) && (code / 4 % 2 == 1 <==> Has(c.vout, 1))
  {
    hide Mask, NonZero;
    AnyUnspentIff(c);
    CodeParts(NonZero(Mask(c.vout)), c.coinBase, Has(c.vout, 0), Has(c.vout, 1), c.coinStake);
  }

  lemma CodeParts(n: nat, base: bool, first: bool, second: bool, stake: bool)
    requires n > 0 || first || second
    ensures var code := 16 * (n - (if first || second then 0 else 1)) + Bit(base, 1) + Bit(first, 2) + Bit(second, 4)
      + Bit(stake, 8);
      && code >= 0 && MaskCode(code) == n
      && (code % 2 == 1 <==> base) && (code / 8 % 2 == 1 <==> stake) && (code / 2 % 2 == 1 <==> first)
      && (code / 4 % 2 == 1 <==> second)
  {
    hide Bit;
    var low := Bit(base, 1) + Bit(first, 2) + Bit(second, 4) + Bit(stake, 8);
    LowFields(base, first, second, stake);
    LowBits(n - (if first || second then 0 else 1), low);
  }

  lemma LowBits(q: nat, low: nat)
    requires low < 16
    ensures var code := 16 * q + low;
      code / 16 == q && code % 2 == low % 2 && code / 2 % 2 == low / 2 % 2 && code / 4 % 2 == low / 4 % 2
        && code / 8 % 2 == low / 8 % 2
  {
    DivModUnique(16 * q + low, 16, q, low);
    DivModUnique(16 * q + low, 2, 8 * q + low / 2, low % 2);
    DivModUnique(16 * q + low, 4, 4 * q + low / 4, low % 4);
    DivModUnique(16 * q + low, 8, 2 * q + low / 8, low % 8);
    EvenPlus(8 * q, low); EvenPlus(4 * q, low / 2); EvenPlus(2 * q, low / 4); EvenPlus(q, low / 8);
  }

  lemma EvenPlus(k: nat, x: nat)
    ensures (2 * k + x) % 2 == x % 2
  {
    DivModUnique(2 * k + x, 2, k + x / 2, x % 2);
  }

  lemma LowFields(base: bool, first: bool, second: bool, stake: bool)
    ensures var low := Bit(base, 1) + Bit(first, 2) + Bit(second, 4) + Bit(stake, 8);
      low < 16 && (low % 2 == 1 <==> base) && (low / 2 % 2 == 1 <==> first) && (low / 4 % 2 == 1 <==> second)
        && (low / 8 % 2 == 1 <==> stake)
  {
  }

  lemma Word32Back(t: nat, rest: seq<nat>)
    requires t < 0x1_0000_0000
    ensures |Word32(t)| == 4 && ReadWord32(Word32(t) + rest) == Some((t, 4))
  {
    var a, b, c := t / 256, t / 65536, t / 16777216;
    assert t == t % 256 + 256 * a && a == a % 256 + 256 * b && b == b % 256 + 256 * c;
  }

  /** The two header flags and the mask together tell every unspent output. */
  lemma FlagsTell(v: Vout)
    ensures Tells([Has(v, 0), Has(v, 1)] + AllBits(Mask(v)), v)
  {
    hide Mask;
    var flags := [Has(v, 0), Has(v, 1)] + AllBits(Mask(v));
    forall i: nat ensures At(flags, i) == (i < |v| && v[i].Some?) {
      if i >= 2 {
        MaskFlags(v, i - 2);
        assert At(flags, i) == At(AllBits(Mask(v)), i - 2);
      }
    }
  }

  /** Outputs that agree at every position are equal once trailing spent ones are dropped. */
  lemma {:induction false} TrimFit(v: Vout, n: nat)
    requires forall i :: n <= i < |v| ==> v[i].None?
    ensures C.Trim(Fit(v, n)) == C.Trim(v)
    decreases n + |v|
  {
    var w := Fit(v, n);
    if n > |v| {
      assert w[..n - 1] == Fit(v, n - 1);
      TrimFit(v, n - 1);
    } else if n < |v| {
      var u := v[..|v| - 1];
      assert Fit(u, n) == w;
      TrimFit(u, n);
    } else {
      assert w == v;
    }
  }

  /** The record as it comes back: without the spent outputs at its end, and with the stored form of
      its version and height. */
  function StoredRecord(c: C.Coins): C.Coins {
    C.Cleanup(c).(version := V.Stored(c.version), height := V.Stored(c.height))
  }

  lemma ReadTailBack(o: OutCodec, c: C.Coins, flags: seq<bool>, code: nat, rest: seq<nat>)
    requires Good(o) && c.time < 0x1_0000_0000 && Tells(flags, c.vout)
    requires (code % 2 == 1 <==> c.coinBase) && (code / 8 % 2 == 1 <==> c.coinStake)
    ensures var s := Outs(o, c.vout) + (V.SignedVarInt(c.height) + Word32(c.time));
      ReadTail(o, s + rest, V.Stored(c.version), code, flags) == Some((StoredRecord(c), |s|))
  {
    hide Tells, Good, ReadOuts, Outs, Word32, ReadWord32, Fit, V.SignedVarInt, V.Stored, V.ReadVarInt, C.Trim;
    var outs, h, t := Outs(o, c.vout), V.SignedVarInt(c.height), Word32(c.time);
    var s := outs + (h + t);
    TailSlices(outs, h, t, rest);
    ReadOutsBack(o, flags, c.vout, h + (t + rest));
    V.SignedRoundTrip(c.height, t + rest);
    Word32Back(c.time, rest);
    Beyond(flags, c.vout);
    TrimFit(c.vout, |flags|);
  }

  lemma TailSlices(a: seq<nat>, b: seq<nat>, c: seq<nat>, rest: seq<nat>)
    ensures var s := a + (b + c) + rest;
      s == a + (b + (c + rest)) && s[|a|..] == b + (c + rest) && s[|a| + |b|..] == c + rest
  {
  }

  lemma Beyond(flags: seq<bool>, v: Vout)
    requires Tells(flags, v)
    ensures forall i :: |flags| <= i < |v| ==> v[i].None?
  {
    forall i | |flags| <= i < |v| ensures v[i].None? { assert !At(flags, i); }
  }

  /** Reading a stored record gives its stored form, whatever its version and height, and stops
      there. */
  lemma ReadsStored(o: OutCodec, c: C.Coins, rest: seq<nat>)
    requires Good(o) && !C.IsPruned(c) && c.time < 0x1_0000_0000
    ensures Unserialized(o, Serialized(o, c) + rest) == Some((StoredRecord(c), |Serialized(o, c)|))
  {
    hide Tells, Good, ReadTail, ReadMask, Outs, HeaderCode, MaskCode, Mask, Word32, V.VarInt, V.ReadVarInt;
    hide V.SignedVarInt, V.Stored, StoredRecord;
    CodeFields(c);
    var a, b, m := V.SignedVarInt(c.version), V.VarInt(HeaderCode(c)), Mask(c.vout);
    var tail := Outs(o, c.vout) + (V.SignedVarInt(c.height) + Word32(c.time));
    Slices(a, b, m, tail, rest);
    V.SignedRoundTrip(c.version, b + (m + (tail + rest)));
    V.VarIntRoundTrip(HeaderCode(c), m + (tail + rest));
    MaskEnds(c.vout);
    ReadMaskBack(m, tail + rest);
    FlagsTell(c.vout);
    ReadTailBack(o, c, [Has(c.vout, 0), Has(c.vout, 1)] + AllBits(m), HeaderCode(c), rest);
  }

  /** A record comes back, without the spent outputs at its end, exactly when neither its version nor
      its height is negative; every other field comes back in any case. */
  lemma RoundTrip(o: OutCodec, c: C.Coins, rest: seq<nat>)
    requires Good(o) && !C.IsPruned(c) && c.time < 0x1_0000_0000
    ensures var r := Unserialized(o, Serialized(o, c) + rest);
      && r.Some? && r.value.1 == |Serialized(o, c)|
      && (r.value.0 == C.Cleanup(c) <==> c.version >= 0 && c.height >= 0)
      && (r.value.0.version == c.version <==> c.version >= 0)
      && (r.value.0.height == c.height <==> c.height >= 0)
      && r.value.0.(version := c.version, height := c.height) == C.Cleanup(c)
  {
    hide Unserialized, Serialized, Good, C.IsPruned;
    ReadsStored(o, c, rest);
  }

  /** What disconnecting a block does about it: where the block's own record has a negative version,
      that version is put back before the two are compared. */
  lemma VersionPutBack(o: OutCodec, c: C.Coins, rest: seq<nat>)
    requires Good(o) && !C.IsPruned(c) && c.time < 0x1_0000_0000 && c.height >= 0
    ensures var r := Unserialized(o, Serialized(o, c) + rest);
      r.Some? && (if c.version < 0 then r.value.0.(version := c.version) else r.value.0) == C.Cleanup(c)
  {
    hide Unserialized, Serialized, Good, C.IsPruned;
    RoundTrip(o, c, rest);
  }

  /** A record of version -1 is read back with version 127. */
  lemma NegativeVersion(o: OutCodec, rest: seq<nat>)
    requires Good(o)
    ensures var c := C.Coins(false, false, [Some(C.Out(1, []))], 0, -1, 0);
      c.vout[0].Some? &&
      var r := Unserialized(o, Serialized(o, c) + rest);
      r.Some? && r.value.0 == c.(version := 127)
  {
    hide Unserialized, Serialized, Good;
    var c := C.Coins(false, false, [Some(C.Out(1, []))], 0, -1, 0);
    assert c.vout[0].Some?;
    ReadsStored(o, c, rest);
  }

  lemma Slices(a: seq<nat>, b: seq<nat>, m: seq<nat>, t: seq<nat>, rest: seq<nat>)
    ensures var s := a + (b + (m + t)) + rest;
      && s == a + (b + (m + (t + rest))) && s[|a|..] == b + (m + (t + rest))
      && s[|a| + |b|..] == m + (t + rest) && s[|a| + |b| + |m|..] == t + rest
  {
  }

  lemma MaskEnds(v: Vout)
    ensures Mask(v) != [] ==> Mask(v)[|Mask(v)| - 1] != 0
  {
  }

  // --- The loops ---

  /** Whether a mask byte has a set bit, by visiting its outputs. */
  method ByteUsed(v: Vout, b: nat) returns (used: bool)
    ensures used <==> Low(Flags(v, 2), b, 8) != 0
  {
    used := false;
    var i := 0;
    assert Low(Flags(v, 2), b, 0) == 0;
    while i < 8 && 2 + b * 8 + i < |v|
      invariant 0 <= i <= 8
      invariant used <==> Low(Flags(v, 2), b, i) != 0
    {
      PowPositive(2, i);
      assert At(Flags(v, 2), 8 * b + i) == v[2 + b * 8 + i].Some?;
      if v[2 + b * 8 + i].Some? {
        used := true;
      }
      i := i + 1;
    }
    PastEnd(Flags(v, 2), b, i);
  }

  /** Length of the mask and number of its nonzero bytes. */
  method CalcMaskSize(v: Vout) returns (bytes: nat, nonzero: nat)
    ensures bytes == |Mask(v)| && nonzero == NonZero(Mask(v))
  {
    hide Low;
    ghost var all := Packed(Flags(v, 2));
    bytes, nonzero := 0, 0;
    var b := 0;
    while 2 + b * 8 < |v|
      invariant 0 <= b <= |all| && bytes <= b
      invariant bytes > 0 ==> all[bytes - 1] != 0
      invariant forall k :: bytes <= k < b ==> all[k] == 0
      invariant nonzero == NonZero(all[..b])
      decreases |v| - b * 8
    {
      var used := ByteUsed(v, b);
      NonZeroSnoc(all, b);
      if used {
        bytes := b + 1;
        nonzero := nonzero + 1;
      }
      b := b + 1;
    }
    assert all[..b] == all;
    TrimIs(all, bytes);
    ZeroTail(all, bytes);
  }

  lemma {:induction false} NonZeroSnoc(s: seq<nat>, b: nat)
    requires b < |s|
    ensures NonZero(s[..b + 1]) == NonZero(s[..b]) + (if s[b] != 0 then 1 else 0)
    decreases b
  {
    if b > 0 {
      NonZeroSnoc(s[1..], b - 1);
      assert s[..b + 1][1..] == s[1..][..b] && s[..b][1..] == s[1..][..b - 1];
    }
  }

  lemma {:induction false} TrimIs(s: seq<nat>, n: nat)
    requires n <= |s| && (n > 0 ==> s[n - 1] != 0) && forall k :: n <= k < |s| ==> s[k] == 0
    ensures TrimZeros(s) == s[..n]
    decreases |s|
  {
    if n < |s| {
      TrimIs(s[..|s| - 1], n);
      assert s[..|s| - 1][..n] == s[..n];
    } else {
      assert s[..n] == s;
    }
  }

  /** One mask byte, bit by bit. */
  method MaskByte(v: Vout, b: nat) returns (avail: nat)
    ensures avail == Low(Flags(v, 2), b, 8)
  {
    avail := 0;
    var i := 0;
    while i < 8 && 2 + b * 8 + i < |v|
      invariant 0 <= i <= 8
      invariant avail == Low(Flags(v, 2), b, i)
    {
      OrBit(Flags(v, 2), b, i);
      assert At(Flags(v, 2), 8 * b + i) == v[2 + b * 8 + i].Some?;
      if v[2 + b * 8 + i].Some? {
        avail := Or(avail, Pow(2, i));
      }
      i := i + 1;
    }
    PastEnd(Flags(v, 2), b, i);
  }

  method WriteMask(v: Vout) returns (mask: seq<nat>)
    ensures mask == Mask(v)
  {
    hide Low;
    var bytes, _ := CalcMaskSize(v);
    mask := [];
    var b := 0;
    while b < bytes
      invariant 0 <= b <= bytes
      invariant mask == Mask(v)[..b]
    {
      var avail := MaskByte(v, b);
      mask := mask + [avail];
      b := b + 1;
    }
  }

  method ReadMaskLoop(s: seq<nat>, k: nat) returns (r: Option<(seq<bool>, nat)>)
    ensures r == ReadMask(s, k)
  {
    hide TestBit;
    var code, i := k, 0;
    var flags: seq<bool> := [];
    assert s[0..] == s;
    AfterNothing(ReadMask(s, k));
    while code > 0
      invariant 0 <= i <= |s| && 0 <= code
      invariant ReadMask(s, k) == After(flags, i, ReadMask(s[i..], code))
      decreases |s| - i
    {
      if i == |s| {
        return None;
      }
      assert s[i..][1..] == s[i + 1..] && s[i..][0] == s[i];
      var p := 0;
      ghost var was := flags;
      while p < 8
        invariant 0 <= p <= 8
        invariant flags == was + ByteBits(s[i])[..p]
      {
        flags := flags + [TestBit(s[i], p)];
        p := p + 1;
      }
      assert flags == was + ByteBits(s[i]);
      AfterByte(was, i, s[i], ReadMask(s[i + 1..], if s[i] != 0 then code - 1 else code));
      if s[i] != 0 {
        code := code - 1;
      }
      i := i + 1;
    }
    assert flags + [] == flags;
    r := Some((flags, i));
  }

  lemma AfterNothing(r: Option<(seq<bool>, nat)>)
    ensures After([], 0, r) == r
  {
    if r.Some? { assert [] + r.value.0 == r.value.0; }
  }

  /** A read that already used i bytes and found some flags, continued. */
  function After(flags: seq<bool>, i: nat, r: Option<(seq<bool>, nat)>): Option<(seq<bool>, nat)> {
    if r.None? then r else Some((flags + r.value.0, i + r.value.1))
  }

  lemma AfterByte(flags: seq<bool>, i: nat, b: nat, r: Option<(seq<bool>, nat)>)
    ensures After(flags + ByteBits(b), i + 1, r) ==
      After(flags, i, if r.None? then r else Some((ByteBits(b) + r.value.0, r.value.1 + 1)))
  {
    if r.Some? { assert flags + ByteBits(b) + r.value.0 == flags + (ByteBits(b) + r.value.0); }
  }

  // --- The size ---

  function VarIntSize(n: int): nat {
    if n <= 127 then 1 else 1 + VarIntSize(n / 128 - 1)
  }

  lemma {:induction false} VarIntSizeIs(n: nat)
    ensures |V.VarInt(n)| == VarIntSize(n) && |V.VarHigh(n)| == VarIntSize(n)
  {
    if n > 127 { VarIntSizeIs(n / 128 - 1); }
  }

  function OutsSize(o: OutCodec, v: Vout): nat {
    if v == [] then 0 else (if v[0].Some? then |o.enc(v[0].value)| else 0) + OutsSize(o, v[1..])
  }

  lemma {:induction false} OutsSizeIs(o: OutCodec, v: Vout)
    ensures |Outs(o, v)| == OutsSize(o, v)
  {
    if v != [] { OutsSizeIs(o, v[1..]); }
  }

  lemma SignedSizeIs(n: int)
    ensures |V.SignedVarInt(n)| == VarIntSize(n)
  {
    if n >= 0 { VarIntSizeIs(n); }
  }

  /** The size computed in advance is the length of what is written. */
  lemma SizeIs(o: OutCodec, c: C.Coins)
    requires !C.IsPruned(c)
    ensures HeaderCode(c) >= 0
    ensures |Serialized(o, c)| ==
      VarIntSize(c.version) + VarIntSize(HeaderCode(c)) + |Mask(c.vout)| + OutsSize(o, c.vout) + VarIntSize(c.height)
        + 4
  {
    hide HeaderCode, Mask, Outs, OutsSize, VarIntSize, MaskCode, V.SignedVarInt;
    CodeFields(c);
    SignedSizeIs(c.version); VarIntSizeIs(HeaderCode(c)); SignedSizeIs(c.height);
    OutsSizeIs(o, c.vout);
  }
}
