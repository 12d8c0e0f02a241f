/** Flag bits packed eight to a byte, least significant first. */
module BitPack {
  import opened Powers

  /** Bit p, where everything past the end reads as clear. */
  function At(bits: seq<bool>, p: nat): bool { p < |bits| && bits[p] }

  /** The value of the first j bits of byte k. */
  function Low(bits: seq<bool>, k: nat, j: nat): (r: nat)
    ensures r < Pow(2, j)
  {
    if j == 0 then 0
    else
      PowPositive(2, j - 1);
      Low(bits, k, j - 1) + (if At(bits, 8 * k + j - 1) then Pow(2, j - 1) else 0)
  }

  predicate TestBit(b: nat, j: nat) {
    PowPositive(2, j);
    b / Pow(2, j) % 2 == 1
  }

  lemma {:induction false} LowBit(bits: seq<bool>, k: nat, i: nat, j: nat)
    requires j < i
    ensures TestBit(Low(bits, k, i), j) == At(bits, 8 * k + j)
    decreases i
  {
    var p := Pow(2, j);
    PowPositive(2, j);
    var b := if At(bits, 8 * k + i - 1) then 1 else 0;
    if j == i - 1 {
      DivModUnique(Low(bits, k, i), p, b, Low(bits, k, i - 1));
    } else {
      LowBit(bits, k, i - 1, j);
      PowAdd(2, j + 1, i - 2 - j);
      Higher(Low(bits, k, i - 1), p, Pow(2, i - 2 - j) * b);
      assert Pow(2, i - 1) * b == 2 * p * (Pow(2, i - 2 - j) * b);
    }
  }

  /** Adding a multiple of the next power changes no lower bit. */
  lemma Higher(x: nat, p: int, c: int)
    requires p >= 1
    ensures (x + 2 * p * c) / p % 2 == x / p % 2
  {
    DivModFacts(x, p);
    assert (x / p + 2 * c) * p == x / p * p + 2 * p * c;
    DivModUnique(x + 2 * p * c, p, x / p + 2 * c, x % p);
  }

  function ByteCount(n: nat): nat { (n + 7) / 8 }

  /** The packed bytes. */
  function Packed(bits: seq<bool>): (r: seq<nat>)
    ensures |r| == ByteCount(|bits|)
  {
    seq(ByteCount(|bits|), k requires 0 <= k => Low(bits, k, 8))
  }

  lemma FilledStep(p: nat)
    ensures Filled(p, p / 8) == p % 8 && Filled(p + 1, p / 8) == p % 8 + 1
    ensures forall i: nat :: i != p / 8 ==> Filled(p + 1, i) == Filled(p, i)
  {
  }

  lemma OrBit(bits: seq<bool>, k: nat, j: nat)
    ensures Pow(2, j) >= 0
    ensures Or(Low(bits, k, j), if At(bits, 8 * k + j) then Pow(2, j) else 0) == Low(bits, k, j + 1)
  {
    PowPositive(2, j);
    OrDisjoint(Pow(2, j), Low(bits, k, j), j, 1);
  }

  method Pack(bits: seq<bool>) returns (bytes: array<nat>)
    ensures fresh(bytes) && bytes[..] == Packed(bits)
  {
    hide Low, Or, Filled;
    bytes := new nat[ByteCount(|bits|)](_ => 0);
    forall k | 0 <= k < bytes.Length ensures bytes[k] == Low(bits, k, Filled(0, k)) { NoneFilled(bits, k); }
    var p := 0;
    while p < |bits|
      invariant 0 <= p <= |bits|
      invariant forall k :: 0 <= k < bytes.Length ==> bytes[k] == Low(bits, k, Filled(p, k))
    {
      var k, j := p / 8, p % 8;
      FilledStep(p);
      OrBit(bits, k, j);
      bytes[k] := Or(bytes[k], if bits[p] then Pow(2, j) else 0);
      p := p + 1;
    }
    forall k | 0 <= k < bytes.Length ensures bytes[k] == Low(bits, k, 8) {
      AllFilled(bits, k);
    }
  }

  /** How many bits of byte k have been written once p are. */
  function Filled(p: nat, k: nat): nat {
    if p <= 8 * k then 0 else if p >= 8 * k + 8 then 8 else p - 8 * k
  }

  lemma NoneFilled(bits: seq<bool>, k: nat)
    ensures Low(bits, k, Filled(0, k)) == 0
  {
  }

  lemma AllFilled(bits: seq<bool>, k: nat)
    ensures Low(bits, k, Filled(|bits|, k)) == Low(bits, k, 8)
  {
    PastEnd(bits, k, Filled(|bits|, k));
  }

  lemma {:induction false} PastEnd(bits: seq<bool>, k: nat, j: nat)
    requires j <= 8 && (8 * k + j >= |bits| || j == 8)
    ensures Low(bits, k, 8) == Low(bits, k, j)
    decreases 8 - j
  {
    if j < 8 { PastEnd(bits, k, j + 1); }
  }

  method Unpack(bytes: seq<nat>) returns (bits: seq<bool>)
    ensures |bits| == 8 * |bytes|
    ensures forall p :: 0 <= p < |bits| ==> bits[p] == TestBit(bytes[p / 8], p % 8)
  {
    var out := new bool[8 * |bytes|];
    var p := 0;
    while p < out.Length
      invariant 0 <= p <= out.Length
      invariant forall q :: 0 <= q < p ==> out[q] == TestBit(bytes[q / 8], q % 8)
    {
      out[p] := TestBit(bytes[p / 8], p % 8);
      p := p + 1;
    }
    bits := out[..];
  }

  /** Unpacking the packed bits gives them back, padded with clear bits to whole bytes. */
  lemma UnpackPacked(bits: seq<bool>, back: seq<bool>)
    requires |back| == 8 * |Packed(bits)|
    requires forall p :: 0 <= p < |back| ==> back[p] == TestBit(Packed(bits)[p / 8], p % 8)
    ensures bits <= back && |back| < |bits| + 8 && ByteCount(|back|) == ByteCount(|bits|)
    ensures forall p :: |bits| <= p < |back| ==> !back[p]
  {
    forall p | 0 <= p < |back| ensures back[p] == At(bits, p) {
      LowBit(bits, p / 8, 8, p % 8);
    }
  }
}
