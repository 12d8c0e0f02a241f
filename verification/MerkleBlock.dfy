/** CPartialMerkleTree in its own form: an object filled by a recursive traversal, its flag bits
    packed into bytes, and matches extracted from it. */
module MerkleBlock {
  import opened Powers
  import opened MerkleTree
  import opened MerkleProofs
  import BitPack

  // --- Extraction as a whole ---

  /** The checks before the traversal. */
  predicate Plausible(n: nat, bits: seq<bool>, hashes: seq<Hash>) {
    0 < n <= MAX_BLOCK_SIZE / 60 && |hashes| <= n && |bits| >= |hashes|
  }

  /** Every bit, but for the padding of the last byte, and every hash was consumed, and nothing was bad. */
  predicate AllUsed(bits: seq<bool>, hashes: seq<Hash>, w: Walk) {
    !w.bad && (w.bits + 7) / 8 == (|bits| + 7) / 8 && w.hashes == |hashes|
  }

  /** Extraction of a tree of height h succeeds with root r, leaving the walk w. */
  ghost predicate Extracts(f: Combine, n: nat, bits: seq<bool>, hashes: seq<Hash>, h: nat, bad: bool, indices: seq<nat>,
                           r: Hash, w: Walk)
  {
    Plausible(n, bits, hashes) && (r, w) == Extract(f, n, bits, hashes, h, 0, Walk(0, 0, bad, [], indices))
      && AllUsed(bits, hashes, w)
  }

  /** Built, padded to whole bytes and extracted: the true root with exactly the matched ids and
      their positions comes back if and only if the block is not too large and no visited siblings
      are equal. */
  lemma ExtractsBuilt(f: Combine, txids: seq<Hash>, m: seq<bool>, h: nat, bits: seq<bool>, indices: seq<nat>)
    requires 0 < |txids| == |m| && IsHeight(|m|, h)
    requires Start(h, 0) < |m| && Bits(m, h, 0) <= bits && (|bits| + 7) / 8 == (|Bits(m, h, 0)| + 7) / 8
    ensures forall r, w :: Extracts(f, |m|, bits, Hashes(f, txids, m, h, 0), h, false, indices, r, w) ==>
      && r == CalcHash(f, txids, h, 0) && w.indices == indices + Matched(m, 0, |m|)
      && (forall k :: 0 <= k < |Matched(m, 0, |m|)| ==> Matched(m, 0, |m|)[k] < |txids|)
      && w.found == Pick(txids, Matched(m, 0, |m|))
    ensures (exists r, w :: Extracts(f, |m|, bits, Hashes(f, txids, m, h, 0), h, false, indices, r, w)) <==>
      |m| <= MAX_BLOCK_SIZE / 60 && Distinct(f, txids, m, h, 0)
  {
    hide Start, Bits, Hashes, Matched, Extract, CalcHash, Distinct, Width, Pick;
    var hashes, w0 := Hashes(f, txids, m, h, 0), Walk(0, 0, false, [], indices);
    RootCovers(|m|, h);
    assert HasAt(bits, 0, Bits(m, h, 0));
    assert HasAt(hashes, 0, hashes);
    RoundTrip(f, txids, m, h, 0, bits, hashes, w0);
    HashesPerLeaf(f, txids, m, h, 0);
    BitCount(f, txids, m, h, 0);
    var r, w := CalcHash(f, txids, h, 0), Done(f, txids, m, h, 0, w0);
    assert Leaves(m, h, 0) == Matched(m, 0, |m|);
    assert w.found == Pick(txids, Leaves(m, h, 0));
    assert Extracts(f, |m|, bits, hashes, h, false, indices, r, w) <==>
      |m| <= MAX_BLOCK_SIZE / 60 && Distinct(f, txids, m, h, 0);
  }

  /** The same through the stored form: flag bits packed into bytes and unpacked again. */
  lemma ExtractsStored(f: Combine, txids: seq<Hash>, m: seq<bool>, h: nat, back: seq<bool>, indices: seq<nat>)
    requires 0 < |txids| == |m| && IsHeight(|m|, h) && Start(h, 0) < |m|
    requires |back| == 8 * |BitPack.Packed(Bits(m, h, 0))|
    requires forall p :: 0 <= p < |back| ==> back[p] == BitPack.TestBit(BitPack.Packed(Bits(m, h, 0))[p / 8], p % 8)
    ensures (exists r, w :: Extracts(f, |m|, back, Hashes(f, txids, m, h, 0), h, false, indices, r, w)) <==>
      |m| <= MAX_BLOCK_SIZE / 60 && Distinct(f, txids, m, h, 0)
    ensures forall r, w :: Extracts(f, |m|, back, Hashes(f, txids, m, h, 0), h, false, indices, r, w) ==>
      && r == CalcHash(f, txids, h, 0) && w.indices == indices + Matched(m, 0, |m|)
      && (forall k :: 0 <= k < |Matched(m, 0, |m|)| ==> Matched(m, 0, |m|)[k] < |txids|)
      && w.found == Pick(txids, Matched(m, 0, |m|))
  {
    hide Start, Bits, Hashes, Matched, Extracts, CalcHash, Distinct, IsHeight, Pick;
    BitPack.UnpackPacked(Bits(m, h, 0), back);
    ExtractsBuilt(f, txids, m, h, back, indices);
  }

  /** Whatever data was received: if extraction gives the block's true root, then every id it found
      is the block's id at the reported position, positions strictly increasing. */
  lemma ExtractsSound(f: Combine, txids: seq<Hash>, bits: seq<bool>, hashes: seq<Hash>, h: nat, bad: bool,
                      indices: seq<nat>, r: Hash, w: Walk)
      returns (at: seq<nat>)
    requires Injective(f) && 0 < |txids| && IsHeight(|txids|, h)
    requires Start(h, 0) < |txids| && r == CalcHash(f, txids, h, 0)
    requires Extracts(f, |txids|, bits, hashes, h, bad, indices, r, w)
    ensures w.indices == indices + at
    ensures forall k :: 0 <= k < |at| ==> at[k] < |txids|
    ensures w.found == Pick(txids, at)
    ensures forall i, j :: 0 <= i < j < |at| ==> at[i] < at[j]
  {
    hide Start, Extract, CalcHash, Width;
    at := Sound(f, txids, bits, hashes, h, 0, Walk(0, 0, bad, [], indices));
    assert [] + Pick(txids, at) == Pick(txids, at);
  }

  // --- The object ---

  lemma {:induction false} PowExceeds(h: nat)
    ensures h < Pow(2, h)
  {
    if h > 0 { PowExceeds(h - 1); }
  }

  method TreeHeight(n: nat) returns (h: nat)
    ensures IsHeight(n, h)
  {
    h := 0;
    while Width(n, h) > 1
      invariant forall k :: 0 <= k < h ==> Width(n, k) > 1
      decreases n - h
    {
      InLevel(n, h, 1);
      StartZero(h); StartStep(h, 0); PowExceeds(h);
      h := h + 1;
    }
  }

  /** Whether a node covers a matched leaf, by visiting them. */
  method ParentOfMatch(m: seq<bool>, h: nat, pos: nat) returns (r: bool)
    requires Start(h, pos) < |m|
    ensures r <==> Parent(m, h, pos)
  {
    r := false;
    var p := Start(h, pos);
    StartBeforeEnd(|m|, h, pos);
    while p < Start(h, pos + 1) && p < |m|
      invariant Start(h, pos) <= p <= End(|m|, h, pos)
      invariant r <==> AnyMatch(m, Start(h, pos), p)
    {
      r := r || m[p];
      p := p + 1;
    }
  }

  lemma StoredHere(f: Combine, txids: seq<Hash>, m: seq<bool>, h: nat, pos: nat)
    requires |txids| == |m| && Start(h, pos) < |m| && (h == 0 || !Parent(m, h, pos))
    ensures Bits(m, h, pos) == [Parent(m, h, pos)]
    ensures Hashes(f, txids, m, h, pos) == [CalcHash(f, txids, h, pos)]
  {
  }

  class PartialMerkleTree {
    const f: Combine
    var nTransactions: nat
    var vBits: seq<bool>
    var vHash: seq<Hash>
    var fBad: bool

    method TraverseAndBuild(h: nat, pos: nat, txids: seq<Hash>, m: seq<bool>)
      requires |txids| == |m| == nTransactions && Start(h, pos) < |m|
      modifies this`vBits, this`vHash
      ensures vBits == old(vBits) + Bits(m, h, pos)
      ensures vHash == old(vHash) + Hashes(f, txids, m, h, pos)
      decreases h
    {
      hide Start, CalcHash, HasRight, Parent, Bits, Hashes;
      var parent := ParentOfMatch(m, h, pos);
      vBits := vBits + [parent];
      if h == 0 || !parent {
        StoredHere(f, txids, m, h, pos);
        vHash := vHash + [CalcHash(f, txids, h, pos)];
      } else {
        ghost var rb, rh := StoredParts(f, txids, m, h, pos);
        assert old(vBits) + ([true] + (Bits(m, h - 1, 2 * pos) + rb)) == vBits + Bits(m, h - 1, 2 * pos) + rb;
        assert old(vHash) + (Hashes(f, txids, m, h - 1, 2 * pos) + rh) ==
          vHash + Hashes(f, txids, m, h - 1, 2 * pos) + rh;
        TraverseAndBuild(h - 1, pos * 2, txids, m);
        if HasRight(nTransactions, h, pos) {
          TraverseAndBuild(h - 1, pos * 2 + 1, txids, m);
        }
      }
    }

    constructor Empty(f: Combine)
      ensures nTransactions == 0 && vBits == [] && vHash == [] && fBad
    {
      this.f := f;
      nTransactions, vBits, vHash, fBad := 0, [], [], true;
    }

    constructor (f: Combine, txids: seq<Hash>, m: seq<bool>)
      requires 0 < |txids| == |m|
      ensures this.f == f && nTransactions == |txids| && !fBad
      ensures exists h: nat ::
        IsHeight(|m|, h) && Start(h, 0) < |m| && vBits == Bits(m, h, 0) && vHash == Hashes(f, txids, m, h, 0)
    {
      this.f := f;
      nTransactions, vBits, vHash, fBad := |txids|, [], [], false;
      new;
      hide Start, Bits, Hashes, IsHeight;
      var h := TreeHeight(nTransactions);
      StartZero(h);
      TraverseAndBuild(h, 0, txids, m);
      assert vBits == Bits(m, h, 0) && vHash == Hashes(f, txids, m, h, 0);
    }

    /** The state of a traversal as a value. */
    function State(bits: nat, hashes: nat, found: seq<Hash>, indices: seq<nat>): Walk
      reads this
    {
      Walk(bits, hashes, fBad, found, indices)
    }

    method TraverseAndExtract(h: nat, pos: nat, bits0: nat, hashes0: nat, found0: seq<Hash>, indices0: seq<nat>)
      returns (r: Hash, bits: nat, hashes: nat, found: seq<Hash>, indices: seq<nat>)
      modifies this`fBad
      ensures (r, State(bits, hashes, found, indices)) ==
        old(Extract(f, nTransactions, vBits, vHash, h, pos, State(bits0, hashes0, found0, indices0)))
      decreases h
    {
      hide HasRight;
      bits, hashes, found, indices := bits0, hashes0, found0, indices0;
      if bits >= |vBits| {
        fBad := true;
        r := ZERO;
        return;
      }
      var parent := vBits[bits];
      bits := bits + 1;
      if h == 0 || !parent {
        if hashes >= |vHash| {
          fBad := true;
          r := ZERO;
          return;
        }
        r := vHash[hashes];
        hashes := hashes + 1;
        if h == 0 && parent {
          found := found + [r];
          indices := indices + [pos];
        }
      } else {
        var left, right;
        left, bits, hashes, found, indices := TraverseAndExtract(h - 1, 2 * pos, bits, hashes, found, indices);
        if HasRight(nTransactions, h, pos) {
          right, bits, hashes, found, indices := TraverseAndExtract(h - 1, 2 * pos + 1, bits, hashes, found, indices);
          if right == left {
            fBad := true;
          }
        } else {
          right := left;
        }
        r := f(left, right);
      }
    }

    /** The root and the matches when every check passes, and the zero hash otherwise. */
    method ExtractMatches(indices0: seq<nat>) returns (r: Hash, found: seq<Hash>, indices: seq<nat>, ghost h: nat)
      modifies this`fBad
      ensures IsHeight(nTransactions, h)
      ensures
        var (root, w) := Extract(f, nTransactions, vBits, vHash, h, 0, Walk(0, 0, old(fBad), [], indices0));
        if Extracts(f, nTransactions, vBits, vHash, h, old(fBad), indices0, root, w) then
          r == root && found == w.found && indices == w.indices
        else r == ZERO
    {
      hide IsHeight, Extract;
      found, indices := [], indices0;
      var height := TreeHeight(nTransactions);
      h := height;
      if nTransactions == 0 {
        return ZERO, found, indices, h;
      }
      if nTransactions > MAX_BLOCK_SIZE / 60 {
        return ZERO, found, indices, h;
      }
      if |vHash| > nTransactions {
        return ZERO, found, indices, h;
      }
      if |vBits| < |vHash| {
        return ZERO, found, indices, h;
      }
      var bits, hashes := 0, 0;
      r, bits, hashes, found, indices := TraverseAndExtract(height, 0, bits, hashes, found, indices);
      if fBad {
        r := ZERO;
      } else if (bits + 7) / 8 != (|vBits| + 7) / 8 {
        r := ZERO;
      } else if hashes != |vHash| {
        r := ZERO;
      }
    }
  }
}
