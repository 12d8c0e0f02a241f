/** What partial Merkle trees promise: distinct ids never trip the sibling check, a matching root
    authenticates every extracted id, and the encoding stays small. */
module MerkleProofs {
  import opened Powers
  import opened MerkleTree

  ghost predicate Injective(f: Combine) {
    forall a, b, c, d :: f(a, b) == f(c, d) ==> a == c && b == d
  }

  ghost predicate AllDifferent(txids: seq<Hash>) {
    forall i, j :: 0 <= i < j < |txids| ==> txids[i] != txids[j]
  }

  /** Equal node hashes of one level have equal first leaves. */
  lemma {:induction false} SameHash(f: Combine, txids: seq<Hash>, h: nat, p: nat, q: nat)
    requires Injective(f) && Start(h, p) < |txids| && Start(h, q) < |txids|
    requires CalcHash(f, txids, h, p) == CalcHash(f, txids, h, q)
    ensures txids[Start(h, p)] == txids[Start(h, q)]
  {
    if h > 0 {
      Split(|txids|, h, p);
      Split(|txids|, h, q);
      SameHash(f, txids, h - 1, 2 * p, 2 * q);
    }
  }

  /** With different ids the check for equal siblings never fires. */
  lemma {:induction false} IdsDistinct(f: Combine, txids: seq<Hash>, m: seq<bool>, h: nat, pos: nat)
    requires Injective(f) && AllDifferent(txids) && |txids| == |m| && Start(h, pos) < |m|
    ensures Distinct(f, txids, m, h, pos)
    decreases h
  {
    hide CalcHash, HasRight, Start, End;
    if h > 0 && Parent(m, h, pos) {
      Split(|m|, h, pos);
      IdsDistinct(f, txids, m, h - 1, 2 * pos);
      if HasRight(|m|, h, pos) {
        IdsDistinct(f, txids, m, h - 1, 2 * pos + 1);
        Children(h, pos);
        if CalcHash(f, txids, h - 1, 2 * pos) == CalcHash(f, txids, h - 1, 2 * pos + 1) {
          SameHash(f, txids, h - 1, 2 * pos, 2 * pos + 1);
        }
      }
    }
  }

  /** Increasing positions of the leaves under a node. */
  ghost predicate Under(n: nat, h: nat, pos: nat, at: seq<nat>) {
    (forall k :: 0 <= k < |at| ==> Start(h, pos) <= at[k] < End(n, h, pos) <= n) &&
    (forall i, j :: 0 <= i < j < |at| ==> at[i] < at[j])
  }

  lemma UnderJoin(n: nat, h: nat, pos: nat, at: seq<nat>, bt: seq<nat>)
    requires h > 0 && Start(h, pos) < n && HasRight(n, h, pos)
    requires Under(n, h - 1, 2 * pos, at) && Under(n, h - 1, 2 * pos + 1, bt)
    ensures Under(n, h, pos, at + bt)
  {
    hide Start, End, HasRight;
    Split(n, h, pos);
    StartBeforeEnd(n, h, pos);
  }

  lemma UnderOnly(n: nat, h: nat, pos: nat, at: seq<nat>)
    requires h > 0 && Start(h, pos) < n && !HasRight(n, h, pos) && Under(n, h - 1, 2 * pos, at)
    ensures Under(n, h, pos, at)
  {
    hide Start, End, HasRight;
    Split(n, h, pos);
  }

  /** A node whose hash was taken from the data adds itself at most. */
  lemma SoundStored(f: Combine, txids: seq<Hash>, bits: seq<bool>, hashes: seq<Hash>, h: nat, pos: nat, w: Walk)
      returns (at: seq<nat>)
    requires Start(h, pos) < |txids| && w.bits < |bits| && (h == 0 || !bits[w.bits])
    requires !Extract(f, |txids|, bits, hashes, h, pos, w).1.bad
    requires Extract(f, |txids|, bits, hashes, h, pos, w).0 == CalcHash(f, txids, h, pos)
    ensures Under(|txids|, h, pos, at)
    ensures Extract(f, |txids|, bits, hashes, h, pos, w).1.indices == w.indices + at
    ensures Extract(f, |txids|, bits, hashes, h, pos, w).1.found == w.found + Pick(txids, at)
  {
    if h == 0 {
      LeafRange(|txids|, pos);
      LeafHash(f, txids, pos);
      at := if bits[w.bits] then [pos] else [];
    } else {
      at := [];
    }
  }

  /** If the extracted hash of a node is the true one, whatever data was given, then every id found
      under it is the id at the index reported with it. */
  lemma {:induction false} Sound(f: Combine, txids: seq<Hash>, bits: seq<bool>, hashes: seq<Hash>, h: nat, pos: nat,
                                 w: Walk)
      returns (at: seq<nat>)
    requires Injective(f) && Start(h, pos) < |txids|
    requires !Extract(f, |txids|, bits, hashes, h, pos, w).1.bad
    requires Extract(f, |txids|, bits, hashes, h, pos, w).0 == CalcHash(f, txids, h, pos)
    ensures Under(|txids|, h, pos, at)
    ensures Extract(f, |txids|, bits, hashes, h, pos, w).1.indices == w.indices + at
    ensures Extract(f, |txids|, bits, hashes, h, pos, w).1.found == w.found + Pick(txids, at)
    decreases h
  {
    hide Start, End, HasRight, Under, Pick;
    var n := |txids|;
    assert w.bits < |bits|;
    if h == 0 || !bits[w.bits] {
      at := SoundStored(f, txids, bits, hashes, h, pos, w);
    } else {
      Split(n, h, pos);
      var w1 := w.(bits := w.bits + 1);
      at := Sound(f, txids, bits, hashes, h - 1, 2 * pos, w1);
      if HasRight(n, h, pos) {
        var w2 := Extract(f, n, bits, hashes, h - 1, 2 * pos, w1).1;
        var bt := Sound(f, txids, bits, hashes, h - 1, 2 * pos + 1, w2);
        Joined(txids, h, pos, w.indices, w.found, at, bt);
        at := at + bt;
      } else {
        UnderOnly(n, h, pos, at);
      }
    }
  }

  lemma Joined(txids: seq<Hash>, h: nat, pos: nat, indices: seq<nat>, found: seq<Hash>, at: seq<nat>, bt: seq<nat>)
    requires h > 0 && Start(h, pos) < |txids| && HasRight(|txids|, h, pos)
    requires Under(|txids|, h - 1, 2 * pos, at) && Under(|txids|, h - 1, 2 * pos + 1, bt)
    ensures Under(|txids|, h, pos, at + bt)
    ensures indices + at + bt == indices + (at + bt)
    ensures found + Pick(txids, at) + Pick(txids, bt) == found + Pick(txids, at + bt)
  {
    UnderJoin(|txids|, h, pos, at, bt);
    PickAppend(txids, at, bt);
  }

  // --- Sizes ---

  /** Visited inner nodes with an only child. */
  ghost function Singles(m: seq<bool>, h: nat, pos: nat): nat
    requires Start(h, pos) < |m|
    decreases h
  {
    if h == 0 || !Parent(m, h, pos) then 0
    else
      Split(|m|, h, pos);
      Singles(m, h - 1, 2 * pos) + (if HasRight(|m|, h, pos) then Singles(m, h - 1, 2 * pos + 1) else 1)
  }

  /** Two bits for every hash but one, and one more for every only child. */
  lemma {:induction false} BitCount(f: Combine, txids: seq<Hash>, m: seq<bool>, h: nat, pos: nat)
    requires |txids| == |m| && Start(h, pos) < |m|
    ensures |Bits(m, h, pos)| == 2 * |Hashes(f, txids, m, h, pos)| - 1 + Singles(m, h, pos)
    decreases h
  {
    hide Start, End, HasRight, CalcHash, Parent;
    if h > 0 && Parent(m, h, pos) {
      Split(|m|, h, pos);
      BitCount(f, txids, m, h - 1, 2 * pos);
      if HasRight(|m|, h, pos) { BitCount(f, txids, m, h - 1, 2 * pos + 1); }
    }
  }

  /** Only children hang on the right edge: none in a complete subtree, at most one a level. */
  lemma {:induction false} SinglesAtMost(m: seq<bool>, h: nat, pos: nat)
    requires Start(h, pos) < |m|
    ensures Singles(m, h, pos) <= if Start(h, pos + 1) <= |m| then 0 else h
    decreases h
  {
    hide Start, Parent;
    if h > 0 && Parent(m, h, pos) {
      Split(|m|, h, pos);
      Children(h, pos);
      InLevel(|m|, h - 1, 2 * pos + 1);
      assert 2 * pos + 1 + 1 == 2 * pos + 2;
      SinglesAtMost(m, h - 1, 2 * pos);
      if HasRight(|m|, h, pos) { SinglesAtMost(m, h - 1, 2 * pos + 1); }
    }
  }

  /** At most one hash for every leaf. */
  lemma {:induction false} HashesPerLeaf(f: Combine, txids: seq<Hash>, m: seq<bool>, h: nat, pos: nat)
    requires |txids| == |m| && Start(h, pos) < |m|
    ensures |Hashes(f, txids, m, h, pos)| <= End(|m|, h, pos) - Start(h, pos)
    ensures (forall p :: 0 <= p < |m| ==> m[p]) ==> |Hashes(f, txids, m, h, pos)| == End(|m|, h, pos) - Start(h, pos)
    decreases h
  {
    hide Start, End, HasRight, CalcHash;
    StartBeforeEnd(|m|, h, pos);
    if h == 0 { LeafRange(|m|, pos); }
    if forall p :: 0 <= p < |m| ==> m[p] { assert m[Start(h, pos)]; }
    if h > 0 && Parent(m, h, pos) {
      Split(|m|, h, pos);
      HashesPerLeaf(f, txids, m, h - 1, 2 * pos);
      if HasRight(|m|, h, pos) { HashesPerLeaf(f, txids, m, h - 1, 2 * pos + 1); }
    }
  }

  lemma LeavesNonempty(m: seq<bool>, h: nat, pos: nat)
    requires Start(h, pos) < |m| && Parent(m, h, pos)
    ensures |Leaves(m, h, pos)| >= 1
  {
    StartBeforeEnd(|m|, h, pos);
    MatchedIff(m, Start(h, pos), End(|m|, h, pos));
    var p :| Start(h, pos) <= p < End(|m|, h, pos) && m[p];
    assert p in Leaves(m, h, pos);
  }

  /** At most one hash more than matched leaves times height. */
  lemma {:induction false} HashesPerMatch(f: Combine, txids: seq<Hash>, m: seq<bool>, h: nat, pos: nat)
    requires |txids| == |m| && Start(h, pos) < |m|
    ensures |Hashes(f, txids, m, h, pos)| <= 1 + |Leaves(m, h, pos)| * h
    decreases h
  {
    hide Start, End, HasRight, CalcHash, Leaves, Parent;
    MulNonneg(|Leaves(m, h, pos)|, h);
    if h > 0 && Parent(m, h, pos) {
      Split(|m|, h, pos);
      LeavesNonempty(m, h, pos);
      LeavesSplit(m, h, pos);
      var a := |Leaves(m, h - 1, 2 * pos)|;
      HashesPerMatch(f, txids, m, h - 1, 2 * pos);
      if HasRight(|m|, h, pos) {
        HashesPerMatch(f, txids, m, h - 1, 2 * pos + 1);
        Levels(a, |Leaves(m, h - 1, 2 * pos + 1)|, h);
      } else {
        Levels(a, 0, h);
      }
    }
  }

  lemma Levels(a: nat, b: nat, h: nat)
    requires a + b >= 1 && h >= 1
    ensures 2 + a * (h - 1) + b * (h - 1) <= 1 + (a + b) * h
  {
    assert (a + b) * h == a * (h - 1) + b * (h - 1) + (a + b);
  }

  // --- The documented bounds ---

  /** The documented bound of 2N - 1 flag bits for N hashes holds exactly when no visited node has
      an only child. */
  lemma DocumentedBitsIff(f: Combine, txids: seq<Hash>, m: seq<bool>, h: nat, pos: nat)
    requires |txids| == |m| && Start(h, pos) < |m|
    ensures |Bits(m, h, pos)| <= 2 * |Hashes(f, txids, m, h, pos)| - 1 <==> Singles(m, h, pos) == 0
    ensures |Bits(m, h, pos)| <= 2 * |Hashes(f, txids, m, h, pos)| - 1 + h
  {
    BitCount(f, txids, m, h, pos);
    SinglesAtMost(m, h, pos);
  }

  /** Length of a variable-length count. */
  function CountSize(x: nat): nat {
    if x < 253 then 1 else if x <= 0xffff then 3 else if x <= 0xffff_ffff then 5 else 9
  }

  /** Serialized size of a tree: four bytes, the hashes and the packed bits with their counts. */
  function EncodedSize(hashes: nat, bits: nat): nat {
    4 + CountSize(hashes) + 32 * hashes + CountSize((bits + 7) / 8) + (bits + 7) / 8
  }

  /** What the encoded size is bounded by for any tree extraction accepts. */
  lemma SizeBound(f: Combine, txids: seq<Hash>, m: seq<bool>, h: nat)
    requires 0 < |txids| == |m| <= MAX_BLOCK_SIZE / 60 && IsHeight(|m|, h)
    ensures Start(h, 0) < |m| && h <= 15
    ensures var n := |Hashes(f, txids, m, h, 0)|;
      n <= |m| && EncodedSize(n, |Bits(m, h, 0)|) <= 10 + 32 * n + (2 * n + h + 6) / 8
  {
    hide Hashes, Bits, Start, Width, EncodedSize, IsHeight;
    HeightAtMost(|m|, h);
    HashesPerLeaf(f, txids, m, h, 0);
    DocumentedBitsIff(f, txids, m, h, 0);
    SizeOf(|Hashes(f, txids, m, h, 0)|, |Bits(m, h, 0)|, h);
  }

  lemma HeightAtMost(n: nat, h: nat)
    requires 0 < n <= MAX_BLOCK_SIZE / 60 && IsHeight(n, h)
    ensures h <= 15 && Start(h, 0) == 0 && End(n, h, 0) == n
  {
    hide Start, Width;
    RootCovers(n, h);
    Pow15();
    StartZero(15); StartStep(15, 0);
    InLevel(n, 15, 1);
    assert Width(n, 15) <= 1;
  }

  lemma Pow15()
    ensures Pow(2, 15) == 0x8000
  {
    assert Pow(2, 5) == 32;
    PowAdd(2, 5, 5);
    PowAdd(2, 10, 5);
  }

  lemma SizeOf(n: nat, bits: nat, h: nat)
    requires n <= MAX_BLOCK_SIZE / 60 && bits <= 2 * n - 1 + h && h <= 15
    ensures EncodedSize(n, bits) <= 10 + 32 * n + (2 * n + h + 6) / 8
  {
  }

  lemma {:induction false} EdgeSingles(m: seq<bool>, h: nat, pos: nat)
    requires |m| > 0 && Start(h, pos) == |m| - 1 && forall p :: 0 <= p < |m| ==> m[p]
    ensures Singles(m, h, pos) == h
    decreases h
  {
    StartBeforeEnd(|m|, h, pos);
    assert m[Start(h, pos)];
    if h > 0 {
      Children(h, pos);
      InLevel(|m|, h - 1, 2 * pos + 1);
      EdgeSingles(m, h - 1, 2 * pos);
    }
  }

  /** With one transaction more than a power of two, all matched, every level has an only child. */
  lemma FullPlusOne(f: Combine, txids: seq<Hash>, m: seq<bool>, k: nat)
    requires |txids| == |m| == Pow(2, k) + 1 && forall p :: 0 <= p < |m| ==> m[p]
    ensures Start(k + 1, 0) < |m| && IsHeight(|m|, k + 1)
    ensures |Hashes(f, txids, m, k + 1, 0)| == |m|
    ensures |Bits(m, k + 1, 0)| == 2 * |m| - 1 + k
  {
    hide Width, Parent, Hashes, Bits;
    var h := k + 1;
    PowPositive(2, k);
    StartZero(h); StartZero(k);
    StartStep(k, 0); StartStep(h, 0);
    InLevel(|m|, h, 1);
    forall j | 0 <= j < h ensures Width(|m|, j) > 1 {
      StartZero(j); StartStep(j, 0); PowMono(2, j, k);
      InLevel(|m|, j, 1);
    }
    InLevel(|m|, k, 1);
    RootCovers(|m|, h);
    HashesPerLeaf(f, txids, m, h, 0);
    BitCount(f, txids, m, h, 0);
    SinglesAtMost(m, k, 0);
    EdgeSingles(m, k, 1);
    assert Singles(m, h, 0) == k by { assert m[0]; RootParent(m, h); assert HasRight(|m|, h, 0); }
  }

  lemma RootParent(m: seq<bool>, h: nat)
    requires Start(h, 0) < |m| && m[0]
    ensures Parent(m, h, 0)
  {
    StartZero(h);
    StartBeforeEnd(|m|, h, 0);
  }

  /** The documented size limit 10 + ceil(32.25 N) for N hashes holds exactly when the packed bits
      are few enough for a one-byte count, or the visited nodes with an only child are few enough
      for the last byte to hold their bits. */
  lemma DocumentedSizeIff(f: Combine, txids: seq<Hash>, m: seq<bool>, h: nat)
    requires 0 < |txids| == |m| <= MAX_BLOCK_SIZE / 60 && IsHeight(|m|, h)
    ensures Start(h, 0) < |m|
    ensures var n, s := |Hashes(f, txids, m, h, 0)|, Singles(m, h, 0);
      EncodedSize(n, |Bits(m, h, 0)|) <= 10 + 32 * n + (n + 3) / 4 <==>
      (2 * n + 6 + s) / 8 < 253 || s <= 8 * ((n + 3) / 4) - 2 * n + 1
  {
    hide Hashes, Bits, Start, Width, EncodedSize, IsHeight, Singles;
    HeightAtMost(|m|, h);
    HashesPerLeaf(f, txids, m, h, 0);
    BitCount(f, txids, m, h, 0);
    SinglesAtMost(m, h, 0);
    SizeIff(|Hashes(f, txids, m, h, 0)|, Singles(m, h, 0));
  }

  lemma SizeIff(n: nat, s: nat)
    requires 0 < n <= MAX_BLOCK_SIZE / 60 && s <= 15
    ensures EncodedSize(n, 2 * n - 1 + s) <= 10 + 32 * n + (n + 3) / 4 <==>
      (2 * n + 6 + s) / 8 < 253 || s <= 8 * ((n + 3) / 4) - 2 * n + 1
  {
  }

  /** The documented size limit 10 + ceil(32.25 N) is missed by one byte for 4097 transactions. */
  lemma DocumentedSizeFails(f: Combine, txids: seq<Hash>, m: seq<bool>)
    requires |txids| == |m| == 4097 && forall p :: 0 <= p < |m| ==> m[p]
    ensures Start(13, 0) < |m| && IsHeight(|m|, 13) && |Hashes(f, txids, m, 13, 0)| == 4097
    ensures EncodedSize(4097, |Bits(m, 13, 0)|) == 10 + 32 * 4097 + (4097 + 3) / 4 + 1
  {
    hide Start, Hashes, Bits, IsHeight;
    assert Pow(2, 6) == 64;
    PowAdd(2, 6, 6);
    FullPlusOne(f, txids, m, 12);
  }
}
