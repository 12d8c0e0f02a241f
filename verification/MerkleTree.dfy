/** Partial Merkle trees as values (src/merkleblock.cpp): the tree over a block's transaction ids,
    the depth-first encoding of the part that covers the matched ones, and its decoding. */
module MerkleTree {
  import opened Powers

  type Hash = int
  /** The hash of a pair of hashes. */
  type Combine = (Hash, Hash) -> Hash
  const ZERO: Hash := 0

  const MAX_BLOCK_SIZE := 1000000

  // --- The shape of the tree over n leaves ---

  /** The first leaf under node pos of a level: pos shifted left by h. */
  function Start(h: nat, pos: nat): nat
    decreases h
  {
    if h == 0 then pos else Start(h - 1, 2 * pos)
  }

  lemma {:induction false} StartStep(h: nat, pos: nat)
    ensures Start(h, pos + 1) == Start(h, pos) + Pow(2, h) && Pow(2, h) >= 1
    decreases h
  {
    if h > 0 {
      StartStep(h - 1, 2 * pos);
      StartStep(h - 1, 2 * pos + 1);
      assert 2 * (pos + 1) == 2 * pos + 1 + 1;
    }
  }

  lemma {:induction false} StartIs(h: nat, pos: nat)
    ensures Start(h, pos) == pos * Pow(2, h)
    decreases pos
  {
    hide Pow;
    if pos == 0 {
      StartZero(h);
    } else {
      StartIs(h, pos - 1);
      StartStep(h, pos - 1);
      assert pos * Pow(2, h) == (pos - 1) * Pow(2, h) + Pow(2, h);
    }
  }

  lemma {:induction false} StartZero(h: nat)
    ensures Start(h, 0) == 0
  {
    if h > 0 { StartZero(h - 1); }
  }

  function End(n: nat, h: nat, pos: nat): nat {
    if Start(h, pos + 1) < n then Start(h, pos + 1) else n
  }

  /** Number of nodes of a level. */
  function Width(n: nat, h: nat): (w: nat) {
    PowPositive(2, h);
    DivModFacts(n + Pow(2, h) - 1, Pow(2, h));
    (n + Pow(2, h) - 1) / Pow(2, h)
  }

  /** A position is within a level exactly when it covers a leaf. */
  lemma InLevel(n: nat, h: nat, pos: nat)
    ensures pos < Width(n, h) <==> Start(h, pos) < n
  {
    var p := Pow(2, h);
    PowPositive(2, h);
    DivModFacts(n + p - 1, p);
    StartIs(h, pos);
    var w := Width(n, h);
    if pos < w {
      MulMono(pos + 1, w, p);
      assert (pos + 1) * p == pos * p + p;
    } else {
      MulMono(w, pos, p);
    }
  }

  lemma Children(h: nat, pos: nat)
    requires h > 0
    ensures Start(h - 1, 2 * pos) == Start(h, pos)
    ensures Start(h - 1, 2 * pos + 1) == Start(h, pos) + Pow(2, h - 1)
    ensures Start(h - 1, 2 * pos + 2) == Start(h, pos + 1)
    ensures Start(h, pos) < Start(h - 1, 2 * pos + 1) < Start(h, pos + 1)
  {
    StartStep(h - 1, 2 * pos);
    StartStep(h - 1, 2 * pos + 1);
    assert 2 * (pos + 1) == 2 * pos + 1 + 1;
  }

  /** The node has a right child of its own. */
  predicate HasRight(n: nat, h: nat, pos: nat)
    requires h > 0
  {
    2 * pos + 1 < Width(n, h - 1)
  }

  /** The leaves under a node are the left child's, then the right child's. */
  lemma Split(n: nat, h: nat, pos: nat)
    requires h > 0 && Start(h, pos) < n
    ensures Start(h - 1, 2 * pos) == Start(h, pos) < End(n, h, pos)
    ensures Start(h, pos) < End(n, h - 1, 2 * pos) <= End(n, h, pos)
    ensures HasRight(n, h, pos) ==> End(n, h - 1, 2 * pos) == Start(h - 1, 2 * pos + 1) < n
    ensures HasRight(n, h, pos) ==> End(n, h - 1, 2 * pos + 1) == End(n, h, pos)
    ensures !HasRight(n, h, pos) ==> End(n, h - 1, 2 * pos) == End(n, h, pos) == n
  {
    Children(h, pos);
    InLevel(n, h - 1, 2 * pos + 1);
  }

  lemma LeafRange(n: nat, pos: nat)
    requires Start(0, pos) < n
    ensures Start(0, pos) == pos && End(n, 0, pos) == pos + 1
  {
  }

  /** The height of the tree: the first level of at most one node. */
  ghost predicate IsHeight(n: nat, h: nat) {
    Width(n, h) <= 1 && forall k :: 0 <= k < h ==> Width(n, k) > 1
  }

  lemma RootCovers(n: nat, h: nat)
    requires n > 0 && Width(n, h) <= 1
    ensures Start(h, 0) == 0 && End(n, h, 0) == n
  {
    StartZero(h);
    InLevel(n, h, 1);
  }

  function CalcHash(f: Combine, txids: seq<Hash>, h: nat, pos: nat): Hash
    requires Start(h, pos) < |txids|
    decreases h
  {
    if h == 0 then
      LeafRange(|txids|, pos);
      txids[pos]
    else
      Split(|txids|, h, pos);
      var left := CalcHash(f, txids, h - 1, 2 * pos);
      var right := if HasRight(|txids|, h, pos) then CalcHash(f, txids, h - 1, 2 * pos + 1) else left;
      f(left, right)
  }

  // --- Building ---

  /** A leaf in [lo, hi) is matched. */
  predicate AnyMatch(m: seq<bool>, lo: nat, hi: nat)
    requires hi <= |m|
  {
    exists p :: lo <= p < hi && m[p]
  }

  predicate Parent(m: seq<bool>, h: nat, pos: nat)
    requires Start(h, pos) < |m|
  {
    AnyMatch(m, Start(h, pos), End(|m|, h, pos))
  }

  /** The flag bits stored for a node, depth first. */
  function Bits(m: seq<bool>, h: nat, pos: nat): (r: seq<bool>)
    requires Start(h, pos) < |m|
    ensures |r| > 0
    decreases h
  {
    if h == 0 || !Parent(m, h, pos) then [Parent(m, h, pos)]
    else
      Split(|m|, h, pos);
      [true] + Bits(m, h - 1, 2 * pos) + (if HasRight(|m|, h, pos) then Bits(m, h - 1, 2 * pos + 1) else [])
  }

  /** The hashes stored for a node, depth first. */
  function Hashes(f: Combine, txids: seq<Hash>, m: seq<bool>, h: nat, pos: nat): (r: seq<Hash>)
    requires |txids| == |m| && Start(h, pos) < |m|
    ensures |r| > 0
    decreases h
  {
    if h == 0 || !Parent(m, h, pos) then [CalcHash(f, txids, h, pos)]
    else
      Split(|m|, h, pos);
      Hashes(f, txids, m, h - 1, 2 * pos) +
      (if HasRight(|m|, h, pos) then Hashes(f, txids, m, h - 1, 2 * pos + 1) else [])
  }

  // --- Extracting ---

  /** What a traversal has consumed and found so far. */
  datatype Walk = Walk(bits: nat, hashes: nat, bad: bool, found: seq<Hash>, indices: seq<nat>)

  function Extract(f: Combine, n: nat, bits: seq<bool>, hashes: seq<Hash>, h: nat, pos: nat, w: Walk): (r: (Hash, Walk))
    ensures r.1.bits >= w.bits && r.1.hashes >= w.hashes && (w.bad ==> r.1.bad)
    decreases h
  {
    if w.bits >= |bits| then (ZERO, w.(bad := true))
    else
      var parent := bits[w.bits];
      var w1 := w.(bits := w.bits + 1);
      if h == 0 || !parent then
        if w1.hashes >= |hashes| then (ZERO, w1.(bad := true))
        else
          var hash := hashes[w1.hashes];
          var w2 := w1.(hashes := w1.hashes + 1);
          (hash, if h == 0 && parent then w2.(found := w2.found + [hash], indices := w2.indices + [pos]) else w2)
      else
        var (left, w2) := Extract(f, n, bits, hashes, h - 1, 2 * pos, w1);
        if HasRight(n, h, pos) then
          var (right, w3) := Extract(f, n, bits, hashes, h - 1, 2 * pos + 1, w2);
          (f(left, right), if right == left then w3.(bad := true) else w3)
        else (f(left, left), w2)
  }

  // --- What extraction should find ---

  /** The matched leaves of [lo, hi), in order. */
  function Matched(m: seq<bool>, lo: nat, hi: nat): seq<nat>
    requires lo <= hi <= |m|
    decreases hi - lo
  {
    if lo == hi then [] else (if m[lo] then [lo] else []) + Matched(m, lo + 1, hi)
  }

  lemma {:induction false} MatchedSplit(m: seq<bool>, lo: nat, mid: nat, hi: nat)
    requires lo <= mid <= hi <= |m|
    ensures Matched(m, lo, hi) == Matched(m, lo, mid) + Matched(m, mid, hi)
    decreases mid - lo
  {
    if lo < mid { MatchedSplit(m, lo + 1, mid, hi); }
  }

  lemma {:induction false} NoneMatched(m: seq<bool>, lo: nat, hi: nat)
    requires lo <= hi <= |m| && !AnyMatch(m, lo, hi)
    ensures Matched(m, lo, hi) == []
    decreases hi - lo
  {
    if lo < hi { NoneMatched(m, lo + 1, hi); }
  }

  function Pick(txids: seq<Hash>, at: seq<nat>): (r: seq<Hash>)
    requires forall k :: 0 <= k < |at| ==> at[k] < |txids|
    ensures |r| == |at| && forall k :: 0 <= k < |at| ==> r[k] == txids[at[k]]
  {
    seq(|at|, k requires 0 <= k < |at| => txids[at[k]])
  }

  /** Matched lists exactly the matched leaves, each once, in increasing order. */
  lemma {:induction false} MatchedIff(m: seq<bool>, lo: nat, hi: nat)
    requires lo <= hi <= |m|
    ensures forall p: nat :: p in Matched(m, lo, hi) <==> lo <= p < hi && m[p]
    ensures forall i, j :: 0 <= i < j < |Matched(m, lo, hi)| ==> Matched(m, lo, hi)[i] < Matched(m, lo, hi)[j]
    decreases hi - lo
  {
    if lo < hi {
      MatchedIff(m, lo + 1, hi);
      var rest := Matched(m, lo + 1, hi);
      assert forall j :: 0 <= j < |rest| ==> rest[j] in rest;
    }
  }

  lemma MatchedInRange(m: seq<bool>, lo: nat, hi: nat, k: nat)
    requires lo <= hi <= |m| && k < |Matched(m, lo, hi)|
    ensures lo <= Matched(m, lo, hi)[k] < hi && m[Matched(m, lo, hi)[k]]
  {
    MatchedIff(m, lo, hi);
    assert Matched(m, lo, hi)[k] in Matched(m, lo, hi);
  }

  // --- Round trip ---

  /** No visited node has two equal children. */
  ghost predicate Distinct(f: Combine, txids: seq<Hash>, m: seq<bool>, h: nat, pos: nat)
    requires |txids| == |m| && Start(h, pos) < |m|
    decreases h
  {
    h == 0 || !Parent(m, h, pos) ||
    (Split(|m|, h, pos);
     && Distinct(f, txids, m, h - 1, 2 * pos)
     && (HasRight(|m|, h, pos) ==>
           Distinct(f, txids, m, h - 1, 2 * pos + 1)
           && CalcHash(f, txids, h - 1, 2 * pos) != CalcHash(f, txids, h - 1, 2 * pos + 1)))
  }

  predicate HasAt<T(==)>(s: seq<T>, i: nat, t: seq<T>) {
    i + |t| <= |s| && s[i..i + |t|] == t
  }

  lemma HasAtParts<T>(s: seq<T>, i: nat, a: seq<T>, b: seq<T>)
    requires HasAt(s, i, a + b)
    ensures HasAt(s, i, a) && HasAt(s, i + |a|, b)
  {
    assert s[i..i + |a|] == (a + b)[..|a|] == a;
    assert s[i + |a|..i + |a| + |b|] == (a + b)[|a|..] == b;
  }

  lemma HasAtHead<T>(s: seq<T>, i: nat, x: T, rest: seq<T>)
    requires HasAt(s, i, [x] + rest)
    ensures i < |s| && s[i] == x && HasAt(s, i + 1, rest)
  {
    HasAtParts(s, i, [x], rest);
    assert s[i] == s[i..i + 1][0];
  }

  lemma PickAppend(txids: seq<Hash>, a: seq<nat>, b: seq<nat>)
    requires forall k :: 0 <= k < |a| ==> a[k] < |txids|
    requires forall k :: 0 <= k < |b| ==> b[k] < |txids|
    ensures Pick(txids, a + b) == Pick(txids, a) + Pick(txids, b)
  {
  }

  /** What a correct traversal of a node leaves behind. */
  ghost function Done(f: Combine, txids: seq<Hash>, m: seq<bool>, h: nat, pos: nat, w: Walk): Walk
    requires |txids| == |m| && Start(h, pos) < |m|
  {
    var at := Leaves(m, h, pos);
    Walk(w.bits + |Bits(m, h, pos)|, w.hashes + |Hashes(f, txids, m, h, pos)|,
         w.bad || !Distinct(f, txids, m, h, pos), w.found + Pick(txids, at), w.indices + at)
  }

  /** The matched leaves under a node. */
  ghost function Leaves(m: seq<bool>, h: nat, pos: nat): (at: seq<nat>)
    requires Start(h, pos) < |m|
    ensures forall k :: 0 <= k < |at| ==> at[k] < |m|
  {
    StartBeforeEnd(|m|, h, pos);
    var at := Matched(m, Start(h, pos), End(|m|, h, pos));
    assert forall k :: 0 <= k < |at| ==> at[k] < |m| by {
      forall k | 0 <= k < |at| ensures at[k] < |m| { MatchedInRange(m, Start(h, pos), End(|m|, h, pos), k); }
    }
    at
  }

  lemma StartBeforeEnd(n: nat, h: nat, pos: nat)
    requires Start(h, pos) < n
    ensures Start(h, pos) < End(n, h, pos) <= n
  {
    StartStep(h, pos);
  }

  lemma LeavesSplit(m: seq<bool>, h: nat, pos: nat)
    requires h > 0 && Start(h, pos) < |m|
    ensures Start(h - 1, 2 * pos) < |m|
    ensures HasRight(|m|, h, pos) ==> Start(h - 1, 2 * pos + 1) < |m|
    ensures HasRight(|m|, h, pos) ==> Leaves(m, h, pos) == Leaves(m, h - 1, 2 * pos) + Leaves(m, h - 1, 2 * pos + 1)
    ensures !HasRight(|m|, h, pos) ==> Leaves(m, h, pos) == Leaves(m, h - 1, 2 * pos)
  {
    hide Matched, Start, End, HasRight;
    Split(|m|, h, pos);
    if HasRight(|m|, h, pos) {
      StartBeforeEnd(|m|, h - 1, 2 * pos + 1);
      MatchedSplit(m, Start(h, pos), Start(h - 1, 2 * pos + 1), End(|m|, h, pos));
    }
  }

  lemma LeavesOfLeaf(m: seq<bool>, pos: nat)
    requires Start(0, pos) < |m|
    ensures pos < |m| && Parent(m, 0, pos) == m[pos]
    ensures Leaves(m, 0, pos) == if m[pos] then [pos] else []
  {
    LeafRange(|m|, pos);
    assert Matched(m, pos, pos + 1) == if m[pos] then [pos] else [];
  }

  /** Extracting what was built for a node gives its hash and its matched leaves, and flags exactly
      a pair of equal siblings. */
  lemma {:induction false} RoundTrip(f: Combine, txids: seq<Hash>, m: seq<bool>, h: nat, pos: nat,
                                     bits: seq<bool>, hashes: seq<Hash>, w: Walk)
    requires |txids| == |m| && Start(h, pos) < |m|
    requires HasAt(bits, w.bits, Bits(m, h, pos)) && HasAt(hashes, w.hashes, Hashes(f, txids, m, h, pos))
    ensures Extract(f, |m|, bits, hashes, h, pos, w) == (CalcHash(f, txids, h, pos), Done(f, txids, m, h, pos, w))
    decreases h
  {
    if h == 0 || !Parent(m, h, pos) {
      RoundTripStored(f, txids, m, h, pos, bits, hashes, w);
    } else {
      RoundTripInner(f, txids, m, h, pos, bits, hashes, w);
    }
  }

  lemma RoundTripStored(f: Combine, txids: seq<Hash>, m: seq<bool>, h: nat, pos: nat,
                        bits: seq<bool>, hashes: seq<Hash>, w: Walk)
    requires |txids| == |m| && Start(h, pos) < |m| && (h == 0 || !Parent(m, h, pos))
    requires HasAt(bits, w.bits, Bits(m, h, pos)) && HasAt(hashes, w.hashes, Hashes(f, txids, m, h, pos))
    ensures Extract(f, |m|, bits, hashes, h, pos, w) == (CalcHash(f, txids, h, pos), Done(f, txids, m, h, pos, w))
  {
    hide CalcHash, Matched, Start, End, Leaves;
    var parent, hash := Parent(m, h, pos), CalcHash(f, txids, h, pos);
    assert bits[w.bits..w.bits + 1] == [parent] && hashes[w.hashes..w.hashes + 1] == [hash];
    assert bits[w.bits] == bits[w.bits..w.bits + 1][0] && hashes[w.hashes] == hashes[w.hashes..w.hashes + 1][0];
    if h == 0 {
      LeavesOfLeaf(m, pos);
      assert hash == txids[pos] by { LeafHash(f, txids, pos); }
      assert m[pos] ==> Pick(txids, [pos]) == [hash];
    } else {
      LeavesNone(m, h, pos);
    }
    assert w.found + [] == w.found && w.indices + [] == w.indices;
  }

  lemma LeafHash(f: Combine, txids: seq<Hash>, pos: nat)
    requires Start(0, pos) < |txids|
    ensures pos < |txids| && CalcHash(f, txids, 0, pos) == txids[pos]
  {
    LeafRange(|txids|, pos);
  }

  lemma LeavesNone(m: seq<bool>, h: nat, pos: nat)
    requires Start(h, pos) < |m| && !Parent(m, h, pos)
    ensures Leaves(m, h, pos) == []
  {
    StartBeforeEnd(|m|, h, pos);
    NoneMatched(m, Start(h, pos), End(|m|, h, pos));
  }

  /** A visited inner node's traversal, from its children's. */
  lemma DoneInner(f: Combine, txids: seq<Hash>, m: seq<bool>, h: nat, pos: nat, w: Walk)
    requires |txids| == |m| && Start(h, pos) < |m| && h > 0 && Parent(m, h, pos)
    ensures Start(h - 1, 2 * pos) < |m|
    ensures HasRight(|m|, h, pos) ==> Start(h - 1, 2 * pos + 1) < |m|
    ensures var w2 := Done(f, txids, m, h - 1, 2 * pos, w.(bits := w.bits + 1));
      Done(f, txids, m, h, pos, w) ==
      if HasRight(|m|, h, pos) then
        var w3 := Done(f, txids, m, h - 1, 2 * pos + 1, w2);
        w3.(bad := w3.bad || CalcHash(f, txids, h - 1, 2 * pos) == CalcHash(f, txids, h - 1, 2 * pos + 1))
      else w2
  {
    hide Matched, Start, End, Leaves, HasRight, Parent, CalcHash;
    Split(|m|, h, pos);
    LeavesSplit(m, h, pos);
    var right := HasRight(|m|, h, pos);
    if right {
      var a, b := Leaves(m, h - 1, 2 * pos), Leaves(m, h - 1, 2 * pos + 1);
      PickAppend(txids, a, b);
      assert w.found + Pick(txids, a + b) == w.found + Pick(txids, a) + Pick(txids, b);
      assert w.indices + (a + b) == w.indices + a + b;
    }
  }

  /** The stored data of a visited inner node: its bit, then its children's data. */
  lemma StoredParts(f: Combine, txids: seq<Hash>, m: seq<bool>, h: nat, pos: nat) returns (rb: seq<bool>, rh: seq<Hash>)
    requires |txids| == |m| && Start(h, pos) < |m| && h > 0 && Parent(m, h, pos)
    ensures Start(h - 1, 2 * pos) < |m| && (HasRight(|m|, h, pos) ==> Start(h - 1, 2 * pos + 1) < |m|)
    ensures rb == if HasRight(|m|, h, pos) then Bits(m, h - 1, 2 * pos + 1) else []
    ensures rh == if HasRight(|m|, h, pos) then Hashes(f, txids, m, h - 1, 2 * pos + 1) else []
    ensures Bits(m, h, pos) == [true] + (Bits(m, h - 1, 2 * pos) + rb)
    ensures Hashes(f, txids, m, h, pos) == Hashes(f, txids, m, h - 1, 2 * pos) + rh
  {
    hide Start, End, HasRight, Parent, CalcHash, Bits, Hashes;
    Split(|m|, h, pos);
    rb := if HasRight(|m|, h, pos) then Bits(m, h - 1, 2 * pos + 1) else [];
    rh := if HasRight(|m|, h, pos) then Hashes(f, txids, m, h - 1, 2 * pos + 1) else [];
    BitsParts(m, h, pos, rb);
    HashesParts(f, txids, m, h, pos, rh);
  }

  lemma BitsParts(m: seq<bool>, h: nat, pos: nat, rb: seq<bool>)
    requires Start(h, pos) < |m| && h > 0 && Parent(m, h, pos) && Start(h - 1, 2 * pos) < |m|
    requires HasRight(|m|, h, pos) ==> Start(h - 1, 2 * pos + 1) < |m|
    requires rb == if HasRight(|m|, h, pos) then Bits(m, h - 1, 2 * pos + 1) else []
    ensures Bits(m, h, pos) == [true] + (Bits(m, h - 1, 2 * pos) + rb)
  {
    hide Start, HasRight, Parent;
  }

  lemma HashesParts(f: Combine, txids: seq<Hash>, m: seq<bool>, h: nat, pos: nat, rh: seq<Hash>)
    requires |txids| == |m| && Start(h, pos) < |m| && h > 0 && Parent(m, h, pos) && Start(h - 1, 2 * pos) < |m|
    requires HasRight(|m|, h, pos) ==> Start(h - 1, 2 * pos + 1) < |m|
    requires rh == if HasRight(|m|, h, pos) then Hashes(f, txids, m, h - 1, 2 * pos + 1) else []
    ensures Hashes(f, txids, m, h, pos) == Hashes(f, txids, m, h - 1, 2 * pos) + rh
  {
    hide Start, HasRight, Parent, CalcHash;
  }

  lemma ExtractInner(f: Combine, n: nat, bits: seq<bool>, hashes: seq<Hash>, h: nat, pos: nat, w: Walk)
    requires h > 0 && w.bits < |bits| && bits[w.bits]
    ensures var (left, w2) := Extract(f, n, bits, hashes, h - 1, 2 * pos, w.(bits := w.bits + 1));
      Extract(f, n, bits, hashes, h, pos, w) ==
      if HasRight(n, h, pos) then
        var (right, w3) := Extract(f, n, bits, hashes, h - 1, 2 * pos + 1, w2);
        (f(left, right), w3.(bad := w3.bad || right == left))
      else (f(left, left), w2)
  {
    hide HasRight;
  }

  lemma HashInner(f: Combine, txids: seq<Hash>, h: nat, pos: nat)
    requires h > 0 && Start(h, pos) < |txids| && Start(h - 1, 2 * pos) < |txids|
    requires HasRight(|txids|, h, pos) ==> Start(h - 1, 2 * pos + 1) < |txids|
    ensures CalcHash(f, txids, h, pos) ==
      f(CalcHash(f, txids, h - 1, 2 * pos),
        if HasRight(|txids|, h, pos) then CalcHash(f, txids, h - 1, 2 * pos + 1)
          else CalcHash(f, txids, h - 1, 2 * pos))
  {
    hide HasRight, Start;
  }

  lemma {:induction false} RoundTripInner(f: Combine, txids: seq<Hash>, m: seq<bool>, h: nat, pos: nat,
                                          bits: seq<bool>, hashes: seq<Hash>, w: Walk)
    requires |txids| == |m| && Start(h, pos) < |m| && h > 0 && Parent(m, h, pos)
    requires HasAt(bits, w.bits, Bits(m, h, pos)) && HasAt(hashes, w.hashes, Hashes(f, txids, m, h, pos))
    ensures Extract(f, |m|, bits, hashes, h, pos, w) == (CalcHash(f, txids, h, pos), Done(f, txids, m, h, pos, w))
    decreases h, 0
  {
    hide Start, HasRight, Parent, Bits, Hashes, HasAt, Extract, CalcHash, Done;
    var rb, rh := StoredParts(f, txids, m, h, pos);
    HasAtHead(bits, w.bits, true, Bits(m, h - 1, 2 * pos) + rb);
    HasAtParts(bits, w.bits + 1, Bits(m, h - 1, 2 * pos), rb);
    HasAtParts(hashes, w.hashes, Hashes(f, txids, m, h - 1, 2 * pos), rh);
    DoneInner(f, txids, m, h, pos, w);
    ExtractInner(f, |m|, bits, hashes, h, pos, w);
    HashInner(f, txids, h, pos);
    var w1 := w.(bits := w.bits + 1);
    RoundTrip(f, txids, m, h - 1, 2 * pos, bits, hashes, w1);
    if HasRight(|m|, h, pos) {
      DoneCounts(f, txids, m, h - 1, 2 * pos, w1);
      RoundTrip(f, txids, m, h - 1, 2 * pos + 1, bits, hashes, Done(f, txids, m, h - 1, 2 * pos, w1));
    }
  }

  lemma DoneCounts(f: Combine, txids: seq<Hash>, m: seq<bool>, h: nat, pos: nat, w: Walk)
    requires |txids| == |m| && Start(h, pos) < |m|
    ensures var r := Done(f, txids, m, h, pos, w);
      r.bits == w.bits + |Bits(m, h, pos)| && r.hashes == w.hashes + |Hashes(f, txids, m, h, pos)|
  {
  }
}
