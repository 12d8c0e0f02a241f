/** The block index with its skip pointers, and the active chain over it (src/chain.cpp). */
module ChainIndex {
  import opened Powers
  import opened Limbs

  /** The links and header fields of an index entry never change once it exists; pskip is set later. */
  class BlockIndex {
    const pprev: BlockIndex?
    const height: nat
    const time: int
    const bits: Limb
    const stake: bool
    var pskip: BlockIndex?

    constructor (prev: BlockIndex?, time: int, bits: Limb, stake: bool)
      ensures pprev == prev && height == (if prev == null then 0 else prev.height + 1)
      ensures this.time == time && this.bits == bits && this.stake == stake && pskip == null
    {
      pprev := prev;
      height := if prev == null then 0 else prev.height + 1;
      this.time := time;
      this.bits := bits;
      this.stake := stake;
      pskip := null;
    }
  }

  ghost predicate Linked(b: BlockIndex)
    decreases b.height
  {
    if b.pprev == null then b.height == 0 else b.height == b.pprev.height + 1 && Linked(b.pprev)
  }

  /** The ancestor at a height, by following pprev. */
  ghost function Ancestor(b: BlockIndex, h: nat): (r: BlockIndex)
    requires Linked(b) && h <= b.height
    ensures r.height == h && Linked(r)
    decreases b.height
  {
    if h == b.height then b else Ancestor(b.pprev, h)
  }

  lemma {:induction false} AncestorAncestor(b: BlockIndex, h: nat, k: nat)
    requires Linked(b) && k <= h <= b.height
    ensures Ancestor(Ancestor(b, h), k) == Ancestor(b, k)
    decreases b.height
  {
    if h < b.height { AncestorAncestor(b.pprev, h, k); }
  }

  lemma AncestorParent(b: BlockIndex, h: nat)
    requires Linked(b) && h <= b.height
    ensures Ancestor(b, b.height) == b
    ensures h > 0 ==> Ancestor(b, h).pprev != null && Ancestor(b, h).pprev == Ancestor(b, h - 1)
  {
    if h > 0 { AncestorAncestor(b, h, h - 1); }
  }

  // Bitwise and
  function And(x: nat, y: nat): nat {
    if x == 0 || y == 0 then 0
    else 2 * And(x / 2, y / 2) + (if x % 2 == 1 && y % 2 == 1 then 1 else 0)
  }

  lemma {:induction false} AndAtMost(x: nat, y: nat)
    ensures And(x, y) <= y
  {
    if x > 0 && y > 0 { AndAtMost(x / 2, y / 2); }
  }

  /** n & (n - 1), which in two's complement is 0 for n == 0. */
  function InvertLowestOne(n: nat): (r: nat)
    ensures r <= n && (n > 0 ==> r < n)
  {
    if n == 0 then 0 else
      AndAtMost(n, n - 1);
      And(n, n - 1)
  }

  /** It clears exactly the lowest one bit: the largest power of two dividing n. */
  lemma {:induction false} LowestOneCleared(n: nat) returns (k: nat, odd: nat)
    requires n > 0
    ensures n == (2 * odd + 1) * Pow(2, k)
    ensures InvertLowestOne(n) == 2 * odd * Pow(2, k)
  {
    if n % 2 == 1 {
      k, odd := 0, n / 2;
      AndSelf(n / 2);
    } else {
      k, odd := LowestOneCleared(n / 2);
      assert (n - 1) / 2 == n / 2 - 1;
      DoubledPower(odd, Pow(2, k));
      k := k + 1;
    }
  }

  lemma DoubledPower(odd: int, p: int)
    ensures (2 * odd + 1) * (2 * p) == 2 * ((2 * odd + 1) * p)
    ensures 2 * odd * (2 * p) == 2 * (2 * odd * p)
  {
  }

  lemma {:induction false} AndSelf(n: nat)
    ensures And(n, n) == n
  {
    if n > 0 { AndSelf(n / 2); }
  }

  function GetSkipHeight(height: nat): (r: nat)
    ensures r <= height && (height > 0 ==> r < height)
  {
    if height < 2 then 0
    else if height % 2 == 1 then InvertLowestOne(InvertLowestOne(height - 1)) + 1
    else InvertLowestOne(height)
  }

  ghost predicate SkipOk(b: BlockIndex)
    requires Linked(b)
    reads b
  {
    b.pskip != null ==>
      b.height > 0 && b.pskip == Ancestor(b, GetSkipHeight(b.height))
  }

  /** The index of all known blocks: with a block it holds its predecessor. */
  ghost predicate Closed(index: set<BlockIndex>) {
    forall b :: b in index ==> Linked(b) && (b.pprev != null ==> b.pprev in index)
  }

  lemma {:induction false} AncestorIn(b: BlockIndex, h: nat, index: set<BlockIndex>)
    requires b in index && Closed(index) && h <= b.height
    ensures Ancestor(b, h) in index
    decreases b.height
  {
    if h < b.height { AncestorIn(b.pprev, h, index); }
  }

  /** Every skip pointer is absent or leads where it should. */
  ghost predicate SkipsOk(index: set<BlockIndex>)
    requires Closed(index)
    reads index
  {
    forall b :: b in index ==> SkipOk(b)
  }

  /** Every block but the first has its skip pointer. */
  ghost predicate SkipsSet(index: set<BlockIndex>)
    reads index
  {
    forall b :: b in index && b.height > 0 ==> b.pskip != null
  }

  /** The height one turn of the skip-list walk leads to, where every block has its skip pointer. */
  function Turn(h: nat, height: nat): (r: nat)
    requires h > height
    ensures height <= r < h
  {
    var skip, skipPrev := GetSkipHeight(h), GetSkipHeight(h - 1);
    if skip == height || (skip > height && !(skipPrev < skip - 2 && skipPrev >= height)) then skip else h - 1
  }

  /** The number of turns of the walk. */
  function Turns(h: nat, height: nat): nat
    decreases h
  {
    if h <= height then 0 else 1 + Turns(Turn(h, height), height)
  }

  lemma TurnsStep(h: nat, height: int)
    requires height >= 0
    ensures h <= height ==> Turns(h, height) == 0
    ensures h > height ==> Turns(h, height) == 1 + Turns(Turn(h, height), height)
  {
  }

  /** The skip-list walk finds exactly the block the pprev walk would. */
  method GetAncestor(b: BlockIndex, height: int, ghost index: set<BlockIndex>)
    returns (r: BlockIndex?, ghost turns: nat)
    requires b in index && Closed(index) && SkipsOk(index)
    ensures height > b.height || height < 0 ==> r == null && turns == 0
    ensures 0 <= height <= b.height ==> r == Ancestor(b, height)
    ensures SkipsSet(index) && 0 <= height ==> turns == Turns(b.height, height)
  {
    hide Turns, GetSkipHeight, Ancestor, Linked;
    turns := 0;
    if height >= 0 { TurnsStep(b.height, height); }
    if height > b.height || height < 0 {
      return null, 0;
    }
    var walk, heightWalk := b, b.height;
    AncestorParent(b, heightWalk);
    while heightWalk > height
      invariant height <= heightWalk <= b.height
      invariant walk == Ancestor(b, heightWalk)
      invariant SkipsSet(index) ==> turns + Turns(heightWalk, height) == Turns(b.height, height)
    {
      turns := turns + 1;
      TurnsStep(heightWalk, height);
      AncestorIn(b, heightWalk, index);
      AncestorParent(b, heightWalk);
      var heightSkip := GetSkipHeight(heightWalk);
      var heightSkipPrev := GetSkipHeight(heightWalk - 1);
      if walk.pskip != null &&
        (heightSkip == height ||
         (heightSkip > height && !(heightSkipPrev < heightSkip - 2 && heightSkipPrev >= height)))
      {
        AncestorAncestor(b, heightWalk, heightSkip);
        walk := walk.pskip;
        heightWalk := heightSkip;
      } else {
        walk := walk.pprev;
        heightWalk := heightWalk - 1;
      }
    }
    TurnsStep(heightWalk, height);
    r := walk;
  }

  /** Giving a block its skip pointer keeps the whole index right. */
  method BuildSkip(b: BlockIndex, ghost index: set<BlockIndex>)
    requires b in index && Closed(index)
    requires b.pprev == null ==> b.pskip == null
    requires forall x :: x in index && x != b ==> SkipOk(x)
    modifies b`pskip
    ensures SkipsOk(index)
    ensures b.pprev != null ==> b.pskip == Ancestor(b, GetSkipHeight(b.height))
  {
    if b.pprev != null {
      b.pskip := null;
      var skip, _ := GetAncestor(b.pprev, GetSkipHeight(b.height), index);
      b.pskip := skip;
    }
  }

  /** Growing the block tree by one block, as every run does from the empty index on. */
  method AddToIndex(prev: BlockIndex?, time: int, bits: Limb, stake: bool, ghost index: set<BlockIndex>)
    returns (b: BlockIndex, ghost next: set<BlockIndex>)
    requires Closed(index) && SkipsOk(index) && (prev != null ==> prev in index)
    ensures fresh(b) && next == index + {b} && Closed(next) && SkipsOk(next)
    ensures old(SkipsSet(index)) ==> SkipsSet(next)
    ensures b.pprev == prev && b.time == time && b.bits == bits && b.stake == stake
  {
    b := new BlockIndex(prev, time, bits, stake);
    next := index + {b};
    BuildSkip(b, next);
  }

  /** The most recent block of a kind at or before b, or the first block of the chain. */
  function LastOfKind(b: BlockIndex, stake: bool): (r: BlockIndex)
    requires Linked(b)
    ensures Linked(r) && r.height <= b.height && r == Ancestor(b, r.height)
    ensures r.stake == stake || r.pprev == null
    decreases b.height
  {
    if b.pprev != null && b.stake != stake then
      var r := LastOfKind(b.pprev, stake);
      AncestorAncestor(b, b.height - 1, r.height);
      r
    else b
  }

  lemma {:induction false} NoneSince(b: BlockIndex, stake: bool, h: nat)
    requires Linked(b) && LastOfKind(b, stake).height < h <= b.height
    ensures Ancestor(b, h).stake != stake
    decreases b.height
  {
    if h < b.height { NoneSince(b.pprev, stake, h); }
  }

  method GetLastBlockIndex(b: BlockIndex?, stake: bool) returns (r: BlockIndex?)
    requires b != null ==> Linked(b)
    ensures b == null <==> r == null
    ensures b != null ==> r == LastOfKind(b, stake)
  {
    r := b;
    while r != null && r.pprev != null && r.stake != stake
      invariant b == null ==> r == null
      invariant b != null ==> r != null && Linked(r) && LastOfKind(r, stake) == LastOfKind(b, stake)
      decreases if r == null then 0 else r.height
    {
      r := r.pprev;
    }
  }

  /** The blocks up to a tip, by height. */
  ghost predicate IsPath(v: seq<BlockIndex?>) {
    forall h :: 0 <= h < |v| ==>
      v[h] != null && Linked(v[h]) && v[h].height == h && (h > 0 ==> v[h].pprev == v[h - 1])
  }

  lemma {:induction false} PathIsAncestors(v: seq<BlockIndex?>, t: nat, h: nat)
    requires IsPath(v) && h <= t < |v|
    ensures v[h] == Ancestor(v[t], h)
  {
    if h < t { PathIsAncestors(v, t - 1, h); }
  }

  /** Where two chains share a block they share everything before it. */
  lemma SharedBelow(v: seq<BlockIndex?>, b: BlockIndex, h: nat, k: nat)
    requires IsPath(v) && Linked(b) && k <= h < |v| && h <= b.height
    requires v[h] == Ancestor(b, h)
    ensures v[k] == Ancestor(b, k)
  {
    PathIsAncestors(v, h, k);
    AncestorAncestor(b, h, k);
  }

  lemma ParentOf(b: BlockIndex, h: nat)
    requires Linked(b) && h <= b.height
    ensures h == 0 ==> Ancestor(b, h).pprev == null
    ensures h > 0 ==> Ancestor(b, h).pprev == Ancestor(b, h - 1)
  {
    if h > 0 { AncestorAncestor(b, h, h - 1); }
  }

  /** The chain and b's history have the same block at height h. */
  ghost predicate Shared(v: seq<BlockIndex?>, b: BlockIndex, h: nat)
    requires Linked(b) && h <= b.height
  {
    h < |v| && v[h] == Ancestor(b, h)
  }

  /** Each entry is an ancestor of b, the next one a step further back. */
  ghost predicate LocatorOk(have: seq<BlockIndex>, b: BlockIndex)
    requires Linked(b)
  {
    && (forall k :: 0 <= k < |have| ==> have[k].height <= b.height && have[k] == Ancestor(b, have[k].height))
    && (forall k :: 0 <= k < |have| - 1 ==> have[k].height > 0 && have[k + 1].height == StepBack(have[k].height, k))
  }

  class ActiveChain {
    var blocks: seq<BlockIndex?>

    constructor ()
      ensures blocks == [] && IsPath(blocks)
    {
      blocks := [];
    }

    /** Afterwards the chain is exactly the new tip's ancestors, though the walk stops at the fork. */
    method SetTip(tip: BlockIndex?)
      requires IsPath(blocks) && (tip != null ==> Linked(tip))
      modifies this
      ensures IsPath(blocks)
      ensures tip == null ==> blocks == []
      ensures tip != null ==> |blocks| == tip.height + 1 && blocks[tip.height] == tip
      ensures tip != null ==> forall h :: 0 <= h <= tip.height ==> blocks[h] == Ancestor(tip, h)
    {
      if tip == null {
        blocks := [];
        return;
      }
      ghost var was := blocks;
      var n := tip.height + 1;
      blocks := if n <= |blocks| then blocks[..n] else blocks + seq(n - |blocks|, _ => null);
      var walk: BlockIndex? := tip;
      ghost var next := tip.height;
      while walk != null && blocks[walk.height] != walk
        invariant |blocks| == n
        invariant -1 <= next <= tip.height
        invariant walk == null <==> next == -1
        invariant walk != null ==> walk == Ancestor(tip, next)
        invariant forall h :: next < h < n ==> blocks[h] == Ancestor(tip, h)
        invariant forall h :: 0 <= h <= next ==> blocks[h] == if h < |was| then was[h] else null
        decreases next
      {
        blocks := blocks[walk.height := walk];
        if next > 0 { AncestorAncestor(tip, next, next - 1); }
        walk := walk.pprev;
        next := next - 1;
      }
      forall h | 0 <= h <= next ensures blocks[h] == Ancestor(tip, h) {
        SharedBelow(was, tip, next, h);
      }
      forall h | 0 <= h < n
        ensures blocks[h] != null && Linked(blocks[h]) && blocks[h].height == h
        ensures h > 0 ==> blocks[h].pprev == blocks[h - 1]
      {
        if h > 0 { AncestorAncestor(tip, h, h - 1); }
      }
    }

    function At(h: int): BlockIndex?
      reads this
    {
      if h < 0 || h >= |blocks| then null else blocks[h]
    }

    predicate Contains(b: BlockIndex)
      reads this
    {
      At(b.height) == b
    }

    /** The last block the chain has in common with b's history. */
    method FindFork(b: BlockIndex?, ghost index: set<BlockIndex>) returns (r: BlockIndex?)
      requires IsPath(blocks) && Closed(index) && SkipsOk(index) && (b != null ==> b in index)
      ensures b == null ==> r == null
      ensures r != null ==> b != null && Linked(b) && r.height <= b.height && r == Ancestor(b, r.height)
      ensures r != null ==> forall h :: 0 <= h <= r.height ==> Shared(blocks, b, h)
      ensures b != null ==> Linked(b)
      ensures b != null ==> forall h :: (if r == null then 0 else r.height + 1) <= h <= b.height ==>
        !Shared(blocks, b, h)
    {
      hide Linked, Ancestor, IsPath, Closed, SkipsOk, SkipsSet, Turns;
      r := b;
      if b == null {
        return;
      }
      ClosedLinked(b, index);
      if r.height > |blocks| - 1 {
        ghost var turns;
        r, turns := GetAncestor(b, |blocks| - 1, index);
      }
      while r != null && !Contains(r)
        invariant r != null ==> r.height <= b.height && r == Ancestor(b, r.height)
        invariant forall h :: (if r == null then 0 else r.height + 1) <= h <= b.height ==> !Shared(blocks, b, h)
        decreases if r == null then 0 else r.height + 1
      {
        ParentOf(b, r.height);
        r := r.pprev;
      }
      if r != null {
        forall h | 0 <= h <= r.height ensures Shared(blocks, b, h) {
          SharedBelow(blocks, b, r.height, h);
        }
      }
    }

    /** The ancestor at height h, looked up in the chain when it can be. */
    method Back(b: BlockIndex, h: nat, ghost index: set<BlockIndex>) returns (r: BlockIndex)
      requires IsPath(blocks) && b in index && Closed(index) && SkipsOk(index) && h <= b.height
      ensures r == Ancestor(b, h)
    {
      if Contains(b) {
        PathIsAncestors(blocks, b.height, h);
        r := blocks[h];
      } else {
        var a, _ := GetAncestor(b, h, index);
        r := a;
      }
    }

    /** The locator of b: entries thin out by doubling steps, and always reach the first block. */
    method LocatorFrom(b: BlockIndex, ghost index: set<BlockIndex>) returns (have: seq<BlockIndex>)
      requires IsPath(blocks) && b in index && Closed(index) && SkipsOk(index)
      ensures |have| > 0 && have[0] == b && have[|have| - 1].height == 0
      ensures Linked(b) && LocatorOk(have, b)
    {
      hide Linked, Ancestor, IsPath, Closed, SkipsOk, Pow;
      ClosedLinked(b, index);
      var step := 1;
      have := [b];
      while have[|have| - 1].height > 0
        invariant |have| > 0 && have[0] == b && LocatorOk(have, b)
        invariant step == LocatorStep(|have| - 1)
        decreases have[|have| - 1].height
      {
        var walk := have[|have| - 1];
        StepPositive(|have| - 1);
        var h := if walk.height - step > 0 then walk.height - step else 0;
        AncestorIn(b, walk.height, index);
        AncestorAncestor(b, walk.height, h);
        var next := Back(walk, h, index);
        if |have| > 10 {
          StepDoubles(|have| - 1);
          step := step * 2;
        }
        have := have + [next];
      }
    }

    method GetLocator(b: BlockIndex?, ghost index: set<BlockIndex>) returns (have: seq<BlockIndex>)
      requires IsPath(blocks) && Closed(index) && SkipsOk(index) && (b != null ==> b in index)
      requires forall h :: 0 <= h < |blocks| ==> blocks[h] in index
      ensures have == [] <==> b == null && blocks == []
      ensures have != [] ==> have[0] == if b == null then blocks[|blocks| - 1] else b
      ensures have != [] ==> Linked(have[0]) && LocatorOk(have, have[0]) && have[|have| - 1].height == 0
    {
      var start := if b == null then At(|blocks| - 1) else b;
      if start == null {
        return [];
      }
      have := LocatorFrom(start, index);
    }
  }

  lemma ClosedLinked(b: BlockIndex, index: set<BlockIndex>)
    requires b in index && Closed(index)
    ensures Linked(b) && Ancestor(b, b.height) == b
  {
  }

  lemma StepDoubles(k: nat)
    requires k >= 10
    ensures LocatorStep(k + 1) == 2 * LocatorStep(k)
  {
  }

  /** The step taken back from the k-th entry of a locator. */
  function LocatorStep(k: nat): int {
    if k <= 10 then 1 else Pow(2, k - 10)
  }

  function StepBack(height: int, k: nat): int {
    if height - LocatorStep(k) > 0 then height - LocatorStep(k) else 0
  }

  lemma StepPositive(k: nat)
    ensures LocatorStep(k) >= 1
  {
    if k > 10 { PowPositive(2, k - 10); }
  }

  /** A locator is no longer than the chain's height has bits, plus twelve. */
  lemma LocatorIsShort(heights: seq<int>)
    requires |heights| > 12
    requires forall k :: 0 <= k < |heights| - 1 ==> heights[k] > 0 && heights[k + 1] == StepBack(heights[k], k)
    ensures Pow(2, |heights| - 12) < heights[0]
  {
    LocatorSum(heights, |heights| - 2);
  }

  lemma {:induction false} LocatorSum(heights: seq<int>, k: nat)
    requires k < |heights| - 1
    requires forall j :: 0 <= j < |heights| - 1 ==> heights[j] > 0 && heights[j + 1] == StepBack(heights[j], j)
    ensures heights[0] == heights[k] + (if k <= 10 then k else 9 + Pow(2, k - 10))
  {
    if k > 0 {
      LocatorSum(heights, k - 1);
      assert heights[k - 1 + 1] == StepBack(heights[k - 1], k - 1);
      if k > 11 { assert Pow(2, k - 10) == 2 * Pow(2, k - 11); }
    }
  }
}
