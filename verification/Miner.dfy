/** BlockAssembler: choosing transactions from the mempool for a new block, by priority and
    then by package fee rate. Priorities, fee-rate order and ties are left open: wherever the
    program follows them, the model may pick any candidate. */
module Miner {
  import opened Basics
  import opened Mempool
  import opened PackageTable

  const MAX_BLOCK_SIZE := 1000000
  const MAX_BLOCK_SIGOPS := 20000
  const DEFAULT_BLOCK_MAX_SIZE := 750000

  function Elems(s: seq<Tx>): set<Tx> { set x | x in s }

  predicate NoRepeats(s: seq<Tx>) { forall i, j :: 0 <= i < j < |s| ==> s[i] != s[j] }

  /** Every transaction comes after all its in-pool ancestors. */
  predicate InOrder(p: Pool, s: seq<Tx>) {
    forall i :: 0 <= i < |s| ==> s[i] in p && p[s[i]].ancestors <= Elems(s[..i])
  }

  /** The block so far: a list without repeats, in order, and the counters that describe it. */
  ghost predicate BlockOk(p: Pool, vtx: seq<Tx>, inBlock: set<Tx>, size: int, sigOps: int, fees: int, count: int) {
    && NoRepeats(vtx) && InOrder(p, vtx) && inBlock == Elems(vtx) && inBlock <= p.Keys
    && size == 1000 + Total(p, inBlock, Size)
    && sigOps == 100 + Total(p, inBlock, SigOps)
    && fees == Total(p, inBlock, Fee)
    && count == |vtx|
  }

  lemma EmptyBlockOk(p: Pool)
    ensures BlockOk(p, [], {}, 1000, 100, 0, 0)
  {
    TotalEmpty(p, Size);
    TotalEmpty(p, SigOps);
    TotalEmpty(p, Fee);
  }

  lemma ElemsAppend(s: seq<Tx>, x: Tx)
    ensures Elems(s + [x]) == Elems(s) + {x}
  {
    assert forall y :: y in s + [x] <==> y in s || y == x;
  }

  /** A block in order holds every ancestor of what it holds. */
  lemma InOrderClosed(p: Pool, s: seq<Tx>)
    requires InOrder(p, s)
    ensures Closed(p, Elems(s))
  {
    forall x | x in Elems(s) ensures x in p && p[x].ancestors <= Elems(s) {
      var i :| 0 <= i < |s| && s[i] == x;
      assert Elems(s[..i]) <= Elems(s);
    }
  }

  lemma AppendKeepsBlock(p: Pool, vtx: seq<Tx>, inBlock: set<Tx>, size: int, sigOps: int, fees: int, count: int, x: Tx)
    requires BlockOk(p, vtx, inBlock, size, sigOps, fees, count)
    requires x in p && x !in inBlock && p[x].ancestors <= inBlock
    ensures BlockOk(p, vtx + [x], inBlock + {x}, size + p[x].size, sigOps + p[x].sigOps, fees + p[x].fee, count + 1)
  {
    hide Total;
    ElemsAppend(vtx, x);
    TotalAdd(p, inBlock, Size, x);
    TotalAdd(p, inBlock, SigOps, x);
    TotalAdd(p, inBlock, Fee, x);
    var r := vtx + [x];
    forall i | 0 <= i < |r| ensures r[i] in p && p[r[i]].ancestors <= Elems(r[..i]) {
      if i < |vtx| { assert r[..i] == vtx[..i]; } else { assert r[..i] == vtx; }
    }
  }

  // ---------------------------------------------------------------- SortForBlock

  /** The order CompareTxIterByAncestorCount sorts by, ties left open. */
  predicate ByAncestorCount(p: Pool, s: seq<Tx>)
    requires Elems(s) <= p.Keys
  {
    forall i, j :: 0 <= i < j < |s| ==> s[i] in p && s[j] in p && p[s[i]].countAnc <= p[s[j]].countAnc
  }

  method Fewest(p: Pool, s: set<Tx>) returns (x: Tx)
    requires s != {} && s <= p.Keys
    ensures x in s && forall y :: y in s ==> p[x].countAnc <= p[y].countAnc
  {
    x :| x in s;
    var todo := s - {x};
    while todo != {}
      invariant todo <= s && x in s
      invariant forall y :: y in s - todo ==> p[x].countAnc <= p[y].countAnc
      decreases |todo|
    {
      var y :| y in todo;
      if p[y].countAnc < p[x].countAnc { x := y; }
      todo := todo - {y};
    }
  }

  predicate NoMoreThan(p: Pool, s: seq<Tx>, left: set<Tx>) {
    forall x, y :: x in s && y in left ==> x in p && y in p && p[x].countAnc <= p[y].countAnc
  }

  lemma SortStep(p: Pool, s: seq<Tx>, left: set<Tx>, x: Tx)
    requires NoRepeats(s) && Elems(s) <= p.Keys && ByAncestorCount(p, s) && NoMoreThan(p, s, left)
    requires x in left && x !in s && left <= p.Keys && forall y :: y in left ==> p[x].countAnc <= p[y].countAnc
    ensures Elems(s + [x]) == Elems(s) + {x}
    ensures NoRepeats(s + [x]) && ByAncestorCount(p, s + [x]) && NoMoreThan(p, s + [x], left - {x})
  {
    ElemsAppend(s, x);
    var r := s + [x];
    forall i, j | 0 <= i < j < |r|
      ensures r[i] != r[j] && r[i] in p && r[j] in p && p[r[i]].countAnc <= p[r[j]].countAnc
    {
      assert r[i] in s;
    }
  }

  /** SortForBlock: the package as a list, by ancestor count. */
  method SortForBlock(p: Pool, package: set<Tx>) returns (sorted: seq<Tx>)
    requires package <= p.Keys
    ensures Elems(sorted) == package && NoRepeats(sorted) && ByAncestorCount(p, sorted)
  {
    hide NoRepeats, ByAncestorCount, NoMoreThan;
    sorted := [];
    var left := package;
    StartSorting(p, left);
    while left != {}
      invariant left <= package && Elems(sorted) == package - left
      invariant NoRepeats(sorted) && ByAncestorCount(p, sorted) && NoMoreThan(p, sorted, left)
      decreases |left|
    {
      var x := Fewest(p, left);
      assert x !in Elems(sorted);
      SortStep(p, sorted, left, x);
      sorted := sorted + [x];
      left := left - {x};
    }
  }

  lemma StartSorting(p: Pool, left: set<Tx>)
    ensures Elems([]) == {} && NoRepeats([]) && ByAncestorCount(p, []) && NoMoreThan(p, [], left)
  {
  }

  /** Sorted that way, everything a package still needs comes before what needs it. */
  lemma SortedIsInOrder(p: Pool, inBlock: set<Tx>, iter: Tx, sorted: seq<Tx>, i: nat)
    requires WellFormed(p) && iter in p && i < |sorted|
    requires Elems(sorted) == Rest(p, inBlock, iter) && NoRepeats(sorted)
    requires Elems(sorted) <= p.Keys && ByAncestorCount(p, sorted)
    ensures sorted[i] in p && p[sorted[i]].ancestors <= inBlock + Elems(sorted[..i])
  {
    hide Total, TotalsOk;
    var x := sorted[i];
    assert x in Elems(sorted);
    assert LinksOk(p, iter) && LinksOk(p, x);
    forall a | a in p[x].ancestors ensures a in inBlock + Elems(sorted[..i]) {
      if a !in inBlock {
        assert a in p[iter].ancestors;
        assert a in Elems(sorted);
        var j :| 0 <= j < |sorted| && sorted[j] == a;
        AncestorCounts(p, a, x);
        assert sorted[j] in sorted[..i];
      }
    }
  }

  // ---------------------------------------------------------------- the assembler

  predicate AllFinal(p: Pool, s: set<Tx>)
    requires s <= p.Keys
  {
    forall x :: x in s ==> p[x].isFinal
  }

  lemma SizeMonotone(p: Pool, a: set<Tx>, s: set<Tx>)
    requires a <= s <= p.Keys
    ensures Total(p, a, Size) <= Total(p, s, Size)
  {
    TotalMonotone(p, a, s, Size);
  }

  ghost predicate Passes(p: Pool, start: int, limit: int, s: set<Tx>)
    requires s <= p.Keys
  {
    AllFinal(p, s) && (s == {} || start + Total(p, s, Size) < limit)
  }

  /** A set passes exactly when it passes without one of its members and that member is
      final and still fits. */
  lemma PassesStep(p: Pool, start: int, limit: int, s: set<Tx>, x: Tx)
    requires s <= p.Keys && x in p && x !in s
    ensures Passes(p, start, limit, s + {x}) <==>
      Passes(p, start, limit, s) && p[x].isFinal && start + Total(p, s, Size) + p[x].size < limit
  {
    TotalAdd(p, s, Size, x);
    SizeMonotone(p, s, s + {x});
    assert Passes(p, start, limit, s + {x}) ==> forall y :: y in s ==> y in s + {x};
  }

  lemma PassesSubset(p: Pool, start: int, limit: int, a: set<Tx>, s: set<Tx>)
    requires a <= s <= p.Keys && Passes(p, start, limit, s)
    ensures Passes(p, start, limit, a)
  {
    SizeMonotone(p, a, s);
  }

  /** The loop of TestPackageTransactions. */
  method FinalAndFits(p: Pool, start: int, limit: int, package: set<Tx>) returns (b: bool)
    requires package <= p.Keys
    ensures b <==> Passes(p, start, limit, package)
  {
    hide Total, Passes;
    var potential := start;
    var todo := package;
    ghost var seen := {};
    NoTotal(p, start, limit);
    while todo != {}
      invariant todo <= package && seen == package - todo
      invariant potential == start + Total(p, seen, Size) && Passes(p, start, limit, seen)
      decreases |todo|
    {
      var x :| x in todo;
      PassesStep(p, start, limit, seen, x);
      TotalAdd(p, seen, Size, x);
      if !p[x].isFinal || potential + p[x].size >= limit {
        assert !Passes(p, start, limit, seen + {x});
        if Passes(p, start, limit, package) { PassesSubset(p, start, limit, seen + {x}, package); }
        return false;
      }
      potential := potential + p[x].size;
      todo := todo - {x};
      seen := seen + {x};
    }
    assert seen == package;
    return true;
  }

  lemma NoTotal(p: Pool, start: int, limit: int)
    ensures Total(p, {}, Size) == 0 && Passes(p, start, limit, {})
  {
  }

  const PACKAGE_LIMIT := DEFAULT_BLOCK_MAX_SIZE

  /** What is left of the package of x cannot be added: some of it is not final, or it is too
      large, or it has too many signature operations. */
  ghost predicate Unfit(p: Pool, inBlock: set<Tx>, size: int, sigOps: int, limit: int, x: Tx)
    requires x in p && Package(p, x) <= p.Keys
  {
    var rest := Rest(p, inBlock, x);
    || !AllFinal(p, rest)
    || size + Total(p, rest, Size) >= limit || size + Total(p, rest, Size) >= PACKAGE_LIMIT
    || sigOps + Total(p, rest, SigOps) >= MAX_BLOCK_SIGOPS
  }

  /** Adding final transactions makes no unfit package fit: what the package loses the block
      gains. */
  lemma UnfitStays(p: Pool, inBlock: set<Tx>, size: int, sigOps: int, limit: int, added: set<Tx>, x: Tx)
    requires x in p && Package(p, x) <= p.Keys && added <= p.Keys && added !! inBlock && AllFinal(p, added)
    requires Unfit(p, inBlock, size, sigOps, limit, x)
    ensures Unfit(p, inBlock + added, size + Total(p, added, Size), sigOps + Total(p, added, SigOps), limit, x)
  {
    hide Total;
    var rest := Rest(p, inBlock, x);
    var both := rest * added;
    assert Rest(p, inBlock + added, x) == rest - both;
    TotalSplit(p, rest, both, Size);
    TotalSplit(p, rest, both, SigOps);
    TotalMonotone(p, both, added, Size);
    TotalMonotone(p, both, added, SigOps);
    if !AllFinal(p, rest) {
      var y :| y in rest && !p[y].isFinal;
      assert y in rest - both;
    }
  }

  /** The contents of the block and its running totals. */
  datatype Filled = Filled(txs: set<Tx>, size: int, sigOps: int)

  /** x is in the block, or its package cannot be added any more. */
  ghost predicate Settled(p: Pool, limit: int, b: Filled, x: Tx) {
    x in b.txs || (x in p && Package(p, x) <= p.Keys && Unfit(p, b.txs, b.size, b.sigOps, limit, x))
  }

  /** A candidate whose package pays less than the relay fee: by the totals m, which are those of
      its package without its ancestors in the block, or without some of them when the package
      cannot be added anyway. */
  ghost predicate Underpaid(p: Pool, minFee: int -> int, limit: int, b: Filled, x: Tx, gone: set<Tx>, m: Mod) {
    && x in p && x !in b.txs && Package(p, x) <= p.Keys && gone <= p[x].ancestors * b.txs
    && (gone == p[x].ancestors * b.txs || Settled(p, limit, b, x))
    && Left(p, x, gone, m) && m.modFees < minFee(m.size)
  }

  /** Why x was added for its fee: it is in the package of some y of the block whose totals, without
      ancestors that were in the block before, pay the relay fee. */
  ghost predicate PaidBy(p: Pool, minFee: int -> int, txs: set<Tx>, x: Tx, y: Tx, gone: set<Tx>, m: Mod) {
    && y in p && y in txs && Package(p, y) <= p.Keys && gone <= p[y].ancestors * txs && x in Package(p, y) - gone
    && Left(p, y, gone, m) && m.modFees >= minFee(m.size)
  }

  ghost predicate Paid(p: Pool, minFee: int -> int, txs: set<Tx>, x: Tx) {
    exists y, gone, m :: PaidBy(p, minFee, txs, x, y, gone, m)
  }

  lemma PaidStays(p: Pool, minFee: int -> int, txs: set<Tx>, more: set<Tx>, x: Tx)
    requires txs <= more && Paid(p, minFee, txs, x)
    ensures Paid(p, minFee, more, x)
  {
    hide Left;
    var y, gone, m :| PaidBy(p, minFee, txs, x, y, gone, m);
    assert PaidBy(p, minFee, more, x, y, gone, m);
  }

  /** Everything added since a block had only the transactions in start is final and paid for. */
  ghost predicate AllPaid(p: Pool, minFee: int -> int, start: set<Tx>, txs: set<Tx>) {
    forall x :: x in txs && x !in start ==> x in p && p[x].isFinal && Paid(p, minFee, txs, x)
  }

  lemma AllPaidNone(p: Pool, minFee: int -> int, start: set<Tx>)
    ensures AllPaid(p, minFee, start, start)
  {
  }

  /** One package more. */
  lemma AllPaidAdded(p: Pool, minFee: int -> int, start: set<Tx>, txs: set<Tx>, more: set<Tx>, failed: set<Tx>, y: Tx,
                     gone: set<Tx>, m: Mod)
    requires AllPaid(p, minFee, start, txs) && y in p && y !in txs && Package(p, y) <= p.Keys
    requires Told(p, txs, failed, y, gone, m) && m.modFees >= minFee(m.size)
    requires more == txs + Rest(p, txs, y) && Rest(p, txs, y) <= p.Keys && AllFinal(p, Rest(p, txs, y))
    ensures AllPaid(p, minFee, start, more)
  {
    hide Left, Paid;
    forall x | x in more && x !in start ensures x in p && p[x].isFinal && Paid(p, minFee, more, x) {
      if x in txs { PaidStays(p, minFee, txs, more, x); } else { PaidNow(p, minFee, txs, more, failed, x, y, gone, m); }
    }
  }

  lemma PaidNow(p: Pool, minFee: int -> int, txs: set<Tx>, more: set<Tx>, failed: set<Tx>, x: Tx, y: Tx, gone: set<Tx>,
                m: Mod)
    requires y in p && Package(p, y) <= p.Keys && Told(p, txs, failed, y, gone, m) && m.modFees >= minFee(m.size)
    requires more == txs + Rest(p, txs, y) && y !in txs && x in Rest(p, txs, y)
    ensures Paid(p, minFee, more, x)
  {
    hide Left;
    assert PaidBy(p, minFee, more, x, y, gone, m);
  }

  /** Transactions without parents that do not pay the relay fee themselves. */
  predicate Free(p: Pool, minFee: int -> int) {
    forall x :: x in p ==> p[x].ancestors == {} && p[x].modFee < minFee(p[x].size)
  }

  /** Nothing in such a pool is ever paid for. */
  lemma FreeIsUnpaid(p: Pool, minFee: int -> int, txs: set<Tx>, x: Tx)
    requires Free(p, minFee)
    ensures !Paid(p, minFee, txs, x)
  {
    hide Total;
    forall y, gone, m ensures !PaidBy(p, minFee, txs, x, y, gone, m) {
      if PaidBy(p, minFee, txs, x, y, gone, m) {
        assert gone == {} && Package(p, y) == {y} && Package(p, y) - gone == {y};
        TotalsOfOne(p, y);
      }
    }
  }

  /** What the loop of addPackageTxs has dealt with: what the walk has passed, like what has
      failed, is settled or waits in the table. */
  ghost predicate DealtWith(p: Pool, limit: int, b: Filled, walk: seq<Tx>, mi: int, table: Table, failed: set<Tx>) {
    && 0 <= mi <= |walk|
    && (forall x :: x in failed ==> Settled(p, limit, b, x))
    && (forall k :: 0 <= k < mi ==> walk[k] in table || Settled(p, limit, b, walk[k]))
  }

  lemma DealtWithNext(p: Pool, limit: int, b: Filled, walk: seq<Tx>, mi: int, table: Table, failed: set<Tx>)
    requires DealtWith(p, limit, b, walk, mi, table, failed) && mi < |walk|
    requires walk[mi] in table || walk[mi] in b.txs || walk[mi] in failed || Settled(p, limit, b, walk[mi])
    ensures DealtWith(p, limit, b, walk, mi + 1, table, failed)
  {
    hide Unfit;
  }

  lemma DealtWithFailed(p: Pool, limit: int, b: Filled, walk: seq<Tx>, mi: int, table: Table, failed: set<Tx>, x: Tx)
    requires DealtWith(p, limit, b, walk, mi, table, failed) && Settled(p, limit, b, x)
    ensures DealtWith(p, limit, b, walk, mi, table - {x}, failed + {x})
  {
    hide Unfit, Settled;
  }

  lemma DealtWithAdded(p: Pool, limit: int, b: Filled, walk: seq<Tx>, mi: int, table: Table, failed: set<Tx>,
                       added: set<Tx>, c: Filled, t: Table)
    requires DealtWith(p, limit, b, walk, mi, table, failed)
    requires added <= p.Keys && added !! b.txs && AllFinal(p, added) && table.Keys - added <= t.Keys
    requires c == Filled(b.txs + added, b.size + Total(p, added, Size), b.sigOps + Total(p, added, SigOps))
    ensures DealtWith(p, limit, c, walk, mi, t, failed)
  {
    hide Unfit, AllFinal, Total;
    AllUnfitStay(p, b.txs, b.size, b.sigOps, limit, added);
    forall x | Settled(p, limit, b, x) ensures Settled(p, limit, c, x) {}
    forall k | 0 <= k < mi ensures walk[k] in t || Settled(p, limit, c, walk[k]) {
      assert walk[k] in table || Settled(p, limit, b, walk[k]);
    }
  }

  lemma DealtWithAll(p: Pool, limit: int, b: Filled, walk: seq<Tx>, table: Table, failed: set<Tx>)
    requires DealtWith(p, limit, b, walk, |walk|, table, failed) && table.Keys == {}
    ensures forall x :: x in walk ==> Settled(p, limit, b, x)
  {
    hide Unfit, Settled;
  }

  // What the loop of addPriorityTxs has dealt with.

  predicate Late(p: Pool, proofOfStake: bool, blockTime: int, x: Tx)
    requires x in p
  {
    proofOfStake && blockTime < p[x].time
  }

  /** x alone does not fit the block, or is not final. */
  predicate Rejected(p: Pool, limit: int, b: Filled, x: Tx)
    requires x in p
  {
    b.size + p[x].size >= limit || b.sigOps + p[x].sigOps >= MAX_BLOCK_SIGOPS || !p[x].isFinal
  }

  /** Why x is not in the block, once nothing is left to try. */
  predicate Excused(p: Pool, limit: int, b: Filled, proofOfStake: bool, blockTime: int, x: Tx)
    requires x in p
  {
    Late(p, proofOfStake, blockTime, x) || !(p[x].parents <= b.txs) || Rejected(p, limit, b, x)
  }

  /** The same without the names: too new for a staked block, a parent missing, too large, too
      many signature operations, or not final. */
  lemma ExcusedMeans(p: Pool, limit: int, b: Filled, proofOfStake: bool, blockTime: int, x: Tx)
    requires x in p
    ensures Excused(p, limit, b, proofOfStake, blockTime, x) <==>
      || (proofOfStake && p[x].time > blockTime) || (exists q :: q in p[x].parents && q !in b.txs)
      || limit <= b.size + p[x].size || MAX_BLOCK_SIGOPS <= b.sigOps + p[x].sigOps || !p[x].isFinal
  {
    assert p[x].parents <= b.txs <==> !exists q :: q in p[x].parents && q !in b.txs;
  }

  /** The block that holds the transactions listed in s and nothing else. */
  ghost function FilledWith(p: Pool, s: seq<Tx>): Filled
    requires Elems(s) <= p.Keys
  {
    Filled(Elems(s), 1000 + Total(p, Elems(s), Size), 100 + Total(p, Elems(s), SigOps))
  }

  /** What makes TestForBlock give up: next to no room, little room and more than fifty
      transactions that did not fit in it, or no signature operations left. */
  predicate Full(limit: int, b: Filled, lastFew: int) {
    b.size > limit - 100 || (b.size > limit - 1000 && lastFew > 50) || b.sigOps > MAX_BLOCK_SIGOPS - 2
  }

  /** All final, and none too new for a staked block. */
  predicate Timely(p: Pool, proofOfStake: bool, blockTime: int, s: seq<Tx>) {
    forall x :: x in s ==> x in p && p[x].isFinal && (proofOfStake ==> p[x].time <= blockTime)
  }

  /** The transactions but the last are all free ones, and do not yet fill the share. */
  ghost predicate ShareOpen(p: Pool, share: int, allowFree: Tx -> bool, s: seq<Tx>)
    requires Elems(s) <= p.Keys
  {
    && (forall x :: x in s ==> allowFree(x))
    && (s != [] ==> 1000 + Total(p, Elems(s), Size) < share)
  }

  /** The phase is still going on. */
  ghost predicate PhaseOpen(p: Pool, share: int, pos: bool, time: int, free: Tx -> bool, s: seq<Tx>) {
    Elems(s) <= p.Keys && Timely(p, pos, time, s) && ShareOpen(p, share, free, s)
  }

  /** What the priority phase leaves in an empty block: s, and why it ended. */
  ghost predicate PriorityPhase(p: Pool, limit: int, prioritySize: int, proofOfStake: bool, blockTime: int,
                                allowFree: Tx -> bool, s: seq<Tx>, lastFew: int, stopped: bool)
    requires Elems(s) <= p.Keys
  {
    && (prioritySize == 0 ==> s == [])
    && Timely(p, proofOfStake, blockTime, s)
    && (s != [] ==> Elems(s[..|s| - 1]) <= p.Keys && ShareOpen(p, prioritySize, allowFree, s[..|s| - 1]))
    && (prioritySize > 0 && stopped ==>
          || Full(limit, FilledWith(p, s), lastFew)
          || (s != [] && (FilledWith(p, s).size >= prioritySize || FilledWith(p, s).size >= limit
                          || !allowFree(s[|s| - 1]))))
    && (prioritySize > 0 && !stopped ==>
          forall x :: x in p ==> x in s || Excused(p, limit, FilledWith(p, s), proofOfStake, blockTime, x))
  }

  /** Everything is still to be tried, in the block, waiting for a parent, or excused. */
  predicate Tried(p: Pool, limit: int, b: Filled, pos: bool, time: int, vec: set<Tx>, wait: set<Tx>) {
    && vec <= p.Keys && wait <= p.Keys && vec !! b.txs && wait !! b.txs && vec !! wait
    && (forall x :: x in wait ==> !(p[x].parents <= b.txs))
    && forall x :: x in p && x !in vec && x !in wait && x !in b.txs ==>
         Late(p, pos, time, x) || Rejected(p, limit, b, x)
  }

  lemma TriedAdded(p: Pool, limit: int, b: Filled, pos: bool, time: int, vec: set<Tx>, wait: set<Tx>, x: Tx)
    requires Tried(p, limit, b, pos, time, vec, wait) && x in vec
    ensures var woken := Children(p, x) * wait;
      Tried(p, limit, Filled(b.txs + {x}, b.size + p[x].size, b.sigOps + p[x].sigOps), pos, time, vec - {x} + woken,
        wait - woken)
  {
    hide Late;
    var woken := Children(p, x) * wait;
    var c := Filled(b.txs + {x}, b.size + p[x].size, b.sigOps + p[x].sigOps);
    forall y | y in wait - woken ensures !(p[y].parents <= c.txs) {
      var q :| q in p[y].parents && q !in b.txs;
      assert y !in Children(p, x);
      assert q != x;
    }
    forall y | y in p && y !in vec - {x} + woken && y !in wait - woken && y !in c.txs
      ensures Late(p, pos, time, y) || Rejected(p, limit, c, y)
    {
      assert y !in vec && y !in wait && y !in b.txs;
    }
  }

  lemma TriedSetAside(p: Pool, limit: int, b: Filled, pos: bool, time: int, vec: set<Tx>, wait: set<Tx>, x: Tx)
    requires Tried(p, limit, b, pos, time, vec, wait) && x in vec
    ensures !(p[x].parents <= b.txs) ==> Tried(p, limit, b, pos, time, vec - {x}, wait + {x})
    ensures Late(p, pos, time, x) || Rejected(p, limit, b, x) ==> Tried(p, limit, b, pos, time, vec - {x}, wait)
  {
    hide Late, Rejected;
  }

  /** What is not in the block yet. */
  ghost function Missing(p: Pool, txs: set<Tx>): nat { |p.Keys - txs| }

  ghost function Rows(t: Table): nat { |t.Keys| }

  class BlockAssembler {
    const pool: Pool
    const nBlockMaxSize: int
    const minFee: int -> int       // minRelayTxFee.GetFee
    var vtx: seq<Tx>
    var inBlock: set<Tx>
    var nBlockSize: int
    var nBlockSigOps: int
    var nBlockTx: int
    var nFees: int
    var lastFewTxs: int
    var blockFinished: bool

    ghost predicate Valid()
      reads this
    {
      && WellFormed(pool) && 1000 <= nBlockMaxSize <= MAX_BLOCK_SIZE - 1000
      && BlockOk(pool, vtx, inBlock, nBlockSize, nBlockSigOps, nFees, nBlockTx)
    }

    /** Once anything is in the block, it is within its limits. */
    predicate WithinLimits()
      reads this
    {
      inBlock == {} || (nBlockSize < nBlockMaxSize && nBlockSigOps < MAX_BLOCK_SIGOPS)
    }

    /** The configured size is cut to an unsigned word first, so a negative one is a large one. */
    constructor (pool: Pool, blockMaxSize: int, minFee: int -> int)
      requires WellFormed(pool)
      ensures Valid() && WithinLimits() && vtx == [] && this.pool == pool
      ensures var word := blockMaxSize % 0x1_0000_0000;
        nBlockMaxSize == if word < 1000 then 1000 else if word > 999000 then 999000 else word
      ensures -0x8000_0000 <= blockMaxSize < 0 ==> nBlockMaxSize == 999000
    {
      this.pool := pool;
      this.minFee := minFee;
      var word := blockMaxSize % 0x1_0000_0000;
      var n := if word < MAX_BLOCK_SIZE - 1000 then word else MAX_BLOCK_SIZE - 1000;
      nBlockMaxSize := if n < 1000 then 1000 else n;
      vtx, inBlock := [], {};
      nBlockSize, nBlockSigOps, nBlockTx, nFees := 1000, 100, 0, 0;
      lastFewTxs, blockFinished := 0, false;
    }

    method AddToBlock(x: Tx)
      requires Valid() && x in pool && x !in inBlock && pool[x].ancestors <= inBlock
      modifies this
      ensures Valid() && vtx == old(vtx) + [x] && inBlock == old(inBlock) + {x}
      ensures nBlockSize == old(nBlockSize) + pool[x].size && nBlockSigOps == old(nBlockSigOps) + pool[x].sigOps
      ensures lastFewTxs == old(lastFewTxs) && blockFinished == old(blockFinished)
    {
      hide WellFormed;
      AppendKeepsBlock(pool, vtx, inBlock, nBlockSize, nBlockSigOps, nFees, nBlockTx, x);
      vtx := vtx + [x];
      nBlockSize := nBlockSize + pool[x].size;
      nBlockTx := nBlockTx + 1;
      nBlockSigOps := nBlockSigOps + pool[x].sigOps;
      nFees := nFees + pool[x].fee;
      inBlock := inBlock + {x};
    }

    /** isStillDependent: some in-pool parent is not in the block. */
    method IsStillDependent(x: Tx) returns (b: bool)
      requires x in pool
      ensures b <==> !(pool[x].parents <= inBlock)
    {
      var todo := pool[x].parents;
      while todo != {}
        invariant todo <= pool[x].parents && pool[x].parents - todo <= inBlock
        decreases |todo|
      {
        var q :| q in todo;
        if q !in inBlock { return true; }
        todo := todo - {q};
      }
      return false;
    }

    /** onlyUnconfirmed: the transactions of a set that are not in the block. */
    method OnlyUnconfirmed(s: set<Tx>) returns (r: set<Tx>)
      ensures r == s - inBlock
    {
      r := s;
      var todo := s;
      while todo != {}
        invariant todo <= s && r == s - (inBlock - todo)
        decreases |todo|
      {
        var x :| x in todo;
        if x in inBlock { r := r - {x}; }
        todo := todo - {x};
      }
    }

    predicate PackageFits(size: int, sigOps: int)
      reads this
    {
      nBlockSize + size < DEFAULT_BLOCK_MAX_SIZE && nBlockSigOps + sigOps < MAX_BLOCK_SIGOPS
    }

    method TestPackage(size: int, sigOps: int) returns (b: bool)
      ensures b == PackageFits(size, sigOps)
    {
      if nBlockSize + size >= DEFAULT_BLOCK_MAX_SIZE { return false; }
      if nBlockSigOps + sigOps >= MAX_BLOCK_SIGOPS { return false; }
      return true;
    }

    /** TestPackageTransactions: all final, and together within the size limit. */
    method TestPackageTransactions(package: set<Tx>) returns (b: bool)
      requires package <= pool.Keys
      ensures b <==> Passes(pool, nBlockSize, nBlockMaxSize, package)
    {
      b := FinalAndFits(pool, nBlockSize, nBlockMaxSize, package);
    }

    predicate FitsBlock(x: Tx)
      reads this
      requires x in pool
    {
      && nBlockSize + pool[x].size < nBlockMaxSize && nBlockSigOps + pool[x].sigOps < MAX_BLOCK_SIGOPS
      && pool[x].isFinal
    }

    /** TestForBlock: true exactly when the transaction fits and is final; a block too full
        for anything more is flagged as finished. */
    method TestForBlock(x: Tx) returns (b: bool)
      requires x in pool
      modifies this`lastFewTxs, this`blockFinished
      ensures b == FitsBlock(x)
      ensures blockFinished == (old(blockFinished)
        || (nBlockSize + pool[x].size >= nBlockMaxSize && (nBlockSize > nBlockMaxSize - 100 || old(lastFewTxs) > 50))
        || (nBlockSize + pool[x].size < nBlockMaxSize && nBlockSigOps + pool[x].sigOps >= MAX_BLOCK_SIGOPS
            && nBlockSigOps > MAX_BLOCK_SIGOPS - 2))
      ensures lastFewTxs == old(lastFewTxs) +
        (if nBlockSize + pool[x].size >= nBlockMaxSize && nBlockMaxSize - 1000 < nBlockSize <= nBlockMaxSize - 100
            && old(lastFewTxs) <= 50
         then 1 else 0)
    {
      if nBlockSize + pool[x].size >= nBlockMaxSize {
        if nBlockSize > nBlockMaxSize - 100 || lastFewTxs > 50 {
          blockFinished := true;
          return false;
        }
        if nBlockSize > nBlockMaxSize - 1000 { lastFewTxs := lastFewTxs + 1; }
        return false;
      }
      if nBlockSigOps + pool[x].sigOps >= MAX_BLOCK_SIGOPS {
        if nBlockSigOps > MAX_BLOCK_SIGOPS - 2 {
          blockFinished := true;
          return false;
        }
        return false;
      }
      if !pool[x].isFinal { return false; }
      return true;
    }

    /** Add the sorted package to the block, erasing the rows of its members. */
    method AddSorted(sorted: seq<Tx>, iter: Tx, table: Table) returns (t: Table)
      requires Valid() && iter in pool
      requires Elems(sorted) == Rest(pool, inBlock, iter) && NoRepeats(sorted)
      requires Elems(sorted) <= pool.Keys && ByAncestorCount(pool, sorted)
      modifies this
      ensures Valid() && vtx == old(vtx) + sorted && inBlock == old(inBlock) + Elems(sorted)
      ensures t == table - Elems(sorted)
      ensures lastFewTxs == old(lastFewTxs) && blockFinished == old(blockFinished)
    {
      hide WellFormed, BlockOk, ByAncestorCount, Elems;
      t := table;
      ghost var start := inBlock;
      ElemsEmpty(sorted);
      assert table - {} == table;
      for i := 0 to |sorted|
        invariant Valid() && vtx == old(vtx) + sorted[..i] && inBlock == start + Elems(sorted[..i])
        invariant t == table - Elems(sorted[..i])
        invariant lastFewTxs == old(lastFewTxs) && blockFinished == old(blockFinished)
      {
        var x := sorted[i];
        SortedIsInOrder(pool, start, iter, sorted, i);
        FirstSeen(sorted, i);
        ElemsPrefix(sorted, i);
        assert x !in inBlock;
        AddToBlock(x);
        t := t - {x};
      }
      assert sorted[..|sorted|] == sorted;
    }

    /** The part of addPackageTxs that adds one package: the unconfirmed ancestors of iter
        and iter itself, in order, and the update of the table. */
    method AddPackage(package: set<Tx>, iter: Tx, table: Table, ghost failed: set<Tx>) returns (t: Table)
      requires Valid() && iter in pool && iter !in inBlock && package == Rest(pool, inBlock, iter)
        && package <= pool.Keys
      requires TableOk(pool, inBlock, failed, table)
      requires nBlockSize + Total(pool, package, Size) < nBlockMaxSize
      requires nBlockSigOps + Total(pool, package, SigOps) < MAX_BLOCK_SIGOPS
      modifies this
      ensures Valid() && WithinLimits() && inBlock == old(inBlock) + package && old(vtx) <= vtx
      ensures lastFewTxs == old(lastFewTxs) && blockFinished == old(blockFinished)
      ensures nBlockSize == old(nBlockSize) + Total(pool, package, Size)
      ensures nBlockSigOps == old(nBlockSigOps) + Total(pool, package, SigOps)
      ensures TableOk(pool, inBlock, failed, t) && table.Keys - package <= t.Keys
    {
      hide WellFormed, BlockOk, ByAncestorCount, Total, TableOk, SubtractedAll, NoRepeats;
      ghost var start := inBlock;
      BlockIsClosed(pool, vtx, inBlock, nBlockSize, nBlockSigOps, nFees, nBlockTx);
      ghost var size, sigOps := nBlockSize, nBlockSigOps;
      BlockTotals(pool, vtx, inBlock, nBlockSize, nBlockSigOps, nFees, nBlockTx);
      DisjointTotals(pool, start, package);
      var sorted := SortForBlock(pool, package);
      var erased := AddSorted(sorted, iter, table);
      BlockTotals(pool, vtx, inBlock, nBlockSize, nBlockSigOps, nFees, nBlockTx);
      t := UpdatePackagesForAdded(pool, erased, package);
      UpdateKeepsTable(pool, start, package, failed, table, erased, t);
      RowsStay(pool, erased, t, package, start, failed, table);
    }

    /** What addPackageTxs knows of the package it considers: the totals it tests never
        under-estimate what would be added. */
    ghost predicate Considered(iter: Tx, m: Mod)
      reads this
    {
      && iter in pool && iter !in inBlock && Package(pool, iter) <= pool.Keys
      && Covers(m, Total(pool, Rest(pool, inBlock, iter), Size), Total(pool, Rest(pool, inBlock, iter), SigOps))
    }

    /** Test the package of iter and, if it passes, add it. */
    method TryPackage(iter: Tx, m: Mod, table: Table, ghost failed: set<Tx>) returns (added: bool, t: Table)
      requires Valid() && WithinLimits() && Considered(iter, m) && TableOk(pool, inBlock, failed, table)
      modifies this
      ensures Valid() && WithinLimits() && old(vtx) <= vtx && TableOk(pool, inBlock, failed, t)
      ensures lastFewTxs == old(lastFewTxs) && blockFinished == old(blockFinished)
      ensures added ==>
        var package := Rest(pool, old(inBlock), iter);
        && AllFinal(pool, package) && inBlock == old(inBlock) + package
        && nBlockSize == old(nBlockSize) + Total(pool, package, Size)
        && nBlockSigOps == old(nBlockSigOps) + Total(pool, package, SigOps)
        && table.Keys - package <= t.Keys && nBlockSize < DEFAULT_BLOCK_MAX_SIZE
      ensures !added ==> t == table && vtx == old(vtx) && inBlock == old(inBlock)
                         && nBlockSize == old(nBlockSize) && nBlockSigOps == old(nBlockSigOps)
      ensures
        var rest := Rest(pool, old(inBlock), iter);
        !added && Exact(m, Total(pool, rest, Size), Total(pool, rest, SigOps)) ==>
        Unfit(pool, inBlock, nBlockSize, nBlockSigOps, nBlockMaxSize, iter)
      ensures added <==>
        && old(PackageFits(m.size, m.sigOps))
        && Passes(pool, old(nBlockSize), nBlockMaxSize, Rest(pool, old(inBlock), iter))
    {
      hide WellFormed, BlockOk, Total, TableOk, AllFinal;
      added, t := false, table;
      var fits := TestPackage(m.size, m.sigOps);
      if !fits { return; }
      var package := OnlyUnconfirmed(pool[iter].ancestors);
      package := package + {iter};
      assert package == Rest(pool, inBlock, iter);
      var good := TestPackageTransactions(package);
      if !good { return; }
      t := AddPackage(package, iter, table, failed);
      added := true;
    }

    ghost function Block(): Filled
      reads this
    {
      Filled(inBlock, nBlockSize, nBlockSigOps)
    }

    /** The rest of a turn of the loop, once the candidate is chosen and pays enough. */
    method Consider(iter: Tx, m: Mod, usingModified: bool, table: Table, failed: set<Tx>, ghost walk: seq<Tx>,
                    ghost mi: int, ghost start: set<Tx>, ghost gone: set<Tx>)
      returns (t: Table, f: set<Tx>)
      requires Valid() && WithinLimits() && TableOk(pool, inBlock, failed, table)
      requires DealtWith(pool, nBlockMaxSize, Block(), walk, mi, table, failed)
      requires Considered(iter, m) && (usingModified ==> iter in table)
      requires Told(pool, inBlock, failed, iter, gone, m) && m.modFees >= minFee(m.size)
      requires AllPaid(pool, minFee, start, inBlock)
      requires iter !in failed ==>
        Exact(m, Total(pool, Rest(pool, inBlock, iter), Size), Total(pool, Rest(pool, inBlock, iter), SigOps))
      modifies this
      ensures Valid() && WithinLimits() && TableOk(pool, inBlock, f, t) && old(vtx) <= vtx
      ensures lastFewTxs == old(lastFewTxs) && blockFinished == old(blockFinished)
      ensures AllPaid(pool, minFee, start, inBlock)
      ensures Block() == old(Block()) || nBlockSize < DEFAULT_BLOCK_MAX_SIZE
      ensures DealtWith(pool, nBlockMaxSize, Block(), walk, mi, t, f) && Settled(pool, nBlockMaxSize, Block(), iter)
      ensures if inBlock == old(inBlock)
              then (if usingModified then Rows(t) < Rows(table) else t == table && f == failed)
              else Missing(pool, inBlock) < Missing(pool, old(inBlock))
    {
      hide Missing, Rows;
      hide WellFormed, BlockOk, TableOk, Total, PackageFits, RowOk, Unfit, Passes, AllFinal, DealtWith, WithinLimits;
      hide AllPaid, Told;
      ghost var b := Block();
      FailedSettled(pool, nBlockMaxSize, b, walk, mi, table, failed);
      var added: bool;
      f := failed;
      added, t := TryPackage(iter, m, table, failed);
      if added {
        AllPaidAdded(pool, minFee, start, b.txs, inBlock, failed, iter, gone, m);
        BlockTotals(pool, vtx, inBlock, nBlockSize, nBlockSigOps, nFees, nBlockTx);
        Progress(pool, b.txs, inBlock, iter);
        DealtWithAdded(pool, nBlockMaxSize, b, walk, mi, table, failed, Rest(pool, b.txs, iter), Block(), t);
      } else if usingModified {
        FailedKeepsTable(pool, inBlock, failed, table, iter);
        DealtWithFailed(pool, nBlockMaxSize, b, walk, mi, table, failed, iter);
        RowGone(table, iter);
        t := table - {iter};
        f := failed + {iter};
      }
    }

    /** A turn of the loop of addPackageTxs, once the candidate is chosen. */
    method Evaluate(iter: Tx, usingModified: bool, table: Table, failed: set<Tx>, ghost walk: seq<Tx>, ghost mi: int,
                    ghost start: set<Tx>)
      returns (paid: bool, t: Table, f: set<Tx>)
      requires Valid() && WithinLimits() && TableOk(pool, inBlock, failed, table) && Elems(walk) <= pool.Keys
      requires DealtWith(pool, nBlockMaxSize, Block(), walk, mi, table, failed)
      requires AllPaid(pool, minFee, start, inBlock)
      requires if usingModified then iter in table
               else iter in walk && iter !in table && iter !in inBlock && iter !in failed
      modifies this
      ensures Valid() && WithinLimits() && old(vtx) <= vtx
      ensures lastFewTxs == old(lastFewTxs) && blockFinished == old(blockFinished)
      ensures AllPaid(pool, minFee, start, inBlock)
      ensures Block() == old(Block()) || nBlockSize < DEFAULT_BLOCK_MAX_SIZE
      ensures !paid ==> exists x, gone, m :: Underpaid(pool, minFee, nBlockMaxSize, Block(), x, gone, m)
      ensures paid ==>
        && TableOk(pool, inBlock, f, t) && DealtWith(pool, nBlockMaxSize, Block(), walk, mi, t, f)
        && Settled(pool, nBlockMaxSize, Block(), iter)
      ensures paid ==>
        if inBlock == old(inBlock)
        then (if usingModified then Rows(t) < Rows(table) else t == table && f == failed)
        else Missing(pool, inBlock) < Missing(pool, old(inBlock))
    {
      hide Missing, Rows;
      hide WellFormed, BlockOk, TableOk, Total, Settled, DealtWith, WithinLimits, Elems, Covers, Told, Left, Underpaid;
      hide AllPaid;
      ghost var gone := ConsideredRow(pool, inBlock, failed, table, walk, iter, usingModified);
      var m := if usingModified then table[iter] else Cached(pool[iter]);
      if m.modFees < minFee(m.size) {
        PaysTooLittle(pool, minFee, nBlockMaxSize, Block(), walk, mi, table, failed, iter, gone, m);
        return false, table, failed;
      }
      paid := true;
      t, f := Consider(iter, m, usingModified, table, failed, walk, mi, start, gone);
    }

    /** One turn of the loop of addPackageTxs: skip a transaction already dealt with, or take the
        next one of the walk or the best one of the table. */
    method Turn(walk: seq<Tx>, mi: int, table: Table, failed: set<Tx>, ghost start: set<Tx>)
      returns (stop: bool, next: int, t: Table, f: set<Tx>)
      requires Valid() && WithinLimits() && TableOk(pool, inBlock, failed, table) && Elems(walk) <= pool.Keys
      requires 0 <= mi <= |walk| && (mi < |walk| || table.Keys != {})
      requires DealtWith(pool, nBlockMaxSize, Block(), walk, mi, table, failed)
      requires AllPaid(pool, minFee, start, inBlock)
      modifies this
      ensures Valid() && WithinLimits() && old(vtx) <= vtx
      ensures lastFewTxs == old(lastFewTxs) && blockFinished == old(blockFinished)
      ensures AllPaid(pool, minFee, start, inBlock)
      ensures Block() == old(Block()) || nBlockSize < DEFAULT_BLOCK_MAX_SIZE
      ensures stop ==> exists x, gone, m :: Underpaid(pool, minFee, nBlockMaxSize, Block(), x, gone, m)
      ensures !stop ==>
        && TableOk(pool, inBlock, f, t) && mi <= next <= |walk|
        && DealtWith(pool, nBlockMaxSize, Block(), walk, next, t, f)
      ensures !stop ==>
        || Missing(pool, inBlock) < Missing(pool, old(inBlock))
        || (inBlock == old(inBlock) && (next > mi || Rows(t) < Rows(table)))
    {
      hide Missing, Rows;
      hide WellFormed, BlockOk, TableOk, Total, Settled, DealtWith, WithinLimits, Elems, Underpaid, AllPaid;
      stop, next, t, f := false, mi, table, failed;
      if mi < |walk| && (walk[mi] in table || walk[mi] in inBlock || walk[mi] in failed) {
        DealtWithNext(pool, nBlockMaxSize, Block(), walk, mi, table, failed);
        next := mi + 1;
        return;
      }
      var usingModified := mi == |walk|;
      if mi < |walk| && table.Keys != {} {
        // whether the best entry of the table has the higher score
        usingModified := *;
      }
      var iter: Tx;
      if usingModified { iter :| iter in table.Keys; } else { iter := walk[mi]; }
      var paid: bool;
      paid, t, f := Evaluate(iter, usingModified, table, failed, walk, mi, start);
      stop := !paid;
      if paid && !usingModified {
        DealtWithNext(pool, nBlockMaxSize, Block(), walk, mi, t, f);
        next := mi + 1;
      }
    }

    /** addPackageTxs. `walk` is the pool in whatever order its ancestor-score index has.
        It ends in one of two ways: everything in the walk is in the block or cannot be added
        with what it depends on, or some candidate's package pays less than the relay fee. */
    method AddPackageTxs(walk: seq<Tx>) returns (complete: bool)
      requires Valid() && WithinLimits() && Elems(walk) <= pool.Keys
      modifies this
      ensures Valid() && WithinLimits() && old(vtx) <= vtx
      ensures lastFewTxs == old(lastFewTxs) && blockFinished == old(blockFinished)
      ensures AllPaid(pool, minFee, old(inBlock), inBlock)
      ensures Block() == old(Block()) || nBlockSize < DEFAULT_BLOCK_MAX_SIZE
      ensures complete ==> forall x :: x in walk ==> Settled(pool, nBlockMaxSize, Block(), x)
      ensures !complete ==> exists x, gone, m :: Underpaid(pool, minFee, nBlockMaxSize, Block(), x, gone, m)
    {
      hide Missing, Rows;
      hide WellFormed, BlockOk, TableOk, Total, Settled, DealtWith, WithinLimits, Elems, Covers, Told, Left, Underpaid;
      hide AllPaid;
      AllPaidNone(pool, minFee, inBlock);
      BlockIsClosed(pool, vtx, inBlock, nBlockSize, nBlockSigOps, nFees, nBlockTx);
      var failed: set<Tx> := {};
      var table := UpdatePackagesForAdded(pool, map[], inBlock);
      FirstTable(pool, inBlock, table);
      var mi := 0;
      DealtWithNone(pool, nBlockMaxSize, Block(), walk, table);
      while mi < |walk| || table.Keys != {}
        invariant Valid() && WithinLimits() && TableOk(pool, inBlock, failed, table) && old(vtx) <= vtx
          && 0 <= mi <= |walk|
        invariant lastFewTxs == old(lastFewTxs) && blockFinished == old(blockFinished)
        invariant AllPaid(pool, minFee, old(inBlock), inBlock)
        invariant Block() == old(Block()) || nBlockSize < DEFAULT_BLOCK_MAX_SIZE
        invariant DealtWith(pool, nBlockMaxSize, Block(), walk, mi, table, failed)
        decreases Missing(pool, inBlock), |walk| - mi, Rows(table)
      {
        var stop: bool;
        stop, mi, table, failed := Turn(walk, mi, table, failed, old(inBlock));
        if stop { return false; }
      }
      DealtWithAll(pool, nBlockMaxSize, Block(), walk, table, failed);
      return true;
    }

    /** Add a transaction that fits and has all its parents in the block. */
    method AddFitting(iter: Tx, ghost proofOfStake: bool, ghost blockTime: int, ghost vec: set<Tx>, ghost wait: set<Tx>)
      requires Valid() && iter in vec && iter in pool && FitsBlock(iter) && pool[iter].parents <= inBlock
      requires Tried(pool, nBlockMaxSize, Block(), proofOfStake, blockTime, vec, wait)
      modifies this
      ensures Valid() && WithinLimits() && blockFinished == old(blockFinished) && lastFewTxs == old(lastFewTxs)
      ensures nBlockSize >= old(nBlockSize)
      ensures vtx == old(vtx) + [iter] && Missing(pool, inBlock) < Missing(pool, old(inBlock))
      ensures var woken := Children(pool, iter) * wait;
        Tried(pool, nBlockMaxSize, Block(), proofOfStake, blockTime, vec - {iter} + woken, wait - woken)
    {
      hide Missing, Rows;
      hide WellFormed, BlockOk, Total, Tried;
      ghost var before := inBlock;
      BlockIsClosed(pool, vtx, inBlock, nBlockSize, nBlockSigOps, nFees, nBlockTx);
      TriedMeans(pool, nBlockMaxSize, Block(), proofOfStake, blockTime, vec, wait);
      TriedAdded(pool, nBlockMaxSize, Block(), proofOfStake, blockTime, vec, wait, iter);
      ParentsSuffice(pool, inBlock, iter);
      AddToBlock(iter);
      BlockTotals(pool, vtx, inBlock, nBlockSize, nBlockSigOps, nFees, nBlockTx);
      Progress(pool, before, inBlock, iter);
    }

    /** The block is finished now only if it is full, and the count only grows when little room is left. */
    predicate EndsRightly(finished: bool, count: int)
      reads this
    {
      && (blockFinished ==> finished || nBlockSize > nBlockMaxSize - 100 || lastFewTxs > 50
                            || nBlockSigOps > MAX_BLOCK_SIGOPS - 2)
      && lastFewTxs >= count && (lastFewTxs > count ==> nBlockSize > nBlockMaxSize - 1000)
    }

    /** A turn of the loop of addPriorityTxs up to the point where the transaction is added. */
    method TryPriority(iter: Tx, proofOfStake: bool, blockTime: int, ghost vec: set<Tx>, wait: set<Tx>)
      returns (added: bool, w: set<Tx>)
      requires Valid() && WithinLimits() && iter in vec
      requires Tried(pool, nBlockMaxSize, Block(), proofOfStake, blockTime, vec, wait)
      modifies this
      ensures Valid() && WithinLimits()
      ensures added ==>
        && Timely(pool, proofOfStake, blockTime, [iter]) && nBlockSize >= old(nBlockSize)
        && blockFinished == old(blockFinished) && lastFewTxs == old(lastFewTxs)
      ensures !added ==> EndsRightly(old(blockFinished), old(lastFewTxs))
      ensures added ==> w == wait && vtx == old(vtx) + [iter] && Missing(pool, inBlock) < Missing(pool, old(inBlock))
      ensures added ==> var woken := Children(pool, iter) * wait;
                        Tried(pool, nBlockMaxSize, Block(), proofOfStake, blockTime, vec - {iter} + woken, wait - woken)
      ensures !added ==> Block() == old(Block()) && vtx == old(vtx)
      ensures !added ==> Tried(pool, nBlockMaxSize, Block(), proofOfStake, blockTime, vec - {iter}, w)
    {
      hide Missing, Rows;
      hide WellFormed, BlockOk, Tried, Rejected, Total, Timely, Children;
      added, w := false, wait;
      TriedMeans(pool, nBlockMaxSize, Block(), proofOfStake, blockTime, vec, wait);
      TriedSetAside(pool, nBlockMaxSize, Block(), proofOfStake, blockTime, vec, wait, iter);
      assert iter !in inBlock;
      if proofOfStake && blockTime < pool[iter].time { return; }
      var dependent := IsStillDependent(iter);
      if dependent {
        w := wait + {iter};
        return;
      }
      var fits := TestForBlock(iter);
      FitsMeans(pool, nBlockMaxSize, Block(), iter);
      if !fits { return; }
      TimelyOne(pool, proofOfStake, blockTime, iter);
      AddFitting(iter, proofOfStake, blockTime, vec, wait);
      added := true;
    }

    /** addPriorityTxs. The priority queue hands out any candidate. It ends because the block
        is finished or has its share of priority transactions, or with every transaction in
        the block or excused. */
    method AddPriorityTxs(prioritySize: nat, proofOfStake: bool, blockTime: int, allowFree: Tx -> bool)
      returns (stopped: bool)
      requires Valid() && inBlock == {}
      modifies this
      ensures Valid() && WithinLimits() && old(vtx) <= vtx
      ensures old(!blockFinished && lastFewTxs == 0) ==>
        PriorityPhase(pool, nBlockMaxSize, prioritySize, proofOfStake, blockTime, allowFree, vtx, lastFewTxs, stopped)
      ensures prioritySize == 0 ==> stopped && vtx == old(vtx)
      ensures prioritySize > 0 && !stopped ==>
        forall x :: x in pool ==> x in inBlock || Excused(pool, nBlockMaxSize, Block(), proofOfStake, blockTime, x)
      ensures prioritySize > 0 && stopped ==>
        blockFinished || (vtx != [] &&
          (nBlockSize >= prioritySize || nBlockSize >= nBlockMaxSize || !allowFree(vtx[|vtx| - 1])))
    {
      hide Missing, Rows;
      hide WellFormed, BlockOk, Total, Tried, Excused, Timely, PhaseOpen, FilledWith, PriorityPhase;
      hide Elems, Children;
      BlockLists(pool, vtx, inBlock, nBlockSize, nBlockSigOps, nFees, nBlockTx);
      PhaseStarts(pool, nBlockMaxSize, prioritySize, proofOfStake, blockTime, allowFree, lastFewTxs);
      var share := if prioritySize < nBlockMaxSize then prioritySize else nBlockMaxSize;
      if share == 0 { return true; }
      var vec, wait := pool.Keys, {};
      TriedNone(pool, nBlockMaxSize, Block(), proofOfStake, blockTime);
      while vec != {} && !blockFinished
        invariant Valid() && WithinLimits() && old(vtx) <= vtx
        invariant PhaseOpen(pool, prioritySize, proofOfStake, blockTime, allowFree, vtx)
        invariant EndsRightly(old(blockFinished), old(lastFewTxs))
        invariant Tried(pool, nBlockMaxSize, Block(), proofOfStake, blockTime, vec, wait)
        decreases Missing(pool, inBlock), |vec|
      {
        var iter :| iter in vec;
        ghost var listed := vtx;
        var added, w := TryPriority(iter, proofOfStake, blockTime, vec, wait);
        vec, wait := vec - {iter}, w;
        if added {
          BlockLists(pool, vtx, inBlock, nBlockSize, nBlockSigOps, nFees, nBlockTx);
          PhaseAdds(pool, nBlockMaxSize, prioritySize, proofOfStake, blockTime, allowFree, listed, iter, lastFewTxs);
          if nBlockSize >= share || !allowFree(iter) { return true; }
          vec, wait := WakeChildren(iter, vec, wait);
        }
      }
      BlockLists(pool, vtx, inBlock, nBlockSize, nBlockSigOps, nFees, nBlockTx);
      PhaseEnds(pool, nBlockMaxSize, prioritySize, proofOfStake, blockTime, allowFree, vtx, lastFewTxs);
      if blockFinished { return true; }
      TriedMeans(pool, nBlockMaxSize, Block(), proofOfStake, blockTime, vec, wait);
      return false;
    }

    /** The waiting children of a transaction just added go back in the queue. */
    method WakeChildren(iter: Tx, vec: set<Tx>, wait: set<Tx>) returns (v: set<Tx>, w: set<Tx>)
      ensures v == vec + Children(pool, iter) * wait && w == wait - Children(pool, iter) * wait
    {
      hide Children;
      v, w := vec, wait;
      var todo := Children(pool, iter);
      while todo != {}
        invariant todo <= Children(pool, iter)
        invariant v == vec + (Children(pool, iter) - todo) * wait && w == wait - (Children(pool, iter) - todo) * wait
        decreases |todo|
      {
        var c :| c in todo;
        if c in w {
          v := v + {c};
          w := w - {c};
        }
        todo := todo - {c};
      }
    }

    /** resetBlock. */
    method ResetBlock()
      requires WellFormed(pool) && 1000 <= nBlockMaxSize <= MAX_BLOCK_SIZE - 1000
      modifies this
      ensures Valid() && WithinLimits() && vtx == [] && inBlock == {} && lastFewTxs == 0 && !blockFinished
    {
      hide WellFormed, BlockOk;
      EmptyBlockOk(pool);
      vtx, inBlock := [], {};
      nBlockSize, nBlockSigOps, nBlockTx, nFees := 1000, 100, 0, 0;
      lastFewTxs, blockFinished := 0, false;
    }

    /** The selection part of CreateNewBlock: whatever the configuration, the pool and the
        choices made on the way, the block it lists has no repeats, has every transaction
        after all its in-pool parents, is accounted for exactly, and keeps within the limits. */
    method SelectTransactions(prioritySize: nat, proofOfStake: bool, blockTime: int, allowFree: Tx -> bool,
                              walk: seq<Tx>)
      returns (complete: bool, ghost first: nat, ghost stopped: bool)
      requires WellFormed(pool) && 1000 <= nBlockMaxSize <= MAX_BLOCK_SIZE - 1000 && Elems(walk) == pool.Keys
      modifies this
      ensures first <= |vtx| && Elems(vtx[..first]) <= pool.Keys
      ensures PriorityPhase(pool, nBlockMaxSize, prioritySize, proofOfStake, blockTime, allowFree, vtx[..first],
                lastFewTxs, stopped)
      ensures forall k :: first <= k < |vtx| ==>
        vtx[k] in pool && pool[vtx[k]].isFinal && Paid(pool, minFee, inBlock, vtx[k])
      ensures first < |vtx| ==> nBlockSize < DEFAULT_BLOCK_MAX_SIZE
      ensures prioritySize == 0 && Free(pool, minFee) ==> vtx == []
      ensures NoRepeats(vtx) && InOrder(pool, vtx) && inBlock == Elems(vtx) && inBlock <= pool.Keys
      ensures nBlockSize == 1000 + Total(pool, inBlock, Size) && nBlockSigOps == 100 + Total(pool, inBlock, SigOps)
      ensures nFees == Total(pool, inBlock, Fee) && nBlockTx == |vtx|
      ensures vtx != [] ==> nBlockSize < nBlockMaxSize && nBlockSigOps < MAX_BLOCK_SIGOPS
      ensures complete ==> forall x :: x in pool ==> Settled(pool, nBlockMaxSize, Block(), x)
      ensures !complete ==> exists x, gone, m :: Underpaid(pool, minFee, nBlockMaxSize, Block(), x, gone, m)
    {
      hide WellFormed, Total, Settled, InOrder, NoRepeats, Underpaid, PriorityPhase, AllPaid, Free;
      ResetBlock();
      stopped := AddPriorityTxs(prioritySize, proofOfStake, blockTime, allowFree);
      ghost var listed := vtx;
      first := |vtx|;
      complete := AddPackageTxs(walk);
      assert vtx[..first] == listed;
      LatePaid(pool, minFee, vtx, first);
      assert vtx != [] ==> vtx[0] in inBlock;
      forall x | x in pool ensures x in walk { assert x in Elems(walk); }
    }
  }

  /** What follows the priority transactions in the list was paid for. */
  lemma LatePaid(p: Pool, minFee: int -> int, vtx: seq<Tx>, first: nat)
    requires first <= |vtx| && NoRepeats(vtx) && AllPaid(p, minFee, Elems(vtx[..first]), Elems(vtx))
    ensures forall k :: first <= k < |vtx| ==>
              vtx[k] in p && p[vtx[k]].isFinal && Paid(p, minFee, Elems(vtx), vtx[k])
    ensures Elems(vtx) == Elems(vtx[..first]) ==> first == |vtx|
    ensures first == 0 && Free(p, minFee) ==> vtx == []
  {
    hide Paid, Free;
    forall k | first <= k < |vtx|
      ensures vtx[k] in p && p[vtx[k]].isFinal && Paid(p, minFee, Elems(vtx), vtx[k])
    {
      assert vtx[k] in Elems(vtx) && vtx[k] !in Elems(vtx[..first]);
    }
    if first < |vtx| { assert vtx[first] in Elems(vtx) && vtx[first] !in Elems(vtx[..first]); }
    if first == 0 && Free(p, minFee) && vtx != [] { FreeIsUnpaid(p, minFee, Elems(vtx), vtx[0]); }
  }

  lemma BlockLists(p: Pool, vtx: seq<Tx>, inBlock: set<Tx>, size: int, sigOps: int, fees: int, count: int)
    requires BlockOk(p, vtx, inBlock, size, sigOps, fees, count)
    ensures Elems(vtx) <= p.Keys && FilledWith(p, vtx) == Filled(inBlock, size, sigOps)
    ensures inBlock == {} ==> vtx == []
    ensures forall x :: x in vtx <==> x in inBlock
  {
    if vtx != [] { assert vtx[0] in Elems(vtx); }
  }

  lemma TimelyOne(p: Pool, pos: bool, time: int, x: Tx)
    requires x in p && p[x].isFinal && !(pos && time < p[x].time)
    ensures Timely(p, pos, time, [x])
  {
  }

  lemma PhaseStarts(p: Pool, limit: int, share: int, pos: bool, time: int, free: Tx -> bool, lastFew: int)
    ensures share == 0 ==> PriorityPhase(p, limit, share, pos, time, free, [], lastFew, true)
    ensures PhaseOpen(p, share, pos, time, free, [])
  {
  }

  /** One transaction more: either the share is used up with it, or it is still open. */
  lemma PhaseAdds(p: Pool, limit: int, share: int, pos: bool, time: int, free: Tx -> bool, s: seq<Tx>, x: Tx,
                  lastFew: int)
    requires share > 0 && Elems(s + [x]) <= p.Keys
    requires PhaseOpen(p, share, pos, time, free, s) && Timely(p, pos, time, [x])
    ensures
      var b := FilledWith(p, s + [x]);
      if b.size >= share || b.size >= limit || !free(x)
      then PriorityPhase(p, limit, share, pos, time, free, s + [x], lastFew, true)
      else PhaseOpen(p, share, pos, time, free, s + [x])
  {
    hide Total;
    var r := s + [x];
    assert r[..|r| - 1] == s && r[|r| - 1] == x;
    forall y | y in r ensures y in s || y in [x] { }
  }

  /** Nothing left to try, or the block full. */
  lemma PhaseEnds(p: Pool, limit: int, share: int, pos: bool, time: int, free: Tx -> bool, s: seq<Tx>, lastFew: int)
    requires share > 0 && Elems(s) <= p.Keys && PhaseOpen(p, share, pos, time, free, s)
    ensures Full(limit, FilledWith(p, s), lastFew) ==>
      PriorityPhase(p, limit, share, pos, time, free, s, lastFew, true)
    ensures (forall x :: x in p ==> x in s || Excused(p, limit, FilledWith(p, s), pos, time, x)) ==>
      PriorityPhase(p, limit, share, pos, time, free, s, lastFew, false)
  {
    hide Excused, FilledWith, Full, Timely;
    if s != [] { ShareOpenBefore(p, share, free, s); }
  }

  lemma ShareOpenBefore(p: Pool, share: int, free: Tx -> bool, s: seq<Tx>)
    requires s != [] && Elems(s) <= p.Keys && ShareOpen(p, share, free, s)
    ensures Elems(s[..|s| - 1]) <= p.Keys && ShareOpen(p, share, free, s[..|s| - 1])
  {
    hide Total;
    var t := s[..|s| - 1];
    forall x | x in t ensures x in s { }
    TotalMonotone(p, Elems(t), Elems(s), Size);
  }

  lemma TriedNone(p: Pool, limit: int, b: Filled, pos: bool, time: int)
    requires b.txs == {}
    ensures Tried(p, limit, b, pos, time, p.Keys, {})
  {
  }

  lemma TriedMeans(p: Pool, limit: int, b: Filled, pos: bool, time: int, vec: set<Tx>, wait: set<Tx>)
    requires Tried(p, limit, b, pos, time, vec, wait)
    ensures vec <= p.Keys && vec !! b.txs
    ensures vec == {} ==> forall x :: x in p ==> x in b.txs || Excused(p, limit, b, pos, time, x)
  {
  }

  lemma FitsMeans(p: Pool, limit: int, b: Filled, x: Tx)
    requires x in p
    ensures Rejected(p, limit, b, x) <==>
      !(b.size + p[x].size < limit && b.sigOps + p[x].sigOps < MAX_BLOCK_SIGOPS && p[x].isFinal)
  {
  }

  lemma FailedSettled(p: Pool, limit: int, b: Filled, walk: seq<Tx>, mi: int, table: Table, failed: set<Tx>)
    requires DealtWith(p, limit, b, walk, mi, table, failed)
    ensures forall x :: x in failed ==> Settled(p, limit, b, x)
  {
  }

  lemma DealtWithNone(p: Pool, limit: int, b: Filled, walk: seq<Tx>, table: Table)
    ensures DealtWith(p, limit, b, walk, 0, table, {})
  {
  }

  lemma RowsStay(p: Pool, before: Table, t: Table, added: set<Tx>, inBlock: set<Tx>, failed: set<Tx>, full: Table)
    requires WellFormed(p) && TableOk(p, inBlock, failed, full) && before == full - added && added <= p.Keys
    requires SubtractedAll(p, before, t, added, added)
    ensures full.Keys - added <= t.Keys
  {
    hide WellFormed, Total;
    forall d | d in full && d !in added ensures d in t {
      assert RowAfter(p, before, t, d, p[d].ancestors * added);
    }
  }

  lemma AllUnfitStay(p: Pool, inBlock: set<Tx>, size: int, sigOps: int, limit: int, added: set<Tx>)
    requires added <= p.Keys && added !! inBlock && AllFinal(p, added)
    ensures forall x :: x in p && Package(p, x) <= p.Keys && Unfit(p, inBlock, size, sigOps, limit, x) ==>
      Unfit(p, inBlock + added, size + Total(p, added, Size), sigOps + Total(p, added, SigOps), limit, x)
  {
    hide Total, Unfit, AllFinal;
    forall x | x in p && Package(p, x) <= p.Keys && Unfit(p, inBlock, size, sigOps, limit, x)
      ensures Unfit(p, inBlock + added, size + Total(p, added, Size), sigOps + Total(p, added, SigOps), limit, x)
    {
      UnfitStays(p, inBlock, size, sigOps, limit, added, x);
    }
  }

  lemma Progress(p: Pool, before: set<Tx>, after: set<Tx>, x: Tx)
    requires before <= after <= p.Keys && x in after && x !in before
    ensures Missing(p, after) < Missing(p, before)
  {
    SubsetSize(p.Keys - after, p.Keys - before - {x});
  }

  lemma RowGone(t: Table, x: Tx)
    requires x in t
    ensures Rows(t - {x}) < Rows(t)
  {
    assert (t - {x}).Keys == t.Keys - {x};
  }

  /** The table addPackageTxs starts from. */
  lemma FirstTable(p: Pool, inBlock: set<Tx>, t: Table)
    requires WellFormed(p) && Closed(p, inBlock) && SubtractedAll(p, map[], t, inBlock, inBlock)
    ensures TableOk(p, inBlock, {}, t)
  {
    hide WellFormed, Total, TableOk, SubtractedAll;
    EmptyTableOk(p);
    var none: Table := map[];
    assert none - inBlock == none;
    UpdateKeepsTable(p, {}, inBlock, {}, none, none, t);
    assert {} + inBlock == inBlock;
  }

  /** The totals of a candidate, from the table or from the pool. */
  lemma ConsideredRow(p: Pool, inBlock: set<Tx>, failed: set<Tx>, t: Table, walk: seq<Tx>, iter: Tx,
                      usingModified: bool)
    returns (gone: set<Tx>)
    requires WellFormed(p) && TableOk(p, inBlock, failed, t) && Elems(walk) <= p.Keys
    requires if usingModified then iter in t else iter in walk && iter !in t && iter !in inBlock && iter !in failed
    ensures iter in p && iter !in inBlock && Package(p, iter) <= p.Keys
    ensures var m := if usingModified then t[iter] else Cached(p[iter]);
      && Told(p, inBlock, failed, iter, gone, m)
      && Covers(m, Total(p, Rest(p, inBlock, iter), Size), Total(p, Rest(p, inBlock, iter), SigOps))
      && (iter !in failed ==>
           Exact(m, Total(p, Rest(p, inBlock, iter), Size), Total(p, Rest(p, inBlock, iter), SigOps)))
  {
    hide WellFormed, Total, Told;
    assert iter in walk ==> iter in Elems(walk);
    gone := RowBase(p, inBlock, failed, t, iter);
    ToldCovers(p, inBlock, failed, iter, gone, Base(p, t, iter));
  }

  lemma PaysTooLittle(p: Pool, minFee: int -> int, limit: int, b: Filled, walk: seq<Tx>, mi: int, table: Table,
                      failed: set<Tx>, x: Tx, gone: set<Tx>, m: Mod)
    requires DealtWith(p, limit, b, walk, mi, table, failed)
    requires x in p && x !in b.txs && Package(p, x) <= p.Keys && Told(p, b.txs, failed, x, gone, m)
    requires m.modFees < minFee(m.size)
    ensures Underpaid(p, minFee, limit, b, x, gone, m)
  {
    hide Left, Settled;
  }

  lemma BlockIsClosed(p: Pool, vtx: seq<Tx>, inBlock: set<Tx>, size: int, sigOps: int, fees: int, count: int)
    requires BlockOk(p, vtx, inBlock, size, sigOps, fees, count)
    ensures Closed(p, inBlock)
  {
    InOrderClosed(p, vtx);
  }

  lemma BlockTotals(p: Pool, vtx: seq<Tx>, inBlock: set<Tx>, size: int, sigOps: int, fees: int, count: int)
    requires BlockOk(p, vtx, inBlock, size, sigOps, fees, count)
    ensures inBlock <= p.Keys && size == 1000 + Total(p, inBlock, Size) && sigOps == 100 + Total(p, inBlock, SigOps)
  {
  }

  lemma DisjointTotals(p: Pool, a: set<Tx>, b: set<Tx>)
    requires a <= p.Keys && b <= p.Keys && a !! b
    ensures Total(p, a + b, Size) == Total(p, a, Size) + Total(p, b, Size)
    ensures Total(p, a + b, SigOps) == Total(p, a, SigOps) + Total(p, b, SigOps)
  {
    TotalSplit(p, a + b, b, Size);
    TotalSplit(p, a + b, b, SigOps);
    assert a + b - b == a;
  }

  lemma ElemsEmpty(s: seq<Tx>)
    ensures Elems(s[..0]) == {}
  {
  }

  lemma ElemsPrefix(s: seq<Tx>, i: nat)
    requires i < |s|
    ensures Elems(s[..i + 1]) == Elems(s[..i]) + {s[i]} && s[..i + 1] == s[..i] + [s[i]]
    ensures s[i] in Elems(s)
  {
    ElemsAppend(s[..i], s[i]);
    assert s[..i + 1] == s[..i] + [s[i]];
  }

  lemma FirstSeen(s: seq<Tx>, i: nat)
    requires i < |s| && NoRepeats(s)
    ensures s[i] !in Elems(s[..i])
  {
  }
}
