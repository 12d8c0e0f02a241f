/** The mempool as block assembly sees it: a finite dependency graph whose entries carry
    correct totals over their in-pool ancestors. */
module Mempool {
  import opened Basics

  datatype Tx = Tx(id: int)

  datatype TxEntry = TxEntry(
    size: nat, sigOps: nat, fee: int, modFee: int, isFinal: bool, time: int,
    parents: set<Tx>, ancestors: set<Tx>,
    countAnc: int, sizeAnc: int, sigOpsAnc: int, modFeesAnc: int)

  type Pool = map<Tx, TxEntry>

  /** The sum of f over a set of transactions. */
  ghost function Total(p: Pool, s: set<Tx>, f: TxEntry -> int): int
    requires s <= p.Keys
  {
    if s == {} then 0 else
    var x :| x in s;
    f(p[x]) + Total(p, s - {x}, f)
  }

  lemma {:induction false} TotalRemove(p: Pool, s: set<Tx>, f: TxEntry -> int, x: Tx)
    requires s <= p.Keys && x in s
    ensures Total(p, s, f) == f(p[x]) + Total(p, s - {x}, f)
    decreases |s|
  {
    var y :| y in s && Total(p, s, f) == f(p[y]) + Total(p, s - {y}, f);
    if y != x {
      TotalRemove(p, s - {y}, f, x);
      TotalRemove(p, s - {x}, f, y);
      assert s - {x} - {y} == s - {y} - {x};
    }
  }

  lemma TotalAdd(p: Pool, s: set<Tx>, f: TxEntry -> int, x: Tx)
    requires s <= p.Keys && x in p && x !in s
    ensures Total(p, s + {x}, f) == Total(p, s, f) + f(p[x])
  {
    TotalRemove(p, s + {x}, f, x);
    assert s + {x} - {x} == s;
  }

  lemma {:induction false} TotalSplit(p: Pool, s: set<Tx>, a: set<Tx>, f: TxEntry -> int)
    requires s <= p.Keys && a <= s
    ensures Total(p, s, f) == Total(p, s - a, f) + Total(p, a, f)
    decreases |a|
  {
    if a == {} {
      assert s - a == s;
    } else {
      var x :| x in a;
      TotalRemove(p, a, f, x);
      TotalRemove(p, s, f, x);
      TotalSplit(p, s - {x}, a - {x}, f);
      assert s - {x} - (a - {x}) == s - a;
    }
  }

  lemma {:induction false} TotalNonneg(p: Pool, s: set<Tx>, f: TxEntry -> int)
    requires s <= p.Keys && forall x :: x in s ==> f(p[x]) >= 0
    ensures Total(p, s, f) >= 0
    decreases |s|
  {
    if s != {} {
      var x :| x in s;
      TotalRemove(p, s, f, x);
      TotalNonneg(p, s - {x}, f);
    }
  }

  lemma TotalMonotone(p: Pool, a: set<Tx>, s: set<Tx>, f: TxEntry -> int)
    requires a <= s <= p.Keys && forall x :: x in s ==> f(p[x]) >= 0
    ensures Total(p, a, f) <= Total(p, s, f)
  {
    TotalSplit(p, s, a, f);
    TotalNonneg(p, s - a, f);
  }

  function Size(e: TxEntry): int { e.size }
  function SigOps(e: TxEntry): int { e.sigOps }
  function Fee(e: TxEntry): int { e.fee }
  function ModFee(e: TxEntry): int { e.modFee }

  /** What prioritising has added to the fee. */
  function Delta(e: TxEntry): int { e.modFee - e.fee }

  lemma {:induction false} TotalDelta(p: Pool, s: set<Tx>)
    requires s <= p.Keys
    ensures Total(p, s, Delta) == Total(p, s, ModFee) - Total(p, s, Fee)
    decreases |s|
  {
    if s != {} {
      var x :| x in s;
      TotalRemove(p, s, Delta, x);
      TotalRemove(p, s, ModFee, x);
      TotalRemove(p, s, Fee, x);
      TotalDelta(p, s - {x});
    }
  }

  lemma TotalEmpty(p: Pool, f: TxEntry -> int)
    ensures Total(p, {}, f) == 0
  {
  }

  lemma TotalOne(p: Pool, x: Tx, f: TxEntry -> int)
    requires x in p
    ensures Total(p, {x}, f) == f(p[x])
  {
    TotalAdd(p, {}, f, x);
    assert {} + {x} == {x};
  }

  /** A block of one transaction has its size, its signature operations and its fees. */
  lemma TotalsOfOne(p: Pool, x: Tx)
    requires x in p
    ensures Total(p, {x}, Size) == p[x].size && Total(p, {x}, SigOps) == p[x].sigOps
    ensures Total(p, {x}, Fee) == p[x].fee && Total(p, {x}, ModFee) == p[x].modFee
  {
    TotalOne(p, x, Size);
    TotalOne(p, x, SigOps);
    TotalOne(p, x, Fee);
    TotalOne(p, x, ModFee);
  }

  /** A transaction with its ancestors: what has to be in a block for it to be. */
  function Package(p: Pool, x: Tx): set<Tx>
    requires x in p
  {
    p[x].ancestors + {x}
  }

  predicate ThroughParent(p: Pool, x: Tx, a: Tx)
    requires x in p
  {
    exists q :: q in p[x].parents && (q == a || (q in p && a in p[q].ancestors))
  }

  predicate LinksOk(p: Pool, x: Tx)
    requires x in p
  {
    && x !in p[x].ancestors && p[x].parents <= p[x].ancestors
    && forall a :: a in p[x].ancestors ==> a in p && p[a].ancestors <= p[x].ancestors && ThroughParent(p, x, a)
  }

  ghost predicate TotalsOk(p: Pool, x: Tx)
    requires x in p && Package(p, x) <= p.Keys
  {
    && p[x].countAnc == |Package(p, x)|
    && p[x].sizeAnc == Total(p, Package(p, x), Size)
    && p[x].sigOpsAnc == Total(p, Package(p, x), SigOps)
    && p[x].modFeesAnc == Total(p, Package(p, x), ModFee)
  }

  /** The ancestors of an entry are its parents and theirs, there are no cycles, and the
      cached totals are those of the package. */
  ghost predicate WellFormed(p: Pool) {
    forall x :: x in p ==> LinksOk(p, x) && Package(p, x) <= p.Keys && TotalsOk(p, x)
  }

  /** CalculateDescendants: the transaction itself and all that have it as an ancestor. */
  function Descendants(p: Pool, x: Tx): set<Tx> {
    set d | d in p && (d == x || x in p[d].ancestors)
  }

  function Children(p: Pool, x: Tx): set<Tx> {
    set d | d in p && x in p[d].parents
  }

  /** An ancestor's ancestor count is smaller. */
  lemma AncestorCounts(p: Pool, a: Tx, x: Tx)
    requires WellFormed(p) && x in p && a in p[x].ancestors
    ensures a in p && p[a].countAnc < p[x].countAnc
  {
    hide Total, ThroughParent;
    assert LinksOk(p, x) && TotalsOk(p, x);
    assert LinksOk(p, a) && TotalsOk(p, a);
    SubsetSize(Package(p, a), p[x].ancestors);
    assert |Package(p, x)| == |p[x].ancestors| + 1;
  }

  /** A set of transactions with all their ancestors. */
  predicate Closed(p: Pool, s: set<Tx>) {
    s <= p.Keys && forall x :: x in s ==> p[x].ancestors <= s
  }

  /** Once all parents are in a closed set, so are all ancestors. */
  lemma ParentsSuffice(p: Pool, s: set<Tx>, x: Tx)
    requires WellFormed(p) && Closed(p, s) && x in p && p[x].parents <= s
    ensures p[x].ancestors <= s
  {
    hide Total;
    assert LinksOk(p, x);
    forall a | a in p[x].ancestors ensures a in s {
      assert ThroughParent(p, x, a);
    }
  }
}
