/** mapModifiedTx: for transactions some of whose ancestors are in the block, the totals over
    the ancestors that are not. */
module PackageTable {
  import opened Mempool

  datatype Mod = Mod(size: int, modFees: int, sigOps: int)

  type Table = map<Tx, Mod>

  /** CTxMemPoolModifiedEntry's constructor: the totals the pool entry carries. */
  function Cached(e: TxEntry): Mod { Mod(e.sizeAnc, e.modFeesAnc, e.sigOpsAnc) }

  function Base(p: Pool, t: Table, d: Tx): Mod
    requires d in p
  {
    if d in t then t[d] else Cached(p[d])
  }

  /** What is left of a package once some of its transactions are in the block. */
  function Rest(p: Pool, inBlock: set<Tx>, x: Tx): set<Tx>
    requires x in p
  {
    Package(p, x) - inBlock
  }

  predicate Covers(m: Mod, size: int, sigOps: int) { m.size >= size && m.sigOps >= sigOps }

  predicate Exact(m: Mod, size: int, sigOps: int) { m.size == size && m.sigOps == sigOps }

  /** The fees of a package without some of its transactions, as the source computes them: the
      first one is taken off with its modified fee and every later one with its plain fee, so
      the deltas of the later ones stay in. */
  ghost predicate FeesLeft(p: Pool, x: Tx, gone: set<Tx>, fees: int)
    requires x in p && Package(p, x) <= p.Keys && gone <= p.Keys
  {
    if gone == {} then fees == Total(p, Package(p, x), ModFee)
    else exists first :: first in gone
           && fees == Total(p, Package(p, x) - gone, ModFee) + Total(p, gone - {first}, Delta)
  }

  /** m holds the totals of the package of x without the transactions in gone. */
  ghost predicate Left(p: Pool, x: Tx, gone: set<Tx>, m: Mod)
    requires x in p && Package(p, x) <= p.Keys && gone <= p.Keys
  {
    && Exact(m, Total(p, Package(p, x) - gone, Size), Total(p, Package(p, x) - gone, SigOps))
    && FeesLeft(p, x, gone, m.modFees)
  }

  /** m holds the totals of the package of x without some of its ancestors in the block, and
      without all of them unless x has failed before. */
  ghost predicate Told(p: Pool, inBlock: set<Tx>, failed: set<Tx>, x: Tx, gone: set<Tx>, m: Mod)
    requires x in p && Package(p, x) <= p.Keys
  {
    && gone <= p[x].ancestors * inBlock && (x !in failed ==> gone == p[x].ancestors * inBlock)
    && Left(p, x, gone, m)
  }

  /** The promise of a row: what it says is so, and something has been taken off. */
  ghost predicate RowOk(p: Pool, inBlock: set<Tx>, failed: set<Tx>, x: Tx, m: Mod)
    requires x in p && Package(p, x) <= p.Keys
  {
    exists gone :: gone != {} && Told(p, inBlock, failed, x, gone, m)
  }

  /** Such totals never under-estimate what is left of the package, and are exact unless the
      transaction has failed before. */
  lemma ToldCovers(p: Pool, inBlock: set<Tx>, failed: set<Tx>, x: Tx, gone: set<Tx>, m: Mod)
    requires x in p && Package(p, x) <= p.Keys && x !in inBlock && Told(p, inBlock, failed, x, gone, m)
    ensures var rest := Rest(p, inBlock, x);
      && Covers(m, Total(p, rest, Size), Total(p, rest, SigOps))
      && (x !in failed ==> Exact(m, Total(p, rest, Size), Total(p, rest, SigOps)))
  {
    hide Total, FeesLeft;
    var rest := Rest(p, inBlock, x);
    TotalMonotone(p, rest, Package(p, x) - gone, Size);
    TotalMonotone(p, rest, Package(p, x) - gone, SigOps);
    if x !in failed { assert Package(p, x) - gone == rest; }
  }

  /** The deltas of all but the first cancel whichever is first exactly when at most one was taken
      off or none has a delta. */
  lemma DeltasCancelIff(p: Pool, gone: set<Tx>)
    requires gone <= p.Keys
    ensures (forall first :: first in gone ==> Total(p, gone - {first}, Delta) == 0) <==>
      |gone| <= 1 || forall a :: a in gone ==> Delta(p[a]) == 0
  {
    hide Total;
    if forall a :: a in gone ==> Delta(p[a]) == 0 {
      forall first | first in gone ensures Total(p, gone - {first}, Delta) == 0 { NoDeltas(p, gone - {first}); }
    }
    if |gone| <= 1 {
      forall first | first in gone ensures Total(p, gone - {first}, Delta) == 0 {
        OnlyOne(gone, first);
        TotalEmpty(p, Delta);
      }
    }
    if |gone| > 1 && forall first :: first in gone ==> Total(p, gone - {first}, Delta) == 0 {
      SameDeltas(p, gone, Total(p, gone, Delta));
    }
  }

  lemma NoDeltas(p: Pool, s: set<Tx>)
    requires s <= p.Keys && forall a :: a in s ==> Delta(p[a]) == 0
    ensures Total(p, s, Delta) == 0
    decreases |s|
  {
    if s != {} {
      var x :| x in s;
      TotalRemove(p, s, Delta, x);
      NoDeltas(p, s - {x});
    }
  }

  lemma OnlyOne(s: set<Tx>, x: Tx)
    requires |s| <= 1 && x in s
    ensures s - {x} == {}
  {
    assert |s - {x}| == 0;
  }

  /** If every one but each leaves zero, each has the whole sum as its delta, so the sum is zero. */
  lemma SameDeltas(p: Pool, gone: set<Tx>, sum: int)
    requires gone <= p.Keys && |gone| > 1 && sum == Total(p, gone, Delta)
    requires forall first :: first in gone ==> Total(p, gone - {first}, Delta) == 0
    ensures forall a :: a in gone ==> Delta(p[a]) == 0
  {
    hide Total;
    forall a | a in gone ensures Delta(p[a]) == sum { TotalRemove(p, gone, Delta, a); }
    AllAlike(p, gone, sum);
    var a :| a in gone;
    AllAlike(p, gone - {a}, sum);
    assert |gone - {a}| * sum == 0;
    NoFactor(|gone - {a}|, sum);
  }

  lemma NoFactor(n: nat, x: int)
    requires n > 0 && n * x == 0
    ensures x == 0
  {
  }

  lemma {:induction false} AllAlike(p: Pool, s: set<Tx>, d: int)
    requires s <= p.Keys && forall a :: a in s ==> Delta(p[a]) == d
    ensures Total(p, s, Delta) == |s| * d
    decreases |s|
  {
    hide Total;
    if s == {} {
      TotalEmpty(p, Delta);
    } else {
      var x :| x in s;
      TotalRemove(p, s, Delta, x);
      AllAlike(p, s - {x}, d);
      assert |s| == |s - {x}| + 1;
      assert |s| * d == |s - {x}| * d + d;
    }
  }

  predicate Absent(p: Pool, inBlock: set<Tx>, x: Tx)
    requires x in p
  {
    p[x].ancestors !! inBlock
  }

  /** Rows are right, none is for a transaction in the block, and a transaction without a
      row that has not failed has no ancestor in the block. */
  ghost predicate TableOk(p: Pool, inBlock: set<Tx>, failed: set<Tx>, t: Table)
    requires WellFormed(p)
  {
    && (forall x :: x in t ==> x in p && x !in inBlock && RowOk(p, inBlock, failed, x, t[x]))
    && (forall x :: x in p && x !in t && x !in inBlock && x !in failed ==> Absent(p, inBlock, x))
  }

  // ---------------------------------------------------------------- UpdatePackagesForAdded

  /** The fees in the row of d once s has been subtracted. */
  ghost predicate FeesAfter(p: Pool, before: Table, d: Tx, s: set<Tx>, fees: int)
    requires d in p && s <= p.Keys
  {
    if d in before then fees == before[d].modFees - Total(p, s, Fee)
    else exists first :: first in s && fees == p[d].modFeesAnc - p[first].modFee - Total(p, s - {first}, Fee)
  }

  /** The row of d once the members of s among its ancestors have been subtracted. */
  ghost predicate RowAfter(p: Pool, before: Table, t: Table, d: Tx, s: set<Tx>)
    requires d in p && s <= p.Keys
  {
    if s == {} then (d in t <==> d in before) && (d in t ==> t[d] == before[d])
    else
      && d in t
      && t[d].size == Base(p, before, d).size - Total(p, s, Size)
      && t[d].sigOps == Base(p, before, d).sigOps - Total(p, s, SigOps)
      && FeesAfter(p, before, d, s, t[d].modFees)
  }

  /** Subtracting one ancestor: the first subtraction starts from the pool's totals and takes off
      the modified fee, a later one the plain fee. */
  function Subtracted(p: Pool, t: Table, d: Tx, it: Tx): Mod
    requires d in p && it in p
  {
    if d !in t then Mod(p[d].sizeAnc - p[it].size, p[d].modFeesAnc - p[it].modFee, p[d].sigOpsAnc - p[it].sigOps)
    else Mod(t[d].size - p[it].size, t[d].modFees - p[it].fee, t[d].sigOps - p[it].sigOps)
  }

  method Subtract(p: Pool, t: Table, d: Tx, it: Tx, ghost before: Table, ghost s: set<Tx>) returns (r: Table)
    requires d in p && it in p && s <= p.Keys && it !in s && RowAfter(p, before, t, d, s)
    ensures RowAfter(p, before, r, d, s + {it})
    ensures r == t[d := Subtracted(p, t, d, it)]
  {
    if d !in t {
      var m := Cached(p[d]);
      m := m.(size := m.size - p[it].size);
      m := m.(modFees := m.modFees - p[it].modFee);
      m := m.(sigOps := m.sigOps - p[it].sigOps);
      r := t[d := m];
    } else {
      r := t[d := Mod(t[d].size - p[it].size, t[d].modFees - p[it].fee, t[d].sigOps - p[it].sigOps)];
    }
    SubtractedAfter(p, before, t, d, s, it);
  }

  lemma SubtractedAfter(p: Pool, before: Table, t: Table, d: Tx, s: set<Tx>, it: Tx)
    requires d in p && it in p && s <= p.Keys && it !in s && RowAfter(p, before, t, d, s)
    ensures RowAfter(p, before, t[d := Subtracted(p, t, d, it)], d, s + {it})
  {
    hide Total, FeesAfter;
    TotalAdd(p, s, Size, it);
    TotalAdd(p, s, SigOps, it);
    TotalEmpty(p, Size);
    TotalEmpty(p, SigOps);
    SubtractedFees(p, before, t, d, s, it);
  }

  lemma SubtractedFees(p: Pool, before: Table, t: Table, d: Tx, s: set<Tx>, it: Tx)
    requires d in p && it in p && s <= p.Keys && it !in s && RowAfter(p, before, t, d, s)
    ensures FeesAfter(p, before, d, s + {it}, Subtracted(p, t, d, it).modFees)
  {
    hide Total;
    TotalAdd(p, s, Fee, it);
    TotalEmpty(p, Fee);
    if d !in before {
      if s == {} {
        assert s + {it} - {it} == {};
        assert it in s + {it};
      } else {
        var first :| first in s && t[d].modFees == p[d].modFeesAnc - p[first].modFee - Total(p, s - {first}, Fee);
        assert s + {it} - {first} == s - {first} + {it};
        TotalAdd(p, s - {first}, Fee, it);
        assert first in s + {it};
      }
    }
  }

  /** The rows outside `added` after the ancestors in `seen` have been subtracted. */
  ghost predicate SubtractedAll(p: Pool, before: Table, t: Table, added: set<Tx>, seen: set<Tx>)
    requires seen <= p.Keys
  {
    && (forall d :: d in p && d !in added ==> RowAfter(p, before, t, d, p[d].ancestors * seen))
    && (forall d :: d in added || d !in p ==> (d in t <==> d in before))
  }

  /** One turn of the outer loop: every descendant not added itself. */
  method SubtractFromDescendants(p: Pool, before: Table, t: Table, added: set<Tx>, it: Tx, ghost seen: set<Tx>)
    returns (r: Table)
    requires it in p && seen <= p.Keys && it !in seen && it in added
    requires SubtractedAll(p, before, t, added, seen)
    ensures SubtractedAll(p, before, r, added, seen + {it})
  {
    hide RowAfter, SubtractedAll, Partly;
    r := t;
    var todo := Descendants(p, it);
    PartlyStart(p, before, t, added, it, seen);
    while todo != {}
      invariant todo <= Descendants(p, it)
      invariant Partly(p, before, r, added, it, seen, todo)
      decreases |todo|
    {
      var d :| d in todo;
      ghost var pre := r;
      if d !in added {
        PartlyRow(p, before, r, added, it, seen, todo, d);
        r := Subtract(p, r, d, it, before, p[d].ancestors * seen);
      }
      PartlyStep(p, before, pre, r, added, it, seen, todo, d);
      todo := todo - {d};
    }
    PartlyDone(p, before, r, added, it, seen);
  }

  /** The table while it is being subtracted from its descendants: those in todo are still to come. */
  ghost predicate Partly(p: Pool, before: Table, t: Table, added: set<Tx>, it: Tx, seen: set<Tx>, todo: set<Tx>)
    requires seen <= p.Keys && it in p
  {
    && (forall d :: d in p && d !in added ==>
          RowAfter(p, before, t, d, p[d].ancestors * (if d in todo then seen else seen + {it})))
    && (forall d :: d in added || d !in p ==> (d in t <==> d in before))
  }

  lemma PartlyStart(p: Pool, before: Table, t: Table, added: set<Tx>, it: Tx, seen: set<Tx>)
    requires it in p && seen <= p.Keys && SubtractedAll(p, before, t, added, seen)
    ensures Partly(p, before, t, added, it, seen, Descendants(p, it))
  {
    hide RowAfter;
    forall d | d in p && d !in added && d !in Descendants(p, it)
      ensures p[d].ancestors * (seen + {it}) == p[d].ancestors * seen
    {
    }
  }

  lemma PartlyRow(p: Pool, before: Table, t: Table, added: set<Tx>, it: Tx, seen: set<Tx>, todo: set<Tx>, d: Tx)
    requires it in p && seen <= p.Keys && it !in seen && Partly(p, before, t, added, it, seen, todo)
    requires d in todo && d !in added && it in added && todo <= Descendants(p, it)
    ensures d in p && RowAfter(p, before, t, d, p[d].ancestors * seen)
    ensures p[d].ancestors * (seen + {it}) == p[d].ancestors * seen + {it}
  {
    hide RowAfter;
    assert it in p[d].ancestors;
  }

  lemma PartlyStep(p: Pool, before: Table, pre: Table, t: Table, added: set<Tx>, it: Tx, seen: set<Tx>, todo: set<Tx>,
                   d: Tx)
    requires it in p && seen <= p.Keys && Partly(p, before, pre, added, it, seen, todo) && d in todo
    requires d in added ==> t == pre
    requires d !in added ==>
      d in p && d in t && t == pre[d := t[d]] && RowAfter(p, before, t, d, p[d].ancestors * (seen + {it}))
    ensures Partly(p, before, t, added, it, seen, todo - {d})
  {
    hide RowAfter;
    forall e | e in p && e !in added
      ensures RowAfter(p, before, t, e, p[e].ancestors * (if e in todo - {d} then seen else seen + {it}))
    {
      if e != d { RowAfterSame(p, before, pre, t, e, p[e].ancestors * (if e in todo then seen else seen + {it})); }
    }
  }

  lemma PartlyDone(p: Pool, before: Table, t: Table, added: set<Tx>, it: Tx, seen: set<Tx>)
    requires it in p && seen <= p.Keys && Partly(p, before, t, added, it, seen, {})
    ensures SubtractedAll(p, before, t, added, seen + {it})
  {
    hide RowAfter;
  }

  lemma RowAfterSame(p: Pool, before: Table, t: Table, r: Table, d: Tx, s: set<Tx>)
    requires d in p && s <= p.Keys && RowAfter(p, before, t, d, s)
    requires (d in t <==> d in r) && (d in t ==> t[d] == r[d])
    ensures RowAfter(p, before, r, d, s)
  {
  }

  /** UpdatePackagesForAdded: subtract every added transaction from its descendants. */
  method UpdatePackagesForAdded(p: Pool, before: Table, added: set<Tx>) returns (t: Table)
    requires added <= p.Keys
    ensures SubtractedAll(p, before, t, added, added)
  {
    hide SubtractedAll;
    t := before;
    var todo := added;
    NothingSubtracted(p, before, added);
    while todo != {}
      invariant todo <= added && SubtractedAll(p, before, t, added, added - todo)
      decreases |todo|
    {
      var it :| it in todo;
      t := SubtractFromDescendants(p, before, t, added, it, added - todo);
      assert added - todo + {it} == added - (todo - {it});
      todo := todo - {it};
    }
    assert added - {} == added;
  }

  lemma NothingSubtracted(p: Pool, t: Table, added: set<Tx>)
    requires added <= p.Keys
    ensures SubtractedAll(p, t, t, added, added - added)
  {
    assert added - added == {};
    forall d | d in p ensures p[d].ancestors * (added - added) == {} {}
  }

  /** Row or not, the totals the assembler uses are those of the package without some of its
      ancestors in the block, and without all of them unless it has failed before. */
  lemma RowBase(p: Pool, inBlock: set<Tx>, failed: set<Tx>, t: Table, x: Tx) returns (gone: set<Tx>)
    requires WellFormed(p) && TableOk(p, inBlock, failed, t) && x in p && x !in inBlock
    ensures Package(p, x) <= p.Keys && Told(p, inBlock, failed, x, gone, Base(p, t, x))
    ensures gone == {} <==> x !in t
  {
    hide Total, Told, Absent;
    assert LinksOk(p, x) && TotalsOk(p, x);
    if x in t {
      gone :| gone != {} && Told(p, inBlock, failed, x, gone, t[x]);
    } else {
      gone := {};
      FreshRow(p, inBlock, failed, x);
    }
  }

  /** A transaction without a row is described by the totals its pool entry carries. */
  lemma FreshRow(p: Pool, inBlock: set<Tx>, failed: set<Tx>, x: Tx)
    requires x in p && LinksOk(p, x) && Package(p, x) <= p.Keys && TotalsOk(p, x)
    requires x !in failed ==> Absent(p, inBlock, x)
    ensures Told(p, inBlock, failed, x, {}, Cached(p[x]))
  {
    hide Total;
    assert Package(p, x) - {} == Package(p, x);
  }

  /** Totals with more taken off. */
  lemma LeftShrinks(p: Pool, x: Tx, gone: set<Tx>, m: Mod, s: set<Tx>, r: Mod)
    requires x in p && Package(p, x) <= p.Keys && gone <= p[x].ancestors && Left(p, x, gone, m)
    requires s <= p[x].ancestors && s !! gone
    requires r.size == m.size - Total(p, s, Size) && r.sigOps == m.sigOps - Total(p, s, SigOps)
    requires FeesLeft(p, x, gone + s, r.modFees)
    ensures Left(p, x, gone + s, r)
  {
    hide Total, FeesLeft;
    assert Package(p, x) - gone - s == Package(p, x) - (gone + s);
    TotalSplit(p, Package(p, x) - gone, s, Size);
    TotalSplit(p, Package(p, x) - gone, s, SigOps);
  }

  /** A row's fees when more is taken off with plain fees: all of those deltas stay in. */
  lemma FeesShrink(p: Pool, x: Tx, gone: set<Tx>, fees: int, s: set<Tx>)
    requires x in p && Package(p, x) <= p.Keys && gone <= p[x].ancestors && gone != {} && FeesLeft(p, x, gone, fees)
    requires s <= p[x].ancestors && s !! gone
    ensures FeesLeft(p, x, gone + s, fees - Total(p, s, Fee))
  {
    hide Total;
    var first :| first in gone && fees == Total(p, Package(p, x) - gone, ModFee) + Total(p, gone - {first}, Delta);
    assert Package(p, x) - gone - s == Package(p, x) - (gone + s);
    TotalSplit(p, Package(p, x) - gone, s, ModFee);
    TotalDelta(p, s);
    assert gone + s - {first} - s == gone - {first};
    TotalSplit(p, gone + s - {first}, s, Delta);
    assert first in gone + s;
  }

  /** The fees of a new row: the delta of the first one taken off is taken off with it. */
  lemma FeesStart(p: Pool, x: Tx, s: set<Tx>, fees: int)
    requires x in p && Package(p, x) <= p.Keys && TotalsOk(p, x) && s <= p[x].ancestors && s != {}
    requires exists first :: first in s && fees == p[x].modFeesAnc - p[first].modFee - Total(p, s - {first}, Fee)
    ensures FeesLeft(p, x, s, fees)
  {
    hide Total;
    var first :| first in s && fees == p[x].modFeesAnc - p[first].modFee - Total(p, s - {first}, Fee);
    TotalSplit(p, Package(p, x), s, ModFee);
    TotalRemove(p, s, ModFee, first);
    TotalDelta(p, s - {first});
  }

  /** A row with some of the package taken off is right for the block that has them too. */
  lemma {:induction false} RowShrinks(p: Pool, inBlock: set<Tx>, added: set<Tx>, failed: set<Tx>, before: Table,
                                      x: Tx, gone: set<Tx>, r: Mod)
    requires x in p && Package(p, x) <= p.Keys && TotalsOk(p, x) && added !! inBlock && p[x].ancestors * added != {}
    requires Told(p, inBlock, failed, x, gone, Base(p, before, x)) && (gone == {} <==> x !in before)
    requires added <= p.Keys
    requires var s := p[x].ancestors * added;
      && r.size == Base(p, before, x).size - Total(p, s, Size)
      && r.sigOps == Base(p, before, x).sigOps - Total(p, s, SigOps)
      && FeesAfter(p, before, x, s, r.modFees)
    ensures RowOk(p, inBlock + added, failed, x, r)
  {
    hide Total, FeesLeft;
    var s := p[x].ancestors * added;
    if x in before {
      FeesShrink(p, x, gone, before[x].modFees, s);
    } else {
      FeesStart(p, x, s, r.modFees);
      assert gone + s == s;
    }
    LeftShrinks(p, x, gone, Base(p, before, x), s, r);
    assert p[x].ancestors * (inBlock + added) == p[x].ancestors * inBlock + s;
    assert Told(p, inBlock + added, failed, x, gone + s, r);
  }

  lemma RowKept(p: Pool, inBlock: set<Tx>, added: set<Tx>, failed: set<Tx>, x: Tx, m: Mod)
    requires x in p && Package(p, x) <= p.Keys && p[x].ancestors !! added
    requires RowOk(p, inBlock, failed, x, m)
    ensures RowOk(p, inBlock + added, failed, x, m)
  {
    hide Left;
    var gone :| gone != {} && Told(p, inBlock, failed, x, gone, m);
    assert p[x].ancestors * (inBlock + added) == p[x].ancestors * inBlock;
    assert Told(p, inBlock + added, failed, x, gone, m);
  }

  /** After a package is added, its rows erased and the others updated, the table is right
      for the new block. */
  lemma UpdateKeepsTable(p: Pool, inBlock: set<Tx>, added: set<Tx>, failed: set<Tx>, full: Table, before: Table,
                         t: Table)
    requires WellFormed(p) && Closed(p, inBlock) && added <= p.Keys && added !! inBlock
    requires TableOk(p, inBlock, failed, full) && before == full - added
    requires SubtractedAll(p, before, t, added, added)
    ensures TableOk(p, inBlock + added, failed, t)
  {
    hide Total, RowOk, LinksOk, TotalsOk;
    forall x | x in t ensures x in p && x !in inBlock + added && RowOk(p, inBlock + added, failed, x, t[x]) {
      assert x in p && x !in added;
      assert RowAfter(p, before, t, x, p[x].ancestors * added);
      UpdatedRow(p, inBlock, added, failed, full, before, t, x);
    }
    forall x | x in p && x !in t && x !in inBlock + added && x !in failed ensures Absent(p, inBlock + added, x) {
      assert RowAfter(p, before, t, x, p[x].ancestors * added);
      assert x !in full;
      assert Absent(p, inBlock, x);
      assert p[x].ancestors * added == {};
      NoCommon(p[x].ancestors, added);
    }
  }

  lemma NoCommon(a: set<Tx>, b: set<Tx>)
    requires a * b == {}
    ensures forall x :: x in a ==> x !in b
  {
    assert forall x :: x in a && x in b ==> x in a * b;
  }

  lemma UpdatedRow(p: Pool, inBlock: set<Tx>, added: set<Tx>, failed: set<Tx>, full: Table, before: Table, t: Table,
                   x: Tx)
    requires WellFormed(p) && Closed(p, inBlock) && added <= p.Keys && added !! inBlock
    requires TableOk(p, inBlock, failed, full) && before == full - added
    requires x in t && x in p && x !in added && RowAfter(p, before, t, x, p[x].ancestors * added)
    ensures x !in inBlock && Package(p, x) <= p.Keys && RowOk(p, inBlock + added, failed, x, t[x])
  {
    hide Total, Told, FeesAfter, TotalsOk;
    var s := p[x].ancestors * added;
    assert Package(p, x) <= p.Keys && TotalsOk(p, x);
    if s == {} {
      assert x in full && t[x] == full[x];
      RowKept(p, inBlock, added, failed, x, t[x]);
    } else {
      assert x !in inBlock by { assert x in inBlock ==> s <= inBlock; }
      var gone := RowBase(p, inBlock, failed, full, x);
      assert Base(p, full, x) == Base(p, before, x);
      RowShrinks(p, inBlock, added, failed, before, x, gone, t[x]);
    }
  }

  /** With nothing in the block an empty table is right. */
  lemma EmptyTableOk(p: Pool)
    requires WellFormed(p)
    ensures TableOk(p, {}, {}, map[])
  {
    hide Total, RowOk, LinksOk, TotalsOk;
    forall x | x in p ensures Absent(p, {}, x) {}
  }

  /** Erasing the row of a failed transaction. */
  lemma FailedKeepsTable(p: Pool, inBlock: set<Tx>, failed: set<Tx>, t: Table, x: Tx)
    requires WellFormed(p) && TableOk(p, inBlock, failed, t)
    ensures TableOk(p, inBlock, failed + {x}, t - {x})
  {
    hide Total, LinksOk, TotalsOk, Left;
    forall y | y in t - {x} ensures y in p && y !in inBlock && RowOk(p, inBlock, failed + {x}, y, t[y]) {
      assert RowOk(p, inBlock, failed, y, t[y]);
      var gone :| gone != {} && Told(p, inBlock, failed, y, gone, t[y]);
      assert Told(p, inBlock, failed + {x}, y, gone, t[y]);
    }
  }

  // ---------------------------------------------------------------- the order of subtraction

  /** The row of d after the members of a sequence have been subtracted one by one. */
  function SubtractEach(p: Pool, d: Tx, order: seq<Tx>): (t: Table)
    requires d in p && forall x :: x in order ==> x in p
    ensures d in t <==> order != []
  {
    if order == [] then map[] else
    var n := |order| - 1;
    var t := SubtractEach(p, d, order[..n]);
    t[d := Subtracted(p, t, d, order[n])]
  }

  /** The sequence has each member of the set once and nothing else. */
  ghost predicate Lists(order: seq<Tx>, s: set<Tx>) {
    if order == [] then s == {} else
    var last := order[|order| - 1];
    last in s && Lists(order[..|order| - 1], s - {last})
  }

  lemma {:induction false} ListsMembers(order: seq<Tx>, s: set<Tx>)
    requires Lists(order, s)
    ensures forall x :: x in order <==> x in s
  {
    if order != [] {
      var n := |order| - 1;
      ListsMembers(order[..n], s - {order[n]});
      assert order == order[..n] + [order[n]];
    }
  }

  /** Any member can come first. */
  lemma {:induction false} ListFrom(s: set<Tx>, first: Tx) returns (order: seq<Tx>)
    requires first in s
    ensures Lists(order, s) && order != [] && order[0] == first
    decreases |s|
  {
    if s == {first} {
      order := [first];
      assert order[..0] == [] && s - {first} == {};
    } else {
      assert s - {first} != {};
      var x :| x in s - {first};
      var rest := ListFrom(s - {x}, first);
      order := rest + [x];
      assert order[..|order| - 1] == rest;
    }
  }

  /** What a row's fees come to: every delta but that of the first one subtracted stays in. */
  lemma {:induction false} OrderedFees(p: Pool, d: Tx, order: seq<Tx>, s: set<Tx>)
    requires d in p && s <= p.Keys && Lists(order, s) && order != []
    ensures order[0] in s && forall x :: x in order ==> x in p
    ensures SubtractEach(p, d, order)[d].modFees
         == p[d].modFeesAnc - Total(p, s, ModFee) + Total(p, s - {order[0]}, Delta)
  {
    hide Total;
    ListsMembers(order, s);
    var n := |order| - 1;
    var last := order[n];
    var rest := order[..n];
    TotalRemove(p, s, ModFee, last);
    if n == 0 {
      assert rest == [] && s - {last} == {};
      TotalEmpty(p, ModFee);
      TotalEmpty(p, Delta);
    } else {
      OrderedFees(p, d, rest, s - {last});
      ListsMembers(rest, s - {last});
      assert rest[0] == order[0] != last;
      TotalRemove(p, s - {order[0]}, Delta, last);
      assert s - {order[0]} - {last} == s - {last} - {order[0]};
    }
  }

  /** The fees of x's row, after the members of order have been subtracted, are those of what is left. */
  ghost predicate RightFees(p: Pool, x: Tx, gone: set<Tx>, order: seq<Tx>)
    requires x in p && Package(p, x) <= p.Keys && forall a :: a in order ==> a in p
  {
    order != [] && SubtractEach(p, x, order)[x].modFees == Total(p, Package(p, x) - gone, ModFee)
  }

  lemma RightFeesFrom(p: Pool, x: Tx, gone: set<Tx>, order: seq<Tx>)
    requires x in p && Package(p, x) <= p.Keys && TotalsOk(p, x)
    requires gone <= p[x].ancestors && gone != {} && Lists(order, gone)
    ensures order != [] && order[0] in gone && forall a :: a in order ==> a in p
    ensures RightFees(p, x, gone, order) <==> Total(p, gone - {order[0]}, Delta) == 0
  {
    hide Total;
    OrderedFees(p, x, order, gone);
    TotalSplit(p, Package(p, x), gone, ModFee);
  }

  /** The fees of a row are those of what is left in every order of subtraction exactly when at
      most one ancestor was subtracted or none of them has been prioritised. */
  lemma FeesRightIff(p: Pool, x: Tx, gone: set<Tx>)
    requires WellFormed(p) && x in p && gone <= p[x].ancestors && gone != {}
    ensures Package(p, x) <= p.Keys && gone <= p.Keys
    ensures (forall order :: Lists(order, gone) ==> (forall a :: a in order ==> a in p) && RightFees(p, x, gone, order))
      <==> |gone| == 1 || forall a :: a in gone ==> Delta(p[a]) == 0
  {
    hide Total, LinksOk, TotalsOk, RightFees, Lists;
    assert Package(p, x) <= p.Keys && TotalsOk(p, x);
    DeltasCancelIff(p, gone);
    forall order | Lists(order, gone)
      ensures order != [] && order[0] in gone && (forall a :: a in order ==> a in p)
      ensures RightFees(p, x, gone, order) <==> Total(p, gone - {order[0]}, Delta) == 0
    {
      RightFeesFrom(p, x, gone, order);
    }
    forall first | first in gone ensures exists order :: Lists(order, gone) && order != [] && order[0] == first {
      var order := ListFrom(gone, first);
    }
  }

  /** A pool in which a child has two parents, the second one prioritised by 5. */
  ghost const A := Tx(1)
  ghost const B := Tx(2)
  ghost const C := Tx(3)
  ghost const PRIORITISED: Pool := map[
    A := TxEntry(1, 1, 10, 10, true, 0, {}, {}, 1, 1, 1, 10),
    B := TxEntry(1, 1, 10, 15, true, 0, {}, {}, 1, 1, 1, 15),
    C := TxEntry(1, 1, 10, 10, true, 0, {A, B}, {A, B}, 3, 3, 3, 35)]

  lemma PrioritisedTotals(f: TxEntry -> int)
    ensures Total(PRIORITISED, {A}, f) == f(PRIORITISED[A]) && Total(PRIORITISED, {B}, f) == f(PRIORITISED[B])
    ensures Total(PRIORITISED, {C}, f) == f(PRIORITISED[C])
    ensures Total(PRIORITISED, {A, B, C}, f) == f(PRIORITISED[A]) + f(PRIORITISED[B]) + f(PRIORITISED[C])
  {
    hide Total;
    TotalOne(PRIORITISED, A, f);
    TotalOne(PRIORITISED, B, f);
    TotalOne(PRIORITISED, C, f);
    TotalAdd(PRIORITISED, {A}, f, B);
    assert {A} + {B} == {A, B};
    TotalAdd(PRIORITISED, {A, B}, f, C);
    assert {A, B} + {C} == {A, B, C};
  }

  lemma PrioritisedIsPool()
    ensures WellFormed(PRIORITISED)
  {
    hide Total;
    var p := PRIORITISED;
    PrioritisedTotals(Size); PrioritisedTotals(SigOps); PrioritisedTotals(ModFee);
    assert Package(p, A) == {A} && Package(p, B) == {B} && Package(p, C) == {A, B, C};
    assert ThroughParent(p, C, A) && ThroughParent(p, C, B);
    assert |{A, B, C}| == 3;
  }

  /** With both parents in the block the row's fee depends on which was subtracted first, and in
      one order it is not the fee of what is left. */
  lemma OrderShows()
    ensures WellFormed(PRIORITISED) && PRIORITISED[C].ancestors == {A, B}
    ensures SubtractEach(PRIORITISED, C, [A, B])[C].modFees == Total(PRIORITISED, {C}, ModFee) + 5
    ensures SubtractEach(PRIORITISED, C, [B, A])[C].modFees == Total(PRIORITISED, {C}, ModFee)
  {
    hide Total, SubtractEach, WellFormed;
    PrioritisedIsPool();
    PrioritisedTotals(ModFee);
    PrioritisedTotals(Delta);
    TotalSplit(PRIORITISED, {A, B, C}, {A, B}, ModFee);
    assert {A, B, C} - {A, B} == {C} && {A, B} - {A} == {B} && {A, B} - {B} == {A};
    ListsTwo(A, B);
    ListsTwo(B, A);
    assert {B, A} == {A, B};
    OrderedFees(PRIORITISED, C, [A, B], {A, B});
    OrderedFees(PRIORITISED, C, [B, A], {A, B});
  }

  lemma ListsTwo(a: Tx, b: Tx)
    requires a != b
    ensures Lists([a, b], {a, b})
  {
    assert [a, b][..1] == [a] && [a][..0] == [] && {a, b} - {b} == {a} && {a} - {a} == {};
    assert Lists([a], {a});
  }
}
