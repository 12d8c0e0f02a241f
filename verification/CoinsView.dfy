/** The cache stack as the program runs it: an object whose methods update the caches in
    place, the modifier flag included, proved against the functions of CoinsCache. */
module CoinsView {
  import opened Basics
  import opened Coins
  import opened CoinsCache

  /** A cache is determined by its entries. */
  lemma SameCache(a: Cache, b: Cache)
    requires forall t :: EntryOf(a, t) == EntryOf(b, t)
    ensures a == b
  {
    forall t | t in a ensures t in b && a[t] == b[t] { assert EntryOf(a, t) == EntryOf(b, t); }
    forall t | t in b ensures t in a { assert EntryOf(a, t) == EntryOf(b, t); }
    assert a.Keys == b.Keys;
  }

  /** One turn of the loop of BatchWrite. */
  method MergeOne(r: Cache, t: Txid, it: Entry) returns (u: Cache)
    ensures forall x :: EntryOf(u, x) == if x == t then Merged(EntryOf(r, t), it) else EntryOf(r, x)
  {
    hide IsPruned;
    u := r;
    if it.dirty {
      if t !in u {
        if !(it.isFresh && IsPruned(it.coins)) {
          u := u[t := Entry(it.coins, true, it.isFresh)];
        }
      } else if u[t].isFresh && IsPruned(it.coins) {
        u := u - {t};
      } else {
        u := u[t := Entry(it.coins, true, u[t].isFresh)];
      }
    }
  }

  /** CCoinsViewCache::BatchWrite: take the child's entries one by one, in any order. */
  method MergeInto(cache: Cache, child: Cache) returns (r: Cache)
    ensures r == BatchWrite(cache, child)
  {
    hide Merged, MergedBut, EntryOf;
    r := cache;
    var left := child;
    MergedStart(cache, child);
    while exists t :: t in left
      invariant left.Keys <= child.Keys && forall t :: t in left ==> left[t] == child[t]
      invariant MergedBut(cache, child, left.Keys, r)
      decreases |left|
    {
      var t :| t in left;
      ghost var was := r;
      r := MergeOne(r, t, left[t]);
      MergedStep(cache, child, left.Keys, was, r, t);
      assert |left - {t}| < |left|;
      assert (left - {t}).Keys == left.Keys - {t};
      left := left - {t};
    }
    MergedDone(cache, child, left.Keys, r);
  }

  /** The child's entries have been taken, but for those in left. */
  ghost predicate MergedBut(cache: Cache, child: Cache, left: set<Txid>, r: Cache) {
    forall t :: EntryOf(r, t) ==
      if t in child && t !in left then Merged(EntryOf(cache, t), child[t]) else EntryOf(cache, t)
  }

  lemma MergedStart(cache: Cache, child: Cache)
    ensures MergedBut(cache, child, child.Keys, cache)
  {
  }

  lemma MergedStep(cache: Cache, child: Cache, left: set<Txid>, was: Cache, r: Cache, t: Txid)
    requires MergedBut(cache, child, left, was) && t in left && t in child
    requires forall x :: EntryOf(r, x) == if x == t then Merged(EntryOf(was, t), child[t]) else EntryOf(was, x)
    ensures MergedBut(cache, child, left - {t}, r)
  {
    hide Merged, EntryOf;
  }

  lemma MergedDone(cache: Cache, child: Cache, left: set<Txid>, r: Cache)
    requires MergedBut(cache, child, left, r) && forall t :: t in child ==> t !in left
    ensures r == BatchWrite(cache, child)
  {
    hide Merged, EntryOf;
    SameCache(r, BatchWrite(cache, child));
  }

  /** What was stored under t before does not matter to the modifier's destructor. */
  lemma SettleAbsorbs(c: Cache, t: Txid, e: Entry, d: Entry)
    ensures Settle(c[t := d], t, e) == Settle(c, t, e)
  {
    hide IsPruned, Cleanup;
    assert c[t := d] - {t} == c - {t};
    var done := e.(coins := Cleanup(e.coins));
    assert c[t := d][t := done] == c[t := done];
  }

  class CacheStack {
    var db: map<Txid, Coins>
    var caches: seq<Cache>
    var hasModifier: bool

    ghost function Abs(): Stack
      reads this
    {
      Stack(db, caches)
    }

    constructor (db: map<Txid, Coins>)
      ensures Abs() == Stack(db, [map[]]) && !hasModifier
    {
      this.db := db;
      caches := [map[]];
      hasModifier := false;
    }

    /** FetchCoins at a level: calls itself on the base for what the cache does not hold. */
    method FetchCoins(level: nat, t: Txid) returns (got: Option<Coins>)
      requires level <= |caches|
      modifies this
      ensures (Abs(), got) == Fetch(old(Abs()), level, t) && hasModifier == old(hasModifier)
      decreases level
    {
      if level == 0 {
        return if t in db then Some(db[t]) else None;
      }
      if t in caches[level - 1] { return Some(caches[level - 1][t].coins); }
      got := FetchCoins(level - 1, t);
      if got.None? { return; }
      var entry := Entry(got.value, false, false);
      if IsPruned(entry.coins) { entry := entry.(isFresh := true); }
      caches := caches[level - 1 := caches[level - 1][t := entry]];
    }

    method HaveCoins(t: Txid) returns (b: bool)
      modifies this
      ensures (Abs(), b) == Have(old(Abs()), t) && hasModifier == old(hasModifier)
    {
      var got := FetchCoins(|caches|, t);
      b := got.Some? && got.value.vout != [];
    }

    /** The modifier's destructor. */
    method EndModify(t: Txid)
      requires caches != [] && t in caches[|caches| - 1] && hasModifier
      modifies this
      ensures !hasModifier && db == old(db)
      ensures var n := |old(caches)| - 1;
        caches == old(caches)[n := Settle(old(caches)[n], t, old(caches)[n][t])]
    {
      hasModifier := false;
      var n := |caches|;
      var c := caches[n - 1];
      var cleaned := TrimLoop(c[t].coins);
      c := c[t := c[t].(coins := cleaned)];
      if c[t].isFresh && IsPruned(c[t].coins) { c := c - {t}; }
      assert c == Settle(old(caches)[n - 1], t, old(caches)[n - 1][t]);
      caches := caches[n - 1 := c];
    }

    /** ModifyCoins: bring the record into the topmost cache and mark it dirty. */
    method BeginModify(t: Txid)
      requires caches != [] && !hasModifier
      modifies this
      ensures hasModifier && |caches| == |old(caches)| && t in caches[|caches| - 1]
      ensures var n := |old(caches)|;
        if t in old(caches)[n - 1] then
          && db == old(db)
          && caches == old(caches)[n - 1 := old(caches)[n - 1][t := old(caches)[n - 1][t].(dirty := true)]]
        else
          var (u, got) := Fetch(old(Abs()), n - 1, t);
          && db == u.db && |u.caches| == n
          && caches == u.caches[n - 1 := u.caches[n - 1][t :=
               Entry(if got.None? then EMPTY else got.value, true, got.None? || IsPruned(got.value))]]
    {
      hide IsPruned, Fetch;
      var n := |caches|;
      ghost var base := caches;
      if t !in caches[n - 1] {
        var got := FetchCoins(n - 1, t);
        base := caches;
        var entry := Entry(EMPTY, false, false);
        if got.None? { entry := entry.(isFresh := true); }
        else {
          entry := entry.(coins := got.value);
          if IsPruned(entry.coins) { entry := entry.(isFresh := true); }
        }
        caches := caches[n - 1 := caches[n - 1][t := entry]];
      }
      ghost var e := caches[n - 1][t].(dirty := true);
      caches := caches[n - 1 := caches[n - 1][t := caches[n - 1][t].(dirty := true)]];
      assert caches[n - 1] == base[n - 1][t := e];
      assert caches == base[n - 1 := base[n - 1][t := e]];
      hasModifier := true;
    }

    /** ModifyCoins, the caller's change f, and the destructor. */
    method ModifyCoins(t: Txid, f: Coins -> Coins)
      requires caches != [] && !hasModifier
      modifies this
      ensures Abs() == Modify(old(Abs()), t, f) && !hasModifier
    {
      hide IsPruned, Settle, Fetch;
      BeginModify(t);
      var n := |caches|;
      var e := caches[n - 1][t].(coins := f(caches[n - 1][t].coins));
      ghost var held := caches[n - 1];
      caches := caches[n - 1 := caches[n - 1][t := e]];
      EndModify(t);
      SettleAbsorbs(held, t, e, e);
      ghost var base := if t in old(caches)[n - 1] then old(caches)[n - 1]
        else Fetch(old(Abs()), n - 1, t).0.caches[n - 1];
      SettleAbsorbs(base, t, e, held[t]);
    }

    /** ModifyNewCoins, the caller's filling in, and the destructor. */
    method ModifyNewCoins(t: Txid, coinbase: bool, made: Coins)
      requires caches != [] && !hasModifier
      modifies this
      ensures Abs() == ModifyNew(old(Abs()), t, coinbase, made) && !hasModifier
    {
      hide Cleanup, IsPruned, Settle;
      var n := |caches|;
      ghost var before := Abs();
      var entry := if t in caches[n - 1] then caches[n - 1][t] else Entry(EMPTY, false, false);
      entry := entry.(coins := EMPTY);
      if !coinbase { entry := entry.(dirty := false, isFresh := true); }
      entry := entry.(dirty := true);
      caches := caches[n - 1 := caches[n - 1][t := entry]];
      hasModifier := true;
      var e := caches[n - 1][t].(coins := made);
      caches := caches[n - 1 := caches[n - 1][t := e]];
      SettleAbsorbs(before.caches[n - 1], t, e, e);
      assert caches[n - 1] == before.caches[n - 1][t := e];
      EndModify(t);
    }

    method UncacheCoins(t: Txid)
      requires caches != []
      modifies this
      ensures Abs() == Uncache(old(Abs()), t) && hasModifier == old(hasModifier)
    {
      var n := |caches|;
      if t in caches[n - 1] && !caches[n - 1][t].dirty && !caches[n - 1][t].isFresh {
        caches := caches[n - 1 := caches[n - 1] - {t}];
      }
    }

    /** Flush, to a cache below or to the database. */
    method FlushCache()
      requires caches != [] && !hasModifier
      modifies this
      ensures Abs() == Flush(old(Abs())) && !hasModifier
    {
      var n := |caches|;
      if n == 1 {
        db := BatchWriteDb(db, caches[0]);
        caches := [map[]];
      } else {
        var merged := MergeInto(caches[n - 2], caches[n - 1]);
        caches := caches[n - 2 := merged];
        caches := caches[n - 1 := map[]];
      }
    }
  }
}
