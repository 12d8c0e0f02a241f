/** A stack of CCoinsViewCaches over a database: write-back caches with DIRTY and FRESH flags.
    caches[k] is the cache on top of k others; every operation is on the topmost one. */
module CoinsCache {
  import opened Basics
  import opened Coins

  type Txid = int

  datatype Entry = Entry(coins: Coins, dirty: bool, isFresh: bool)

  type Cache = map<Txid, Entry>

  datatype Stack = Stack(db: map<Txid, Coins>, caches: seq<Cache>)

  /** What GetCoins answers at a level; level 0 is the database. */
  function Get(s: Stack, level: nat, t: Txid): Option<Coins>
    requires level <= |s.caches|
  {
    if level == 0 then if t in s.db then Some(s.db[t]) else None
    else if t in s.caches[level - 1] then Some(s.caches[level - 1][t].coins)
    else Get(s, level - 1, t)
  }

  /** An answer with nothing unspent in it counts as no answer. */
  function Norm(o: Option<Coins>): Option<Coins> {
    if o.Some? && !IsPruned(o.value) then o else None
  }

  function Top(s: Stack): nat { |s.caches| }

  function SetCache(s: Stack, level: nat, c: Cache): Stack
    requires 0 < level <= |s.caches|
  {
    s.(caches := s.caches[level - 1 := c])
  }

  // ---------------------------------------------------------------- operations

  /** FetchCoins at a level: what is not in the cache is brought up from below, through
      every cache on the way; an entry with nothing unspent below is FRESH. */
  function Fetch(s: Stack, level: nat, t: Txid): (r: (Stack, Option<Coins>))
    requires level <= |s.caches|
    ensures |r.0.caches| == |s.caches|
  {
    if level == 0 then (s, Get(s, 0, t))
    else if t in s.caches[level - 1] then (s, Some(s.caches[level - 1][t].coins))
    else
      var (u, got) := Fetch(s, level - 1, t);
      if got.None? then (u, None) else
      (SetCache(u, level, u.caches[level - 1][t := Entry(got.value, false, IsPruned(got.value))]), got)
  }

  /** HaveCoins. */
  function Have(s: Stack, t: Txid): (r: (Stack, bool)) {
    var (u, got) := Fetch(s, Top(s), t);
    (u, got.Some? && got.value.vout != [])
  }

  /** The modifier's destructor: clean up, and drop an entry the base need not know about. */
  function Settle(c: Cache, t: Txid, e: Entry): Cache {
    var done := e.(coins := Cleanup(e.coins));
    if done.isFresh && IsPruned(done.coins) then c - {t} else c[t := done]
  }

  /** ModifyCoins, the caller's modification f, and the end of the modifier. */
  function Modify(s: Stack, t: Txid, f: Coins -> Coins): Stack
    requires s.caches != []
  {
    var n := Top(s);
    if t in s.caches[n - 1] then
      var e := s.caches[n - 1][t];
      SetCache(s, n, Settle(s.caches[n - 1], t, Entry(f(e.coins), true, e.isFresh)))
    else
      var (u, got) := Fetch(s, n - 1, t);
      var coins := if got.None? then EMPTY else got.value;
      SetCache(u, n, Settle(u.caches[n - 1], t, Entry(f(coins), true, got.None? || IsPruned(got.value))))
  }

  /** ModifyNewCoins, the caller's filling in of the new record, and the end of the modifier. */
  function ModifyNew(s: Stack, t: Txid, coinbase: bool, made: Coins): Stack
    requires s.caches != []
  {
    var n := Top(s);
    var c := s.caches[n - 1];
    var wasFresh := t in c && c[t].isFresh;
    SetCache(s, n, Settle(c, t, Entry(made, true, if coinbase then wasFresh else true)))
  }

  /** Uncache: forget an entry that has no flags. */
  function Uncache(s: Stack, t: Txid): Stack
    requires s.caches != []
  {
    var n := Top(s);
    var c := s.caches[n - 1];
    if t in c && !c[t].dirty && !c[t].isFresh then SetCache(s, n, c - {t}) else s
  }

  /** What BatchWrite makes of a cache entry and the child's entry for the same transaction. */
  function Merged(ours: Option<Entry>, child: Entry): Option<Entry> {
    if !child.dirty then ours
    else match ours
      case None =>
        if child.isFresh && IsPruned(child.coins) then None
        else Some(Entry(child.coins, true, child.isFresh))
      case Some(us) =>
        if us.isFresh && IsPruned(child.coins) then None
        else Some(Entry(child.coins, true, us.isFresh))
  }

  function EntryOf(c: Cache, t: Txid): Option<Entry> { if t in c then Some(c[t]) else None }

  /** BatchWrite into a cache. */
  function BatchWrite(c: Cache, child: Cache): (r: Cache)
    ensures forall t :: EntryOf(r, t) == if t in child then Merged(EntryOf(c, t), child[t]) else EntryOf(c, t)
  {
    map t | t in c.Keys + child.Keys && (t in child ==> Merged(EntryOf(c, t), child[t]).Some?)
        :: if t in child then Merged(EntryOf(c, t), child[t]).value else c[t]
  }

  /** BatchWrite into the database. */
  function BatchWriteDb(db: map<Txid, Coins>, child: Cache): map<Txid, Coins> {
    map t | t in db.Keys + child.Keys && (t in child && child[t].dirty ==> !IsPruned(child[t].coins))
          && (t !in db ==> child[t].dirty)
        :: if t in child && child[t].dirty then child[t].coins else db[t]
  }

  /** Flush: write the topmost cache to its base and empty it. */
  function Flush(s: Stack): Stack
    requires s.caches != []
  {
    var n := Top(s);
    var child := s.caches[n - 1];
    if n == 1 then Stack(BatchWriteDb(s.db, child), [map[]])
    else s.(caches := s.caches[n - 2 := BatchWrite(s.caches[n - 2], child)][n - 1 := map[]])
  }

  /** A new cache on top, and dropping the topmost one unflushed. */
  function Push(s: Stack): Stack { s.(caches := s.caches + [map[]]) }

  function Pop(s: Stack): Stack
    requires s.caches != []
  {
    s.(caches := s.caches[..|s.caches| - 1])
  }

  // ---------------------------------------------------------------- the flags

  /** What the flags of an entry promise about the view below. */
  predicate EntryOk(e: Entry, below: Option<Coins>) {
    && Clean(e.coins)
    && (!e.dirty ==> Norm(Some(e.coins)) == Norm(below))
    && (e.isFresh ==> Norm(below).None?)
  }

  predicate LevelOk(s: Stack, k: nat)
    requires k < |s.caches|
  {
    forall t :: t in s.caches[k] ==> EntryOk(s.caches[k][t], Get(s, k, t))
  }

  predicate DbOk(db: map<Txid, Coins>) {
    forall t :: t in db ==> Clean(db[t])
  }

  ghost predicate Inv(s: Stack) {
    s.caches != [] && DbOk(s.db) && forall k: nat :: k < |s.caches| ==> LevelOk(s, k)
  }

  /** Answers depend only on the caches up to the level asked. */
  lemma {:induction false} GetBelow(s: Stack, u: Stack, level: nat, t: Txid)
    requires level <= |s.caches| && level <= |u.caches| && s.db == u.db && s.caches[..level] == u.caches[..level]
    ensures Get(s, level, t) == Get(u, level, t)
  {
    if level > 0 {
      assert s.caches[level - 1] == s.caches[..level][level - 1] == u.caches[level - 1];
      assert s.caches[..level - 1] == s.caches[..level][..level - 1] == u.caches[..level - 1];
      GetBelow(s, u, level - 1, t);
    }
  }

  /** Every answer is clean. */
  lemma {:induction false} GetClean(s: Stack, level: nat, t: Txid)
    requires Inv(s) && level <= |s.caches|
    ensures Get(s, level, t).Some? ==> Clean(Get(s, level, t).value)
  {
    if level > 0 {
      assert LevelOk(s, level - 1);
      GetClean(s, level - 1, t);
    }
  }

  /** The same stack with one entry copied up to one more level. */
  lemma CopyUp(s: Stack, level: nat, t: Txid)
    requires Inv(s) && 0 < level <= |s.caches| && t !in s.caches[level - 1]
    requires Get(s, level - 1, t).Some?
    ensures var c := Get(s, level - 1, t).value;
      var u := SetCache(s, level, s.caches[level - 1][t := Entry(c, false, IsPruned(c))]);
      Inv(u) && forall j: nat, x :: j <= |s.caches| ==> Get(u, j, x) == Get(s, j, x)
  {
    var c := Get(s, level - 1, t).value;
    var u := SetCache(s, level, s.caches[level - 1][t := Entry(c, false, IsPruned(c))]);
    forall j: nat, x | j <= |s.caches| ensures Get(u, j, x) == Get(s, j, x) { CopyUpGet(s, level, t, j, x); }
    GetClean(s, level - 1, t);
    forall j: nat | j < |u.caches| ensures LevelOk(u, j) { assert LevelOk(s, j); }
  }

  lemma {:induction false} CopyUpGet(s: Stack, level: nat, t: Txid, j: nat, x: Txid)
    requires 0 < level <= |s.caches| && j <= |s.caches| && t !in s.caches[level - 1] && Get(s, level - 1, t).Some?
    ensures var c := Get(s, level - 1, t).value;
      Get(SetCache(s, level, s.caches[level - 1][t := Entry(c, false, IsPruned(c))]), j, x) == Get(s, j, x)
  {
    hide IsPruned;
    if j > 0 { CopyUpGet(s, level, t, j - 1, x); }
  }

  /** Fetching changes no answer at any level, keeps the flags right, and answers as Get does. */
  lemma {:induction false} FetchKeeps(s: Stack, level: nat, t: Txid)
    requires Inv(s) && level <= |s.caches|
    ensures var (u, got) := Fetch(s, level, t);
      && Inv(u) && u.db == s.db && got == Get(s, level, t) && u.caches[level..] == s.caches[level..]
      && forall j: nat, x :: j <= |s.caches| ==> Get(u, j, x) == Get(s, j, x)
  {
    hide IsPruned, LevelOk, DbOk;
    if level > 0 && t !in s.caches[level - 1] {
      FetchKeeps(s, level - 1, t);
      var (u, got) := Fetch(s, level - 1, t);
      assert u.caches[level - 1] == u.caches[level - 1..][0] == s.caches[level - 1];
      assert u.caches[level..] == u.caches[level - 1..][1..] == s.caches[level..];
      if got.Some? {
        assert Get(u, level - 1, t) == Get(s, level - 1, t);
        CopyUp(u, level, t);
        var w := Fetch(s, level, t).0;
        assert w.caches[level..] == u.caches[level..];
      }
    }
  }

  // ---------------------------------------------------------------- the reference

  /** The reference: one plain map of unspent records per level, changed directly. */
  type Plain = map<Txid, Coins>

  function Lookup(p: Plain, t: Txid): Option<Coins> { if t in p then Some(p[t]) else None }

  /** Every level of the stack answers as its plain map does. */
  ghost predicate Agrees(s: Stack, ref: seq<Plain>) {
    && |ref| == |s.caches| + 1
    && forall level: nat, t :: level <= |s.caches| ==> Norm(Get(s, level, t)) == Lookup(ref[level], t)
  }

  function Put(p: Plain, t: Txid, c: Coins): Plain {
    if IsPruned(c) then p - {t} else p[t := Cleanup(c)]
  }

  /** What the caller of ModifyCoins is given: the record, or an empty one. */
  function Given(o: Option<Coins>): Coins { if o.None? then EMPTY else o.value }

  /** Two stacks with the same caches below the top one. */
  lemma TopOnly(s: Stack, u: Stack, level: nat, t: Txid)
    requires s.caches != [] && |u.caches| == |s.caches| && s.db == u.db && level < |s.caches|
    requires s.caches[..|s.caches| - 1] == u.caches[..|s.caches| - 1]
    ensures Get(s, level, t) == Get(u, level, t)
  {
    assert s.caches[..level] == s.caches[..|s.caches| - 1][..level] == u.caches[..level];
    GetBelow(s, u, level, t);
  }

  /** Replacing the topmost cache by one whose entries are right keeps the stack right. */
  lemma NewTop(s: Stack, c: Cache, ref: seq<Plain>, p: Plain)
    requires Inv(s) && Agrees(s, ref)
    requires forall t :: t in c ==> EntryOk(c[t], Get(s, Top(s) - 1, t))
    requires forall t :: Norm(if t in c then Some(c[t].coins) else Get(s, Top(s) - 1, t)) == Lookup(p, t)
    ensures var u := SetCache(s, Top(s), c);
      Inv(u) && Agrees(u, ref[|ref| - 1 := p])
  {
    hide IsPruned, EntryOk, Norm;
    var n := Top(s);
    var u := SetCache(s, n, c);
    forall level: nat, t | level < n ensures Get(u, level, t) == Get(s, level, t) { TopOnly(s, u, level, t); }
    forall k: nat | k < |u.caches| ensures LevelOk(u, k) {
      assert LevelOk(s, k);
      forall t | t in u.caches[k] ensures EntryOk(u.caches[k][t], Get(u, k, t)) {
        assert Get(u, k, t) == Get(s, k, t);
      }
    }
    forall level: nat, t | level <= n ensures Norm(Get(u, level, t)) == Lookup(ref[|ref| - 1 := p][level], t) {
      if level < n { assert Norm(Get(s, level, t)) == Lookup(ref[level], t); }
    }
  }

  /** Settling an entry in the topmost cache makes the view answer with it. */
  lemma SettleTop(s: Stack, ref: seq<Plain>, t: Txid, e: Entry)
    requires Inv(s) && Agrees(s, ref) && e.dirty
    requires e.isFresh ==> Norm(Get(s, Top(s) - 1, t)).None?
    ensures var n := Top(s);
      var u := SetCache(s, n, Settle(s.caches[n - 1], t, e));
      Inv(u) && Agrees(u, ref[n := Put(ref[n], t, e.coins)])
  {
    var n := Top(s);
    var c := Settle(s.caches[n - 1], t, e);
    var p := Put(ref[n], t, e.coins);
    assert LevelOk(s, n - 1);
    forall x ensures Norm(if x in c then Some(c[x].coins) else Get(s, n - 1, x)) == Lookup(p, x) {
      assert Norm(Get(s, n, x)) == Lookup(ref[n], x);
    }
    NewTop(s, c, ref, p);
  }

  // ---------------------------------------------------------------- every operation agrees

  /** Fetching, in whatever disguise, changes no view. */
  lemma FetchAgrees(s: Stack, ref: seq<Plain>, level: nat, t: Txid)
    requires Inv(s) && Agrees(s, ref) && level <= |s.caches|
    ensures Inv(Fetch(s, level, t).0) && Agrees(Fetch(s, level, t).0, ref)
    ensures Norm(Fetch(s, level, t).1) == Lookup(ref[level], t)
  {
    FetchKeeps(s, level, t);
    assert Norm(Get(s, level, t)) == Lookup(ref[level], t);
    var u := Fetch(s, level, t).0;
    forall j: nat, x | j <= |u.caches| ensures Norm(Get(u, j, x)) == Lookup(ref[j], x) {
      assert Norm(Get(s, j, x)) == Lookup(ref[j], x);
    }
  }

  /** HaveCoins, which looks only for an empty output list, is true exactly of the
      transactions with an unspent output. */
  lemma HaveIffUnspent(s: Stack, ref: seq<Plain>, t: Txid)
    requires Inv(s) && Agrees(s, ref)
    ensures Have(s, t).1 <==> t in ref[Top(s)]
  {
    FetchKeeps(s, Top(s), t);
    GetClean(s, Top(s), t);
    assert Norm(Get(s, Top(s), t)) == Lookup(ref[Top(s)], t);
    if Get(s, Top(s), t).Some? { CleanPruned(Get(s, Top(s), t).value); }
  }

  /** A modification of the record the modifier hands out: the cached or fetched one, which
      may be a fully spent one. */
  lemma ModifyAgrees(s: Stack, ref: seq<Plain>, t: Txid, f: Coins -> Coins)
    requires Inv(s) && Agrees(s, ref)
    ensures var n := Top(s);
      Inv(Modify(s, t, f)) && Agrees(Modify(s, t, f), ref[n := Put(ref[n], t, f(Given(Get(s, n, t))))])
  {
    hide LevelOk, Put, Settle;
    var n := Top(s);
    if t in s.caches[n - 1] {
      FreshMeans(s, n - 1, t);
      SettleTop(s, ref, t, Entry(f(s.caches[n - 1][t].coins), true, s.caches[n - 1][t].isFresh));
    } else {
      FetchKeeps(s, n - 1, t);
      FetchAgrees(s, ref, n - 1, t);
      var (u, got) := Fetch(s, n - 1, t);
      assert Get(u, n - 1, t) == Get(s, n - 1, t);
      SettleTop(u, ref, t, Entry(f(Given(got)), true, got.None? || IsPruned(got.value)));
    }
  }

  lemma FreshMeans(s: Stack, k: nat, t: Txid)
    requires Inv(s) && k < |s.caches| && t in s.caches[k]
    ensures s.caches[k][t].isFresh ==> Norm(Get(s, k, t)).None?
  {
    assert LevelOk(s, k);
  }

  /** Records that leave the same behind: both nothing, or the same outputs and details. */
  predicate Same(c: Coins, d: Coins) {
    IsPruned(c) == IsPruned(d) && (IsPruned(c) || Cleanup(c) == Cleanup(d))
  }

  lemma PutSame(p: Plain, t: Txid, c: Coins, d: Coins)
    ensures Put(p, t, c) == Put(p, t, d) <==> Same(c, d)
  {
    hide IsPruned, Cleanup;
    if Put(p, t, c) == Put(p, t, d) {
      assert IsPruned(c) <==> t !in Put(p, t, c);
      assert !IsPruned(c) ==> Put(p, t, c)[t] == Cleanup(c);
      assert !IsPruned(d) ==> Put(p, t, d)[t] == Cleanup(d);
    }
  }

  /** Plain maps are determined by what they answer. */
  lemma AgreesOnce(s: Stack, ref: seq<Plain>, other: seq<Plain>)
    requires Agrees(s, ref) && Agrees(s, other)
    ensures ref == other
  {
    hide Get, Norm;
    forall level: nat | level <= |s.caches| ensures ref[level] == other[level] {
      forall t ensures Lookup(ref[level], t) == Lookup(other[level], t) {
        assert Norm(Get(s, level, t)) == Lookup(ref[level], t);
      }
      SameAnswers(ref[level], other[level]);
    }
  }

  lemma SameAnswers(p: Plain, q: Plain)
    requires forall t :: Lookup(p, t) == Lookup(q, t)
    ensures p == q
  {
    forall t ensures (t in p <==> t in q) && (t in p ==> p[t] == q[t]) {
      assert Lookup(p, t) == Lookup(q, t);
    }
  }

  /** ModifyCoins is the plain map's own modification exactly when the plain map has the record,
      or the modification leaves of the record handed out what it would leave of an empty one. */
  lemma ModifyIsPlainIff(s: Stack, ref: seq<Plain>, t: Txid, f: Coins -> Coins)
    requires Inv(s) && Agrees(s, ref)
    ensures var n := Top(s);
      Agrees(Modify(s, t, f), ref[n := Put(ref[n], t, f(Given(Lookup(ref[n], t))))]) <==>
      t in ref[n] || Same(f(Given(Get(s, n, t))), f(EMPTY))
  {
    hide Modify, Put, Get, LevelOk, DbOk, IsPruned, Cleanup, Agrees;
    var n := Top(s);
    AgreesAt(s, ref, t);
    ModifyAgrees(s, ref, t, f);
    var c, d := f(Given(Get(s, n, t))), f(Given(Lookup(ref[n], t)));
    var ours, plain := ref[n := Put(ref[n], t, c)], ref[n := Put(ref[n], t, d)];
    if Agrees(Modify(s, t, f), plain) {
      AgreesOnce(Modify(s, t, f), ours, plain);
      assert ours[n] == plain[n];
    }
    PutSame(ref[n], t, c, d);
    if t in ref[n] { assert c == d; }
  }

  lemma AgreesAt(s: Stack, ref: seq<Plain>, t: Txid)
    requires Agrees(s, ref)
    ensures var n := Top(s);
      |ref| == n + 1 && Norm(Get(s, n, t)) == Lookup(ref[n], t)
      && (t in ref[n] ==> Given(Get(s, n, t)) == Given(Lookup(ref[n], t)))
  {
    assert Norm(Get(s, Top(s), t)) == Lookup(ref[Top(s)], t);
  }

  /** A modification that does the same to a fully spent record, cleaned up as every record in
      a cache is, as to an empty one. */
  ghost predicate Blind(f: Coins -> Coins) {
    forall c :: Clean(c) && IsPruned(c) ==> Same(f(c), f(EMPTY))
  }

  /** Such a modification is the plain map's own, and so is any of an unspent record. */
  lemma ModifyIsPlain(s: Stack, ref: seq<Plain>, t: Txid, f: Coins -> Coins)
    requires Inv(s) && Agrees(s, ref) && (t in ref[Top(s)] || Blind(f))
    ensures var n := Top(s);
      Inv(Modify(s, t, f)) && Agrees(Modify(s, t, f), ref[n := Put(ref[n], t, f(Given(Lookup(ref[n], t))))])
  {
    hide Modify, Put, LevelOk, DbOk, Same, Cleanup;
    var n := Top(s);
    AgreesAt(s, ref, t);
    GetClean(s, n, t);
    if t !in ref[n] { assert Same(f(Given(Get(s, n, t))), f(EMPTY)); }
    ModifyIsPlainIff(s, ref, t, f);
    ModifyAgrees(s, ref, t, f);
  }

  /** Without that, what is left of a spent record shows: here its height does, after a coinbase
      record without outputs was put in an empty cache over an empty database. */
  lemma SpentRecordShows()
    ensures var spent := Coins(true, false, [], 7, 1, 0);
      var start, ref: seq<Plain> := Stack(map[], [map[]]), [map[], map[]];
      var s := ModifyNew(start, 1, true, spent);
      var f := (c: Coins) => c.(vout := [Some(Out(1, []))]);
      && Inv(start) && Agrees(start, ref) && Inv(s) && Agrees(s, ref)
      && !Agrees(Modify(s, 1, f), ref[1 := Put(ref[1], 1, f(Given(Lookup(ref[1], 1))))])
  {
    var spent := Coins(true, false, [], 7, 1, 0);
    var start := Stack(map[], [map[]]);
    assert LevelOk(start, 0);
    assert Inv(start);
    var s := ModifyNew(start, 1, true, spent);
    assert s == Stack(map[], [map[1 := Entry(spent, true, false)]]);
    var ref: seq<Plain> := [map[], map[]];
    assert Agrees(start, ref) by {
      forall level: nat, t | level <= 1 ensures Norm(Get(start, level, t)) == Lookup(ref[level], t) {}
    }
    var f := (c: Coins) => c.(vout := [Some(Out(1, []))]);
    assert LevelOk(s, 0);
    assert Inv(s);
    assert Agrees(s, ref) by {
      forall level: nat, t | level <= 1 ensures Norm(Get(s, level, t)) == Lookup(ref[level], t) {}
    }
    var r := ref[Top(s) := Put(ref[Top(s)], 1, f(Given(Lookup(ref[Top(s)], 1))))];
    assert f(spent).vout[0].Some?;
    assert Norm(Get(Modify(s, 1, f), 1, 1)).value.height == 7;
    assert Lookup(r[1], 1).value.height == 0;
    assert !Agrees(Modify(s, 1, f), r);
  }

  /** ModifyNewCoins for something other than a coinbase is right exactly when the base has
      nothing unspent under that id; for a coinbase it always is. */
  lemma ModifyNewAgreesIff(s: Stack, ref: seq<Plain>, t: Txid, coinbase: bool, made: Coins)
    requires Inv(s) && Agrees(s, ref)
    ensures var n := Top(s);
      var u := ModifyNew(s, t, coinbase, made);
      Inv(u) && Agrees(u, ref[n := Put(ref[n], t, made)]) <==> coinbase || t !in ref[n - 1]
  {
    var n := Top(s);
    var c := s.caches[n - 1];
    var u := ModifyNew(s, t, coinbase, made);
    assert Norm(Get(s, n - 1, t)) == Lookup(ref[n - 1], t);
    if t in c { FreshMeans(s, n - 1, t); }
    if coinbase || t !in ref[n - 1] {
      SettleTop(s, ref, t, Entry(made, true, if coinbase then t in c && c[t].isFresh else true));
    } else {
      TopOnly(s, u, n - 1, t);
      if IsPruned(made) {
        assert t !in u.caches[n - 1];
        assert Norm(Get(u, n, t)).Some? && Lookup(ref[n := Put(ref[n], t, made)][n], t).None?;
      } else {
        assert t in u.caches[n - 1] && u.caches[n - 1][t].isFresh;
        assert !LevelOk(u, n - 1);
      }
    }
  }

  lemma UncacheAgrees(s: Stack, ref: seq<Plain>, t: Txid)
    requires Inv(s) && Agrees(s, ref)
    ensures Inv(Uncache(s, t)) && Agrees(Uncache(s, t), ref)
  {
    var n := Top(s);
    var c := s.caches[n - 1];
    if t in c && !c[t].dirty && !c[t].isFresh {
      assert LevelOk(s, n - 1);
      assert EntryOk(c[t], Get(s, n - 1, t));
      forall x ensures Norm(if x in c - {t} then Some((c - {t})[x].coins) else Get(s, n - 1, x)) == Lookup(ref[n], x) {
        assert Norm(Get(s, n, x)) == Lookup(ref[n], x);
      }
      NewTop(s, c - {t}, ref, ref[n]);
      assert ref[|ref| - 1 := ref[n]] == ref;
    }
  }

  // ---------------------------------------------------------------- Flush

  /** Only the entry of t may differ. */
  ghost predicate SameButFor(c: Cache, d: Cache, t: Txid) {
    forall x :: x != t ==> EntryOf(d, x) == EntryOf(c, x)
  }

  /** Uncache takes an entry without flags out of the topmost cache, and nothing else. */
  lemma UncacheEffect(s: Stack, t: Txid)
    requires s.caches != []
    ensures
      var u, n := Uncache(s, t), Top(s);
      var was := EntryOf(s.caches[n - 1], t);
      && u.db == s.db && Top(u) == n && Pop(u) == Pop(s) && SameButFor(s.caches[n - 1], u.caches[n - 1], t)
      && (EntryOf(u.caches[n - 1], t) == if was.Some? && (was.value.dirty || was.value.isFresh) then was else None)
  {
  }

  /** Fetching leaves what it found in the cache, clean, and changes no entry that was there. */
  lemma {:induction false} FetchEffect(s: Stack, level: nat, t: Txid)
    requires level <= |s.caches|
    ensures
      var (u, got) := Fetch(s, level, t);
      && u.db == s.db && |u.caches| == |s.caches|
      && (forall k :: 0 <= k < |s.caches| ==> SameButFor(s.caches[k], u.caches[k], t))
      && (forall k :: 0 <= k < |s.caches| && (t in s.caches[k] || level <= k) ==> u.caches[k] == s.caches[k])
      && (level > 0 && got.Some? ==> t in u.caches[level - 1] && u.caches[level - 1][t].coins == got.value)
      && (level > 0 && got.Some? && t !in s.caches[level - 1] ==>
            u.caches[level - 1][t] == Entry(got.value, false, IsPruned(got.value)))
      && (got.None? ==> forall k :: 0 <= k < level ==> u.caches[k] == s.caches[k] && t !in s.caches[k])
  {
    if level > 0 && t !in s.caches[level - 1] { FetchEffect(s, level - 1, t); }
  }

  /** Flushing leaves the topmost cache empty and changes only the level below it. */
  lemma FlushEffect(s: Stack)
    requires s.caches != []
    ensures
      var u, n := Flush(s), Top(s);
      && Top(u) == n && u.caches[n - 1] == map[]
      && (n > 1 ==> u.db == s.db)
      && (forall k :: 0 <= k < n - 2 ==> u.caches[k] == s.caches[k])
  {
  }

  /** A modifier leaves its own entry dirty or gone, and the other entries of its cache alone. */
  lemma ModifyEffect(s: Stack, t: Txid, f: Coins -> Coins, coinbase: bool, made: Coins)
    requires s.caches != []
    ensures forall u :: u in [Modify(s, t, f), ModifyNew(s, t, coinbase, made)] ==>
      && u.db == s.db && Top(u) == Top(s) && SameButFor(s.caches[Top(s) - 1], u.caches[Top(s) - 1], t)
      && (t in u.caches[Top(s) - 1] ==> u.caches[Top(s) - 1][t].dirty && Clean(u.caches[Top(s) - 1][t].coins))
  {
    FetchEffect(s, Top(s) - 1, t);
  }

  /** The merged entry answers as the child did, and its flags are right about what is below. */
  lemma MergedRight(ours: Option<Entry>, child: Entry, below: Option<Coins>)
    requires Clean(child.coins)
    requires ours.Some? ==> EntryOk(ours.value, below)
    requires EntryOk(child, if ours.Some? then Some(ours.value.coins) else below)
    ensures var m := Merged(ours, child);
      && (m.Some? ==> EntryOk(m.value, below))
      && Norm(if m.Some? then Some(m.value.coins) else below) == Norm(Some(child.coins))
  {
  }

  lemma FlushLevels(s: Stack, level: nat, t: Txid)
    requires Inv(s) && Top(s) >= 2 && level < Top(s) - 1
    ensures Get(Flush(s), level, t) == Get(s, level, t)
  {
    var u := Flush(s);
    assert u.caches[..level] == s.caches[..level];
    GetBelow(s, u, level, t);
  }

  /** In the cache flushed to, one transaction at a time. */
  lemma FlushOne(s: Stack, t: Txid)
    requires Inv(s) && Top(s) >= 2
    ensures var n := Top(s);
      var u := Flush(s);
      && Norm(Get(u, n - 1, t)) == Norm(Get(s, n, t))
      && (t in u.caches[n - 2] ==> EntryOk(u.caches[n - 2][t], Get(s, n - 2, t)))
  {
    var n := Top(s);
    var u := Flush(s);
    var ours, child := s.caches[n - 2], s.caches[n - 1];
    assert LevelOk(s, n - 1) && LevelOk(s, n - 2);
    FlushLevels(s, n - 2, t);
    assert u.caches[n - 2] == BatchWrite(ours, child);
    assert EntryOf(u.caches[n - 2], t) == if t in child then Merged(EntryOf(ours, t), child[t]) else EntryOf(ours, t);
    if t in child {
      MergedRight(EntryOf(ours, t), child[t], Get(s, n - 2, t));
    }
  }

  /** Flush moves the topmost view unchanged to its base, and leaves every other view alone. */
  lemma FlushAgrees(s: Stack, ref: seq<Plain>)
    requires Inv(s) && Agrees(s, ref)
    ensures Inv(Flush(s)) && Agrees(Flush(s), ref[Top(s) - 1 := ref[Top(s)]])
  {
    hide IsPruned, BatchWrite, BatchWriteDb, EntryOk, Norm;
    var n := Top(s);
    if n == 1 {
      FlushDb(s, ref);
    } else {
      var u := Flush(s);
      forall k: nat | k < |u.caches| ensures LevelOk(u, k) {
        assert LevelOk(s, k);
        forall t | t in u.caches[k] ensures EntryOk(u.caches[k][t], Get(u, k, t)) {
          if k <= n - 2 { FlushLevels(s, k, t); }
          if k == n - 2 { FlushOne(s, t); }
        }
      }
      forall level: nat, t | level <= n ensures Norm(Get(u, level, t)) == Lookup(ref[n - 1 := ref[n]][level], t) {
        assert Norm(Get(s, level, t)) == Lookup(ref[level], t);
        assert Norm(Get(s, n, t)) == Lookup(ref[n], t);
        if level < n - 1 { FlushLevels(s, level, t); } else { FlushOne(s, t); }
      }
    }
  }

  lemma FlushDb(s: Stack, ref: seq<Plain>)
    requires Inv(s) && Agrees(s, ref) && Top(s) == 1
    ensures Inv(Flush(s)) && Agrees(Flush(s), ref[0 := ref[1]])
  {
    var u := Flush(s);
    assert LevelOk(s, 0) && LevelOk(u, 0);
    forall level: nat, t | level <= 1 ensures Norm(Get(u, level, t)) == Lookup(ref[0 := ref[1]][level], t) {
      assert Norm(Get(s, 1, t)) == Lookup(ref[1], t);
      assert Norm(Get(s, 0, t)) == Lookup(ref[0], t);
    }
  }

  lemma PushAgrees(s: Stack, ref: seq<Plain>)
    requires Inv(s) && Agrees(s, ref)
    ensures Inv(Push(s)) && Agrees(Push(s), ref + [ref[Top(s)]])
  {
    hide IsPruned, EntryOk, Norm;
    var u := Push(s);
    var n := Top(s);
    forall level: nat, t | level <= n ensures Get(u, level, t) == Get(s, level, t) {
      assert u.caches[..level] == s.caches[..level];
      GetBelow(s, u, level, t);
    }
    forall k: nat | k < |u.caches| ensures LevelOk(u, k) {
      if k < n { assert LevelOk(s, k); }
    }
    forall level: nat, t | level <= n + 1 ensures Norm(Get(u, level, t)) == Lookup((ref + [ref[n]])[level], t) {
      if level <= n { assert Norm(Get(s, level, t)) == Lookup(ref[level], t); }
      else { assert Get(u, level, t) == Get(u, n, t); assert Norm(Get(s, n, t)) == Lookup(ref[n], t); }
    }
  }

  lemma PopAgrees(s: Stack, ref: seq<Plain>)
    requires Inv(s) && Agrees(s, ref) && Top(s) >= 2
    ensures Inv(Pop(s)) && Agrees(Pop(s), ref[..|ref| - 1])
  {
    hide IsPruned, EntryOk, Norm;
    var u := Pop(s);
    forall level: nat, t | level <= |u.caches| ensures Get(u, level, t) == Get(s, level, t) {
      assert u.caches[..level] == s.caches[..level];
      GetBelow(s, u, level, t);
    }
    forall k: nat | k < |u.caches| ensures LevelOk(u, k) { assert LevelOk(s, k); }
    forall level: nat, t | level <= |u.caches| ensures Norm(Get(u, level, t)) == Lookup(ref[..|ref| - 1][level], t) {
      assert Norm(Get(s, level, t)) == Lookup(ref[level], t);
    }
  }

  // ---------------------------------------------------------------- runs

  datatype Op =
    | OpFetch(fetched: Txid)
    | OpModify(modified: Txid, f: Coins -> Coins)
    | OpNew(created: Txid, coinbase: bool, made: Coins)
    | OpUncache(uncached: Txid)
    | OpFlush
    | OpPush
    | OpPop

  function Apply(s: Stack, op: Op): Stack
    requires s.caches != []
  {
    match op
    case OpFetch(t) => Fetch(s, Top(s), t).0
    case OpModify(t, f) => Modify(s, t, f)
    case OpNew(t, coinbase, made) => ModifyNew(s, t, coinbase, made)
    case OpUncache(t) => Uncache(s, t)
    case OpFlush => Flush(s)
    case OpPush => Push(s)
    case OpPop => Pop(s)
  }

  /** The same operation on plain maps. */
  function ApplyPlain(ref: seq<Plain>, op: Op): seq<Plain>
    requires |ref| >= 2
  {
    var n := |ref| - 1;
    match op
    case OpFetch(_) => ref
    case OpModify(t, f) => ref[n := Put(ref[n], t, f(Given(Lookup(ref[n], t))))]
    case OpNew(t, _, made) => ref[n := Put(ref[n], t, made)]
    case OpUncache(_) => ref
    case OpFlush => ref[n - 1 := ref[n]]
    case OpPush => ref + [ref[n]]
    case OpPop => ref[..n]
  }

  /** What the callers promise, said of the plain maps: a new record that is not a
      coinbase's is new, modifications of what has nothing unspent treat a spent record as an
      empty one, and the lowest cache stays. */
  ghost predicate Proper(ref: seq<Plain>, op: Op)
    requires |ref| >= 2
  {
    match op
    case OpModify(t, f) => t in ref[|ref| - 1] || Blind(f)
    case OpNew(t, coinbase, _) => coinbase || t !in ref[|ref| - 2]
    case OpPop => |ref| >= 3
    case _ => true
  }

  lemma ApplyAgrees(s: Stack, ref: seq<Plain>, op: Op)
    requires Inv(s) && Agrees(s, ref) && Proper(ref, op)
    ensures Inv(Apply(s, op)) && Agrees(Apply(s, op), ApplyPlain(ref, op)) && |ApplyPlain(ref, op)| >= 2
  {
    hide Agrees, LevelOk, DbOk, Fetch, Modify, ModifyNew, Uncache, Flush, Put, Blind;
    AgreesLength(s, ref);
    match op
    case OpFetch(t) => FetchAgrees(s, ref, Top(s), t);
    case OpModify(t, f) => ModifyIsPlain(s, ref, t, f);
    case OpNew(t, coinbase, made) => ModifyNewAgreesIff(s, ref, t, coinbase, made);
    case OpUncache(t) => UncacheAgrees(s, ref, t);
    case OpFlush => FlushAgrees(s, ref);
    case OpPush => PushAgrees(s, ref);
    case OpPop => PopAgrees(s, ref);
  }

  lemma AgreesLength(s: Stack, ref: seq<Plain>)
    requires Agrees(s, ref)
    ensures |ref| == |s.caches| + 1
  {
  }

  ghost predicate ProperRun(ref: seq<Plain>, ops: seq<Op>)
    requires |ref| >= 2
    decreases |ops|
  {
    ops == [] || (Proper(ref, ops[0]) && |ApplyPlain(ref, ops[0])| >= 2 && ProperRun(ApplyPlain(ref, ops[0]), ops[1..]))
  }

  function RunPlain(ref: seq<Plain>, ops: seq<Op>): seq<Plain>
    decreases |ops|
  {
    if ops == [] || |ref| < 2 then ref else RunPlain(ApplyPlain(ref, ops[0]), ops[1..])
  }

  function Run(s: Stack, ops: seq<Op>): Stack
    decreases |ops|
  {
    if ops == [] || s.caches == [] then s else Run(Apply(s, ops[0]), ops[1..])
  }

  /** For any depth of caches and any proper run, every view equals the plain map updated
      directly, and the flags stay right. */
  lemma {:induction false} RunAgrees(s: Stack, ref: seq<Plain>, ops: seq<Op>)
    requires Inv(s) && Agrees(s, ref) && ProperRun(ref, ops)
    ensures Inv(Run(s, ops)) && Agrees(Run(s, ops), RunPlain(ref, ops))
    decreases |ops|
  {
    hide Agrees, LevelOk, DbOk, Apply, ApplyPlain, Proper;
    AgreesLength(s, ref);
    if ops != [] {
      ApplyAgrees(s, ref, ops[0]);
      RunAgrees(Apply(s, ops[0]), ApplyPlain(ref, ops[0]), ops[1..]);
    }
  }

  /** Every run starts from one empty cache over a database of clean, unspent records. */
  lemma StartAgrees(db: map<Txid, Coins>)
    requires forall t :: t in db ==> Clean(db[t]) && !IsPruned(db[t])
    ensures Inv(Stack(db, [map[]])) && Agrees(Stack(db, [map[]]), [db, db])
  {
    var s := Stack(db, [map[]]);
    assert LevelOk(s, 0);
    forall level: nat, t | level <= 1 ensures Norm(Get(s, level, t)) == Lookup([db, db][level], t) {}
  }
}
