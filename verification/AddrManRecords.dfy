/** What the operations of the address manager do to the record of one address: each note
    field by field, the history of tries and successes over whole runs, and the tests that
    decide which addresses are given away or forgotten. */
module AddrManRecords {
  import opened Basics
  import opened AddrManState
  import opened AddrManProofs
  import opened AddrManRuns

  // ------------------------------------------------------------- one note

  /** What a note changes in the record i of its service, field by field. */
  predicate RightlyNoted(i: Info, j: Info, n: Note, lastGood: int) {
    match n
    case Attempted(count, t) =>
      var counts := count && i.lastCountAttempt < lastGood;
      && j == i.(lastTry := t, attempts := j.attempts, lastCountAttempt := j.lastCountAttempt)
      && (counts ==> j.attempts == i.attempts + 1 && j.lastCountAttempt == t)
      && (!counts ==> j.attempts == i.attempts && j.lastCountAttempt == i.lastCountAttempt)
    case Connected(t) =>
      && j == i.(time := j.time)
      && (t > i.time + 1200 ==> j.time == t % 0x1_0000_0000)
      && (t <= i.time + 1200 ==> j.time == i.time)
    case SetServices(s) => j == i.(services := s)
  }

  /** Attempt_, Connected_ and SetServices_ change the record of the service they name, as
      RightlyNoted says, and nothing else; for a service that has no record, nothing at all. */
  lemma AnnotateEffect(m: Man, a: Service, n: Note)
    requires Index(m)
    ensures var r := Annotate(m, a, n);
      && r == m.(mapInfo := r.mapInfo) && r.mapInfo.Keys == m.mapInfo.Keys
      && (forall k :: k in m.mapInfo && m.mapInfo[k].service == a ==>
            RightlyNoted(m.mapInfo[k], r.mapInfo[k], n, m.lastGood))
      && (forall k :: k in m.mapInfo && m.mapInfo[k].service != a ==> Untouched(m, r, k))
      && ((forall k :: k in m.mapInfo ==> m.mapInfo[k].service != a) ==> r == m)
  {
    var r := Annotate(m, a, n);
    forall k | k in m.mapInfo
      ensures if m.mapInfo[k].service == a then RightlyNoted(m.mapInfo[k], r.mapInfo[k], n, m.lastGood)
              else Untouched(m, r, k)
    {
      assert IdOk(m, k);
      if m.mapInfo[k].service != a {
        if r == m { UntouchedReflexive(m, k); } else { EditLeaves(m, r, Find(m, a.ip).value, k); }
      }
    }
  }

  // ------------------------------------------------------------- the history of an address

  /** What the manager remembers of its tries of one address, with the time of its own last
      success anywhere. */
  datatype History = History(lastTry: int, lastSuccess: int, attempts: int, lastCountAttempt: int, lastGood: int)

  function HistoryOf(m: Man, id: int): History
    requires id in m.mapInfo
  {
    var i := m.mapInfo[id];
    History(i.lastTry, i.lastSuccess, i.attempts, i.lastCountAttempt, m.lastGood)
  }

  /** The history of the service a after one operation, whatever is in the tables. */
  function Lived(h: History, a: Service, op: Op): History {
    match op
    case OpGood(b, t) =>
      if b == a then History(t, t, 0, h.lastCountAttempt, t) else h.(lastGood := t)
    case OpNote(b, Attempted(count, t)) =>
      if b != a then h
      else if count && h.lastCountAttempt < h.lastGood
      then h.(lastTry := t, attempts := h.attempts + 1, lastCountAttempt := t)
      else h.(lastTry := t)
    case _ => h
  }

  function LivedAll(h: History, a: Service, ops: seq<Op>): History
    decreases |ops|
  {
    if ops == [] then h else LivedAll(Lived(h, a, ops[0]), a, ops[1..])
  }

  /** The fields that only Attempt_ and Good_ change, and the service they belong to. */
  predicate SameHistory(i: Info, j: Info) {
    && i.service == j.service && i.lastTry == j.lastTry && i.lastSuccess == j.lastSuccess
    && i.attempts == j.attempts && i.lastCountAttempt == j.lastCountAttempt
  }

  /** Entries that are in r were in m, with the same history, or are younger than m. */
  predicate Descends(m: Man, r: Man) {
    && m.idCount <= r.idCount
    && forall k :: k in r.mapInfo && k < m.idCount ==> k in m.mapInfo && SameHistory(m.mapInfo[k], r.mapInfo[k])
  }

  lemma DescendsTransitive(a: Man, b: Man, c: Man)
    requires Descends(a, b) && Descends(b, c)
    ensures Descends(a, c)
  {
  }

  lemma DeleteDescends(m: Man, id: int)
    requires Index(m) && id in m.mapInfo
    ensures Descends(m, Delete(m, id))
  {
    hide Index;
    var r := Delete(m, id);
    forall k | k in r.mapInfo ensures k in m.mapInfo && SameHistory(m.mapInfo[k], r.mapInfo[k]) {
      DeleteTouches(m, id, k);
    }
  }

  lemma ClearNewDescends(m: Man, s: Slot)
    requires Known(m)
    ensures Descends(m, ClearNew(m, s))
  {
    if s in m.vvNew {
      var u := Unlink(m, s);
      SameIndexKeepsIndex(m, u);
      DeleteDescends(u, m.vvNew[s]);
      DescendsTransitive(m, u, Delete(u, m.vvNew[s]));
    }
  }

  lemma PlaceDescends(hs: Hashes, m: Man, id: int, src: NetAddr, now: int)
    requires Known(m) && id in m.mapInfo
    ensures Descends(m, Place(hs, m, id, src, now))
  {
    hide Index, IsTerrible, ClearNew, Delete;
    var s := NewSlot(hs, m.key, m.mapInfo[id].service, src);
    ClearNewDescends(m, s);
    DeleteDescends(m, id);
  }

  lemma ReadmitDescends(hs: Hashes, m: Man, id: int)
    requires Known(m) && id in m.mapInfo && Held(m, id) == {}
    ensures Descends(m, Readmit(hs, m, id))
  {
    hide Index, ClearNew;
    var s := NewSlot(hs, m.key, m.mapInfo[id].service, m.mapInfo[id].source);
    ClearNewDescends(m, s);
    assert s in m.vvNew ==> s in Held(m, m.vvNew[s]);
    var c, r := ClearNew(m, s), Readmit(hs, m, id);
    assert r.mapInfo == c.mapInfo[id := c.mapInfo[id].(refCount := 1)];
  }

  lemma DisplaceDescends(hs: Hashes, m: Man, s: Slot)
    requires Known(m) && s in m.vvTried && Held(m, m.vvTried[s]) == {}
    ensures Descends(m, Displace(hs, m, s))
  {
    hide IdOk, AddrOk, PosOk, Readmit;
    var e := Evict(m, s);
    SameIndexKeepsIndex(m, e);
    assert Held(e, m.vvTried[s]) == Held(m, m.vvTried[s]);
    ReadmitDescends(hs, e, m.vvTried[s]);
    DescendsTransitive(m, e, Readmit(hs, e, m.vvTried[s]));
  }

  lemma WithdrawDescends(m: Man, id: int)
    requires Known(m) && id in m.mapInfo && TriedApart(m)
    ensures
      var w := Withdraw(m, id);
      && Known(w) && Descends(m, w) && w.vvTried == m.vvTried && w.key == m.key
      && forall s :: s in w.vvTried ==> Held(w, w.vvTried[s]) == {}
  {
    hide IdOk, AddrOk, PosOk;
    var w := Withdraw(m, id);
    SameIndexKeepsIndex(m, w);
    forall s | s in w.vvTried ensures Held(w, w.vvTried[s]) == {} {
      assert Held(w, w.vvTried[s]) <= Held(m, m.vvTried[s]);
    }
  }

  lemma MakeTriedDescends(hs: Hashes, m: Man, id: int)
    requires Known(m) && id in m.mapInfo && TriedApart(m)
    ensures Descends(m, MakeTried(hs, m, id))
  {
    hide TriedSlot, Displace, Withdraw, Index;
    var w := Withdraw(m, id);
    WithdrawDescends(m, id);
    var s := TriedSlot(hs, m.key, m.mapInfo[id].service);
    if s in w.vvTried {
      DisplaceDescends(hs, w, s);
      DescendsTransitive(m, w, Displace(hs, w, s));
    }
  }

  /** One operation: an entry that is still there has lived through it. */
  predicate LivesOn(m: Man, r: Man, op: Op) {
    && m.idCount <= r.idCount
    && forall k :: k in r.mapInfo && k < m.idCount ==>
         && k in m.mapInfo && r.mapInfo[k].service == m.mapInfo[k].service
         && HistoryOf(r, k) == Lived(HistoryOf(m, k), m.mapInfo[k].service, op)
  }

  lemma IndexFinds(m: Man, k: int)
    requires Index(m) && k in m.mapInfo
    ensures Find(m, m.mapInfo[k].service.ip) == Some(k)
  {
    assert IdOk(m, k);
  }

  lemma GoodLives(hs: Hashes, m: Man, a: Service, t: int)
    requires Known(m) && TriedApart(m)
    ensures LivesOn(m, Good(hs, m, a, t), OpGood(a, t))
  {
    hide IdOk, AddrOk, PosOk, MakeTried;
    var r := Good(hs, m, a, t);
    forall k | k in m.mapInfo && m.mapInfo[k].service == a ensures Find(m, a.ip) == Some(k) {
      IndexFinds(m, k);
    }
    if Find(m, a.ip).Some? {
      var id := Find(m, a.ip).value;
      var i := m.mapInfo[id];
      if i.service == a && !i.inTried && Held(m, id) != {} {
        var u := WithInfo(m.(lastGood := t), id, i.(lastSuccess := t, lastTry := t, attempts := 0));
        SameIndexKeepsIndex(m, u);
        assert forall s :: s in u.vvTried ==> Held(u, u.vvTried[s]) <= Held(m, m.vvTried[s]);
        MakeTriedDescends(hs, u, id);
        MakeTriedScalars(hs, u, id);
        assert r == MakeTried(hs, u, id);
      }
    }
  }

  lemma RefreshedDescends(hs: Hashes, m: Man, id: int, i: Info, src: NetAddr, now: int)
    requires Known(m) && id in m.mapInfo && SameHistory(m.mapInfo[id], i) && SamePlace(m, WithInfo(m, id, i), id)
    ensures Known(WithInfo(m, id, i)) && Descends(m, WithInfo(m, id, i))
    ensures
      var r := Place(hs, WithInfo(m, id, i), id, src, now);
      Descends(m, r) && r.lastGood == m.lastGood
  {
    hide IdOk, AddrOk, PosOk, Place;
    var u := WithInfo(m, id, i);
    SameIndexKeepsIndex(m, u);
    PlaceDescends(hs, u, id, src, now);
    PlaceScalars(hs, u, id, src, now);
    DescendsTransitive(m, u, Place(hs, u, id, src, now));
  }

  lemma CreatedDescends(hs: Hashes, m: Man, aged: Address, src: NetAddr, now: int)
    requires Known(m) && Find(m, aged.service.ip).None?
    ensures
      var c := Create(m, aged, src).(nNew := m.nNew + 1);
      && Known(c)
      && var r := Place(hs, c, m.idCount, src, now);
         Descends(m, r) && r.lastGood == m.lastGood
  {
    hide IdOk, AddrOk, PosOk, Place;
    CreateIndex(m, aged, src);
    var c := Create(m, aged, src).(nNew := m.nNew + 1);
    SameIndexKeepsIndex(Create(m, aged, src), c);
    PlaceDescends(hs, c, m.idCount, src, now);
    PlaceScalars(hs, c, m.idCount, src, now);
    DescendsTransitive(m, c, Place(hs, c, m.idCount, src, now));
  }

  lemma AddDescends(hs: Hashes, m: Man, addr: Address, src: NetAddr, penalty: int, now: int, luck: nat)
    requires Known(m)
    ensures
      var r := Add(hs, m, addr, src, penalty, now, luck).0;
      Descends(m, r) && r.lastGood == m.lastGood
  {
    hide Index, Place, WantsAnother, Trunc32, Create;
    if hs.routable(addr.service.ip) {
      match Find(m, addr.service.ip)
      case Some(id) => RefreshedDescends(hs, m, id, Refreshed(m.mapInfo[id], addr, penalty, now), src, now);
      case None => CreatedDescends(hs, m, addr.(time := Trunc32(Max(0, addr.time - penalty))), src, now);
    }
  }

  lemma PlaceScalars(hs: Hashes, m: Man, id: int, src: NetAddr, now: int)
    requires Known(m) && id in m.mapInfo
    ensures SameScalars(m, Place(hs, m, id, src, now))
  {
    hide IdOk, AddrOk, PosOk, ClearNew, IsTerrible, NewSlot;
  }

  lemma NoteLives(m: Man, a: Service, n: Note)
    requires Index(m)
    ensures LivesOn(m, Annotate(m, a, n), OpNote(a, n))
  {
    hide IdOk, AddrOk, PosOk, Annotate;
    AnnotateEffect(m, a, n);
  }

  lemma ApplyLives(hs: Hashes, m: Man, op: Op)
    requires Consistent(hs, m)
    ensures LivesOn(m, Apply(hs, m, op), op)
  {
    hide Index, Tables, Counts, Add, Good, Annotate, GetAddrFrom;
    ConsistentIsKnown(hs, m);
    match op
    case OpAdd(a, src, penalty, now, luck) => AddDescends(hs, m, a, src, penalty, now, luck);
    case OpGood(a, t) => GoodLives(hs, m, a, t);
    case OpNote(a, n) => NoteLives(m, a, n);
    case OpGetAddr(rnd, now) =>
      GetAddrResult(m, rnd, now);
      assert forall k :: k in m.mapInfo ==> SameRecord(m, GetAddrFrom(m, 0, rnd, now, []).0, k);
  }

  /** Over any run, the history of an address that is still known at the end is the one its
      own service has lived through, whatever moved in the tables meanwhile. */
  lemma {:induction false} HistoryKept(hs: Hashes, m: Man, ops: seq<Op>, id: int)
    requires Consistent(hs, m) && forall k :: 0 <= k < |ops| ==> Timed(ops[k])
    requires id < m.idCount && id in Run(hs, m, ops).mapInfo
    ensures id in m.mapInfo
    ensures var r := Run(hs, m, ops);
      && r.mapInfo[id].service == m.mapInfo[id].service
      && HistoryOf(r, id) == LivedAll(HistoryOf(m, id), m.mapInfo[id].service, ops)
    decreases |ops|
  {
    hide Consistent, Apply, Lived;
    if ops != [] {
      ApplyKeeps(hs, m, ops[0]);
      ApplyLives(hs, m, ops[0]);
      HistoryKept(hs, Apply(hs, m, ops[0]), ops[1..], id);
    }
  }

  /** Tries of a at the given times, with a success of b before each. */
  function FailedTries(a: Service, b: Service, goods: seq<int>, tries: seq<int>): seq<Op>
    requires |goods| == |tries|
  {
    if tries == [] then [] else
    [OpGood(b, goods[0]), OpNote(a, Attempted(true, tries[0]))] + FailedTries(a, b, goods[1..], tries[1..])
  }

  /** Each success is newer than the try before it. */
  predicate InTurn(counted: int, goods: seq<int>, tries: seq<int>)
    requires |goods| == |tries|
  {
    forall i :: 0 <= i < |tries| ==> (if i == 0 then counted else tries[i - 1]) < goods[i]
  }

  /** Every one of them counts. */
  lemma {:induction false} TriesCount(h: History, a: Service, b: Service, goods: seq<int>, tries: seq<int>)
    requires |goods| == |tries| && b != a && InTurn(h.lastCountAttempt, goods, tries)
    ensures
      var r := LivedAll(h, a, FailedTries(a, b, goods, tries));
      && r.attempts == h.attempts + |tries| && r.lastSuccess == h.lastSuccess
      && r.lastTry == if tries == [] then h.lastTry else tries[|tries| - 1]
    decreases |tries|
  {
    if tries != [] {
      var good, try, rest := OpGood(b, goods[0]), OpNote(a, Attempted(true, tries[0])),
        FailedTries(a, b, goods[1..], tries[1..]);
      var ops := FailedTries(a, b, goods, tries);
      assert ops[0] == good && ops[1..][0] == try && ops[1..][1..] == rest;
      var g := Lived(h, a, good);
      var t := Lived(g, a, try);
      assert LivedAll(h, a, ops) == LivedAll(g, a, ops[1..]) == LivedAll(t, a, rest);
      forall i | 0 <= i < |tries[1..]|
        ensures (if i == 0 then t.lastCountAttempt else tries[1..][i - 1]) < goods[1..][i]
      {
        assert (if i + 1 == 0 then h.lastCountAttempt else tries[i + 1 - 1]) < goods[i + 1];
      }
      TriesCount(t, a, b, goods[1..], tries[1..]);
    }
  }

  /** Ten failed tries, each after a newer success elsewhere, make an address that did not
      succeed in the last week terrible a minute after the last of them. */
  lemma FailuresMakeTerrible(hs: Hashes, m: Man, id: int, b: Service, goods: seq<int>, tries: seq<int>, now: int)
    requires Consistent(hs, m) && id in m.mapInfo && b != m.mapInfo[id].service
    requires |goods| == |tries| > 0 && InTurn(m.mapInfo[id].lastCountAttempt, goods, tries)
    requires m.mapInfo[id].attempts + |tries| >= 10 && now > tries[|tries| - 1] + 60
    requires now > m.mapInfo[id].lastSuccess + 7 * 86400
    requires var ops := FailedTries(m.mapInfo[id].service, b, goods, tries);
      && (forall k :: 0 <= k < |ops| ==> Timed(ops[k]))
      && id in Run(hs, m, ops).mapInfo
    ensures IsTerrible(Run(hs, m, FailedTries(m.mapInfo[id].service, b, goods, tries)).mapInfo[id], now)
  {
    hide Consistent, Run, FailedTries, LivedAll, InTurn;
    var a := m.mapInfo[id].service;
    IndexBounds(hs, m, id);
    HistoryKept(hs, m, FailedTries(a, b, goods, tries), id);
    TriesCount(HistoryOf(m, id), a, b, goods, tries);
  }

  lemma IndexBounds(hs: Hashes, m: Man, id: int)
    requires Consistent(hs, m) && id in m.mapInfo
    ensures id < m.idCount
  {
    assert IdOk(m, id);
  }

  // ------------------------------------------------------------- tests and choices

  /** Never within a minute of a try; otherwise for a time in the future, or older than a
      month or missing, or three tries without any success, or ten without one in a week. */
  lemma TerribleIff(i: Info, now: int)
    ensures IsTerrible(i, now) <==>
      && (i.lastTry == 0 || now - i.lastTry > 60)
      && (|| i.time - now > 600 || i.time == 0 || i.time < now - 2592000
          || (i.attempts >= 3 && i.lastSuccess == 0) || (i.attempts >= 10 && i.lastSuccess < now - 604800))
  {
  }

  /** Add_ on a known address adds services and never turns the time back: it moves by more
      than an hour, or by more than a day for an address not heard of today, or not at all. */
  lemma RefreshMovesForward(i: Info, addr: Address, penalty: int, now: int)
    requires 0 <= i.time && 0 <= addr.time < 0x1_0000_0000 && 0 <= penalty
    ensures
      var j := Refreshed(i, addr, penalty, now);
      var step := if addr.time > now - 86400 then 3600 else 86400;
      && j == i.(time := j.time, services := i.services + addr.services)
      && (j.time == i.time || j.time == addr.time - penalty || (j.time == 0 <= penalty && addr.time < penalty))
      && i.time <= j.time && (0 < i.time < j.time ==> j.time > i.time + step)
      && (0 < i.time && addr.time - penalty > i.time + step ==> j.time == addr.time - penalty)
      && (i.time == 0 && addr.time >= penalty ==> j.time == addr.time - penalty)
  {
  }

  /** One more bucket, for newer information on an entry that is not tried: certainly for
      one in no bucket, with chance 1 in 2^k for one in k, and never for one in eight. */
  lemma WantsAnotherIff(i: Info, addr: Address, luck: nat)
    requires 0 <= i.refCount <= 8
    ensures WantsAnother(i, addr, luck) <==>
      && addr.time != 0 && (i.time == 0 || i.time < addr.time) && !i.inTried && i.refCount < 8
      && luck % [1, 2, 4, 8, 16, 32, 64, 128, 256][i.refCount] == 0
  {
    PowersOfTwo();
  }

  lemma PowersOfTwo()
    ensures Pow2(0) == 1 && Pow2(1) == 2 && Pow2(2) == 4 && Pow2(3) == 8 && Pow2(4) == 16
    ensures Pow2(5) == 32 && Pow2(6) == 64 && Pow2(7) == 128 && Pow2(8) == 256
  {
    assert Pow2(3) == 8;
    assert Pow2(6) == 64;
  }

  /** The most that is at most 2500 and at most 23 in a hundred of the addresses. */
  lemma GetAddrLimitIs(m: Man)
    ensures
      var n := GetAddrLimit(m);
      && 0 <= n <= 2500 && 100 * n <= 23 * |m.vRandom|
      && (n < 2500 ==> 100 * (n + 1) > 23 * |m.vRandom|)
  {
  }

  /** The address i is given away as. */
  predicate Advertised(a: Address, i: Info) { a.service == i.service && a.services == i.services && a.time == i.time }

  ghost predicate FromDecent(m: Man, a: Address, now: int) {
    exists id :: id in m.mapInfo && Advertised(a, m.mapInfo[id]) && !IsTerrible(m.mapInfo[id], now)
  }

  /** What GetAddr_ gives are the service, services and time of entries that are not terrible. */
  lemma GetAddrGives(m: Man, rnd: nat -> nat, now: int)
    requires Index(m)
    ensures var found := GetAddrFrom(m, 0, rnd, now, []).1;
      forall k :: 0 <= k < |found| ==> FromDecent(m, found[k], now)
  {
    hide Index, GetAddrFrom;
    GetAddrResult(m, rnd, now);
    var (r, found) := GetAddrFrom(m, 0, rnd, now, []);
    forall k | 0 <= k < |found| ensures FromDecent(m, found[k], now) {
      assert Relayed(r, found[k], |r.vRandom|, now);
      var id :| id in DecentIds(r, |r.vRandom|, now) && AddressOf(r.mapInfo[id]) == found[k];
      assert SameRecord(m, r, id);
      assert Advertised(found[k], m.mapInfo[id]);
    }
  }

  // ------------------------------------------------------------- what one group can occupy

  lemma {:induction false} ImageSize<T(!new)>(f: nat -> T, n: nat)
    ensures |set k: nat | 0 <= k < n :: f(k)| <= n
  {
    var all := set k: nat | 0 <= k < n :: f(k);
    if n > 0 {
      ImageSize(f, n - 1);
      var fewer := set k: nat | 0 <= k < n - 1 :: f(k);
      assert all == fewer + {f(n - 1)};
    } else {
      assert all == {};
    }
  }

  /** The slots of the tried table that hold addresses of one group. */
  function TriedByGroup(hs: Hashes, m: Man, group: int): set<Slot> {
    set s | s in m.vvTried && m.vvTried[s] in m.mapInfo && hs.group(m.mapInfo[m.vvTried[s]].service.ip) == group
  }

  /** Which of its eight buckets an address of the group is in, and where in it. */
  lemma GroupSlot(hs: Hashes, m: Man, group: int, s: Slot) returns (k: int)
    requires Consistent(hs, m) && s in TriedByGroup(hs, m, group)
    ensures 0 <= k < 8 && 0 <= s.1 < 64 && s.0 == hs.tried2(m.key, group, k) % 256
  {
    hide Index, Counts;
    assert TriedSlotOk(hs, m, s);
    k := hs.tried1(m.key, m.mapInfo[m.vvTried[s]].service) % 8;
  }

  /** Whatever addresses a group sends, it never has more than 8 of the 256 tried buckets,
      512 slots in all. */
  lemma GroupShareOfTried(hs: Hashes, m: Man, group: int)
    requires Consistent(hs, m)
    ensures |TriedByGroup(hs, m, group)| <= 512
    ensures |set s | s in TriedByGroup(hs, m, group) :: s.0| <= 8
  {
    hide Consistent, TriedByGroup;
    var mine := TriedByGroup(hs, m, group);
    var bucket := (k: nat) => hs.tried2(m.key, group, k) % 256;
    var slot := (n: nat) => (bucket(n / 64), n % 64);
    ImageSize(slot, 512);
    ImageSize(bucket, 8);
    forall s | s in mine
      ensures s in (set n: nat | 0 <= n < 512 :: slot(n)) && s.0 in (set k: nat | 0 <= k < 8 :: bucket(k))
    {
      var k := GroupSlot(hs, m, group, s);
      var n := 64 * k + s.1;
      assert n / 64 == k && n % 64 == s.1;
      assert slot(n) == s && bucket(k) == s.0;
    }
    SubsetSize(mine, set n: nat | 0 <= n < 512 :: slot(n));
    SubsetSize(set s | s in mine :: s.0, set k: nat | 0 <= k < 8 :: bucket(k));
  }

  /** What sources of one group announce goes to 64 of the 1024 new buckets. */
  lemma GroupShareOfNew(hs: Hashes, key: int, group: int) returns (buckets: set<int>)
    ensures |buckets| <= 64
    ensures forall a, src :: hs.group(src) == group ==> NewSlot(hs, key, a, src).0 in buckets
  {
    var bucket := (n: nat) => hs.new2(key, group, n) % 1024;
    buckets := set n: nat | 0 <= n < 64 :: bucket(n);
    ImageSize(bucket, 64);
    forall a, src | hs.group(src) == group ensures NewSlot(hs, key, a, src).0 in buckets {
      var k := hs.new1(key, hs.group(a.ip), group) % 64;
      assert bucket(k) == NewSlot(hs, key, a, src).0;
    }
  }
}
