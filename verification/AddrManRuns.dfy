/** What the operations of the address manager do, beyond keeping it consistent, and
    what holds in every run. */
module AddrManRuns {
  import opened Basics
  import opened AddrManState
  import opened AddrManProofs

  // ------------------------------------------------------------- GetAddr_

  /** The addresses worth relaying among the first n of vRandom, in order. */
  function Decent(m: Man, n: nat, now: int): seq<Address>
    requires Index(m) && n <= |m.vRandom|
  {
    if n == 0 then [] else
    assert PosOk(m, n - 1);
    var i := m.mapInfo[m.vRandom[n - 1]];
    Decent(m, n - 1, now) + if IsTerrible(i, now) then [] else [AddressOf(i)]
  }

  lemma {:induction false} DecentUnmoved(m: Man, r: Man, n: nat, now: int)
    requires Index(m) && Index(r) && Reordered(m, r)
    requires n <= |m.vRandom| && forall k :: 0 <= k < n ==> m.vRandom[k] == r.vRandom[k]
    ensures Decent(m, n, now) == Decent(r, n, now)
  {
    if n > 0 {
      DecentUnmoved(m, r, n - 1, now);
      assert PosOk(m, n - 1) && SameRecord(m, r, m.vRandom[n - 1]);
    }
  }

  lemma ReorderedTransitive(a: Man, b: Man, c: Man)
    requires Reordered(a, b) && Reordered(b, c)
    ensures Reordered(a, c)
  {
    forall id | id in a.mapInfo ensures SameRecord(a, c, id) { assert SameRecord(a, b, id) && SameRecord(b, c, id); }
  }

  lemma GetAddrStep(m: Man, n: nat, p: nat, now: int)
    requires Index(m) && n <= p < |m.vRandom|
    ensures var s := SwapRandom(m, n, p);
      && Index(s) && Reordered(m, s) && |s.vRandom| == |m.vRandom| && PosOk(s, n)
      && var i := s.mapInfo[s.vRandom[n]];
         Decent(s, n + 1, now) == if IsTerrible(i, now) then Decent(m, n, now) else Decent(m, n, now) + [AddressOf(i)]
  {
    SwapRandomIndex(m, n, p);
    SwapRandomReorders(m, n, p);
    var s := SwapRandom(m, n, p);
    DecentUnmoved(m, s, n, now);
    assert PosOk(s, n);
  }

  /** The decent addresses of a prefix of vRandom: of all of it, unless the limit cut it short. */
  ghost predicate Sample(m: Man, found: seq<Address>, now: int)
    requires Index(m)
  {
    && |found| <= GetAddrLimit(m)
    && exists k: nat :: k <= |m.vRandom| && found == Decent(m, k, now)
                        && (k == |m.vRandom| || |found| == GetAddrLimit(m))
  }

  /** The walk of GetAddr_ only reorders the manager, and returns a sample of the new order. */
  lemma {:induction false} GetAddrWalk(m: Man, n: nat, rnd: nat -> nat, now: int, found: seq<Address>)
    requires Index(m) && n <= |m.vRandom| && found == Decent(m, n, now) && |found| <= GetAddrLimit(m)
    ensures var r := GetAddrFrom(m, n, rnd, now, found);
      Index(r.0) && Reordered(m, r.0) && Sample(r.0, r.1, now)
    decreases |m.vRandom| - n
  {
    hide Index, Decent, SwapRandom, Reordered, IsTerrible, AddressOf, Pick, Sample;
    if n == |m.vRandom| || |found| >= GetAddrLimit(m) {
      ReorderedReflexive(m);
      SampleEnds(m, n, now);
    } else {
      var p := Pick(n, |m.vRandom|, rnd(n));
      var s := SwapRandom(m, n, p);
      GetAddrStep(m, n, p, now);
      GetAddrWalk(s, n + 1, rnd, now, Decent(s, n + 1, now));
      ReorderedTransitive(m, s, GetAddrFrom(m, n, rnd, now, found).0);
    }
  }

  lemma SampleEnds(m: Man, n: nat, now: int)
    requires Index(m) && n <= |m.vRandom| && |Decent(m, n, now)| <= GetAddrLimit(m)
    requires n == |m.vRandom| || |Decent(m, n, now)| >= GetAddrLimit(m)
    ensures Sample(m, Decent(m, n, now), now)
  {
  }

  lemma ReorderedReflexive(m: Man)
    ensures Reordered(m, m)
  {
  }

  function DecentIds(m: Man, n: int, now: int): set<int> {
    set id | id in m.mapInfo && m.mapInfo[id].randomPos < n && !IsTerrible(m.mapInfo[id], now)
  }

  lemma DecentIdsStep(m: Man, n: nat, now: int)
    requires Index(m) && n < |m.vRandom|
    ensures var id := m.vRandom[n];
      && id in m.mapInfo && id !in DecentIds(m, n, now)
      && DecentIds(m, n + 1, now) == DecentIds(m, n, now) + if IsTerrible(m.mapInfo[id], now) then {} else {id}
  {
    assert PosOk(m, n);
    forall id | id in m.mapInfo && m.mapInfo[id].randomPos == n ensures id == m.vRandom[n] { assert IdOk(m, id); }
  }

  ghost predicate Relayed(m: Man, a: Address, n: int, now: int) {
    exists id :: id in DecentIds(m, n, now) && AddressOf(m.mapInfo[id]) == a
  }

  /** Decent lists each decent entry once. */
  lemma {:induction false} DecentLists(m: Man, n: nat, now: int)
    requires Index(m) && n <= |m.vRandom|
    ensures |Decent(m, n, now)| == |DecentIds(m, n, now)|
    ensures forall k :: 0 <= k < |Decent(m, n, now)| ==> Relayed(m, Decent(m, n, now)[k], n, now)
    ensures forall j, k :: 0 <= j < k < |Decent(m, n, now)| ==>
              Decent(m, n, now)[j].service.ip != Decent(m, n, now)[k].service.ip
  {
    hide IsTerrible;
    if n == 0 {
      forall id | id in m.mapInfo ensures m.mapInfo[id].randomPos >= 0 { assert IdOk(m, id); }
      assert DecentIds(m, 0, now) == {};
    } else {
      DecentLists(m, n - 1, now);
      DecentIdsStep(m, n - 1, now);
      var id := m.vRandom[n - 1];
      var before := Decent(m, n - 1, now);
      var all := Decent(m, n, now);
      forall k | 0 <= k < |all| ensures Relayed(m, all[k], n, now)
        ensures k < |before| ==> all[k].service.ip != m.mapInfo[id].service.ip
      {
        if k < |before| {
          assert Relayed(m, before[k], n - 1, now);
          var from :| from in DecentIds(m, n - 1, now) && AddressOf(m.mapInfo[from]) == before[k];
          assert from in DecentIds(m, n, now);
          assert IdOk(m, from) && IdOk(m, id);
        } else {
          assert id in DecentIds(m, n, now) && AddressOf(m.mapInfo[id]) == all[k];
        }
      }
    }
  }

  lemma {:induction false} DecentGrows(m: Man, n: nat, k: nat, now: int)
    requires Index(m) && n <= k <= |m.vRandom|
    ensures |Decent(m, n, now)| <= |Decent(m, k, now)|
  {
    if n < k { DecentGrows(m, n, k - 1, now); }
  }

  lemma DecentIdsReordered(m: Man, r: Man, now: int)
    requires Index(m) && Index(r) && Reordered(m, r)
    ensures DecentIds(r, |r.vRandom|, now) == DecentIds(m, |m.vRandom|, now)
  {
    hide IsTerrible;
    forall id | id in m.mapInfo
      ensures IsTerrible(r.mapInfo[id], now) == IsTerrible(m.mapInfo[id], now)
      ensures m.mapInfo[id].randomPos < |m.vRandom| && r.mapInfo[id].randomPos < |r.vRandom|
    {
      assert SameRecord(m, r, id) && IdOk(m, id) && IdOk(r, id);
      TerribleIgnoresPosition(m.mapInfo[id], r.mapInfo[id].randomPos, now);
    }
  }

  lemma TerribleIgnoresPosition(i: Info, p: int, now: int)
    ensures IsTerrible(i.(randomPos := p), now) == IsTerrible(i, now)
  {
  }

  /** GetAddr_ returns addresses of distinct hosts, each of an entry that is not terrible,
      and as many as there are such entries, up to 23 percent of the table and 2500. */
  lemma GetAddrResult(m: Man, rnd: nat -> nat, now: int)
    requires Index(m)
    ensures var (r, found) := GetAddrFrom(m, 0, rnd, now, []);
      && Index(r) && Reordered(m, r)
      && |found| == (var decent := |DecentIds(m, |m.vRandom|, now)|;
                     if decent < GetAddrLimit(m) then decent else GetAddrLimit(m))
      && (forall k :: 0 <= k < |found| ==> Relayed(r, found[k], |r.vRandom|, now))
      && (forall j, k :: 0 <= j < k < |found| ==> found[j].service.ip != found[k].service.ip)
  {
    hide Index, IsTerrible, Reordered, AddressOf;
    GetAddrWalk(m, 0, rnd, now, []);
    var (r, found) := GetAddrFrom(m, 0, rnd, now, []);
    SampleResult(r, found, now);
    DecentIdsReordered(m, r, now);
    ReorderedSize(m, r);
  }

  lemma ReorderedSize(m: Man, r: Man)
    requires Reordered(m, r)
    ensures GetAddrLimit(m) == GetAddrLimit(r)
  {
  }

  lemma SampleResult(r: Man, found: seq<Address>, now: int)
    requires Index(r) && Sample(r, found, now)
    ensures |found| == (var decent := |DecentIds(r, |r.vRandom|, now)|;
                        if decent < GetAddrLimit(r) then decent else GetAddrLimit(r))
    ensures forall k :: 0 <= k < |found| ==> Relayed(r, found[k], |r.vRandom|, now)
    ensures forall j, k :: 0 <= j < k < |found| ==> found[j].service.ip != found[k].service.ip
  {
    hide Index, IsTerrible, Decent, AddressOf;
    var n: nat :| n <= |r.vRandom| && found == Decent(r, n, now) && (n == |r.vRandom| || |found| == GetAddrLimit(r));
    DecentLists(r, n, now);
    DecentLists(r, |r.vRandom|, now);
    DecentGrows(r, n, |r.vRandom|, now);
    forall k | 0 <= k < |found| ensures Relayed(r, found[k], |r.vRandom|, now) {
      assert Relayed(r, found[k], n, now);
      var id :| id in DecentIds(r, n, now) && AddressOf(r.mapInfo[id]) == found[k];
      assert id in DecentIds(r, |r.vRandom|, now);
    }
  }

  // ------------------------------------------------- what an operation leaves alone

  /** An entry whose record and slots are the same before and after, up to its place in vRandom. */
  predicate Untouched(m: Man, r: Man, id: int) {
    && id in m.mapInfo && id in r.mapInfo && SameRecord(m, r, id)
    && Held(r, id) == Held(m, id)
    && (forall s :: s in m.vvTried && m.vvTried[s] == id ==> s in r.vvTried && r.vvTried[s] == id)
    && (forall s :: s in r.vvTried && r.vvTried[s] == id ==> s in m.vvTried && m.vvTried[s] == id)
  }

  predicate Occupies(m: Man, s: Slot, id: int) { s in m.vvNew && m.vvNew[s] == id }

  lemma ClearNewTouches(m: Man, s: Slot, id: int)
    requires Known(m) && id in m.mapInfo && !Occupies(m, s, id)
    ensures ClearNew(m, s).vvNew == m.vvNew - {s} && ClearNew(m, s).vvTried == m.vvTried
    ensures Untouched(m, ClearNew(m, s), id)
  {
    var r := ClearNew(m, s);
    ClearNewFrame(m, s);
    if s in m.vvNew {
      SameIndexKeepsIndex(m, Unlink(m, s));
      assert Cleared(m, r, s, id);
    } else {
      assert m.vvNew - {s} == m.vvNew;
    }
    assert Held(r, id) == Held(m, id);
  }

  lemma UntouchedTransitive(a: Man, b: Man, c: Man, id: int)
    requires Untouched(a, b, id) && Untouched(b, c, id)
    ensures Untouched(a, c, id)
  {
  }

  lemma EditLeaves(m: Man, r: Man, id: int, k: int)
    requires EditOf(m, r, id) && k in m.mapInfo && k != id
    ensures Untouched(m, r, k)
  {
    assert Held(r, k) == Held(m, k);
  }

  /** Readmitting an evicted entry gives it exactly the slot its source selects, and
      takes that slot from its occupant and no one else. */
  lemma ReadmitEffect(hs: Hashes, m: Man, id: int)
    requires Known(m) && id in m.mapInfo && Held(m, id) == {} && m.mapInfo[id].refCount == 0
    requires forall t :: t in m.vvTried ==> m.vvTried[t] != id
    ensures var r := Readmit(hs, m, id);
      var s := NewSlot(hs, m.key, m.mapInfo[id].service, m.mapInfo[id].source);
      && id in r.mapInfo && Held(r, id) == {s} && r.vvTried == m.vvTried
      && r.mapInfo[id] == m.mapInfo[id].(refCount := 1, randomPos := r.mapInfo[id].randomPos)
      && forall k :: k in m.mapInfo && k != id && !Occupies(m, s, k) ==> Untouched(m, r, k)
  {
    var s := NewSlot(hs, m.key, m.mapInfo[id].service, m.mapInfo[id].source);
    var c := ClearNew(m, s);
    var r := Readmit(hs, m, id);
    assert Occupies(m, s, id) ==> s in Held(m, id);
    ClearNewTouches(m, s, id);
    assert Held(c, id) == {};
    assert forall t :: t in c.vvNew && c.vvNew[t] == id ==> t in Held(c, id);
    assert Held(r, id) == {s};
    forall k | k in m.mapInfo && k != id && !Occupies(m, s, k) ensures Untouched(m, r, k) {
      ClearNewTouches(m, s, k);
      EditLeaves(c, r, id, k);
      UntouchedTransitive(m, c, r, k);
    }
  }

  /** What happens to the entry that loses its tried slot. */
  predicate Demoted(hs: Hashes, m: Man, r: Man, id: int)
    requires id in m.mapInfo
  {
    && id in r.mapInfo
    && r.mapInfo[id] == m.mapInfo[id].(inTried := false, refCount := 1, randomPos := r.mapInfo[id].randomPos)
    && Held(r, id) == {NewSlot(hs, m.key, m.mapInfo[id].service, m.mapInfo[id].source)}
  }

  lemma DisplaceEffect(hs: Hashes, m: Man, s: Slot, id: int)
    requires Known(m) && Tables(hs, m, {id}) && s in m.vvTried && Held(m, m.vvTried[s]) == {}
    ensures var r := Displace(hs, m, s);
      var prev := m.vvTried[s];
      var t := NewSlot(hs, m.key, m.mapInfo[prev].service, m.mapInfo[prev].source);
      && Demoted(hs, m, r, prev) && r.vvTried == m.vvTried - {s} && prev != id
      && forall k :: k in m.mapInfo && k != prev && !Occupies(m, t, k) ==> Untouched(m, r, k)
  {
    hide Index, Readmit;
    var prev := m.vvTried[s];
    var e := Evict(m, s);
    var r := Displace(hs, m, s);
    assert TriedSlotOk(hs, m, s) && EntryOk(hs, m, prev, {id});
    SameIndexKeepsIndex(m, e);
    assert Held(e, prev) == Held(m, prev);
    forall t | t in e.vvTried ensures e.vvTried[t] != prev { assert TriedSlotOk(hs, m, t); }
    ReadmitEffect(hs, e, prev);
    var t := NewSlot(hs, m.key, m.mapInfo[prev].service, m.mapInfo[prev].source);
    forall k | k in m.mapInfo && k != prev && !Occupies(m, t, k) ensures Untouched(m, r, k) {
      EditLeaves(m, e, prev, k);
      assert Untouched(e, r, k);
      UntouchedTransitive(m, e, r, k);
    }
  }

  lemma MakeRoomEffect(hs: Hashes, m: Man, id: int)
    requires Known(m) && Tables(hs, m, {}) && Counts(m, 0) && TriedApart(m)
    requires id in m.mapInfo && !m.mapInfo[id].inTried
    ensures var d := MakeRoom(hs, m, id);
      var s := TriedSlot(hs, m.key, m.mapInfo[id].service);
      && d.vvTried == m.vvTried - {s}
      && (s in m.vvTried ==> m.vvTried[s] in m.mapInfo && m.vvTried[s] != id && Demoted(hs, m, d, m.vvTried[s]))
  {
    hide Index, Displace, EntryOk;
    var w := Withdraw(m, id);
    var s := TriedSlot(hs, m.key, m.mapInfo[id].service);
    WithdrawKeeps(hs, m, id, 0);
    KnownByTables(hs, m, w, {id});
    if s in w.vvTried {
      assert Held(w, w.vvTried[s]) <= Held(m, m.vvTried[s]);
      DisplaceEffect(hs, w, s, id);
    } else {
      assert m.vvTried - {s} == m.vvTried;
    }
  }

  /** An entry moved to the tried table gets the slot its address selects and leaves every
      new bucket; the entry it displaces goes back to the one new slot its own source
      selects; besides these two, only the occupant of that new slot is affected. */
  lemma MakeTriedEffect(hs: Hashes, m: Man, id: int)
    requires Known(m) && Tables(hs, m, {}) && Counts(m, 0) && TriedApart(m)
    requires id in m.mapInfo && !m.mapInfo[id].inTried
    ensures var r := MakeTried(hs, m, id);
      var s := TriedSlot(hs, m.key, m.mapInfo[id].service);
      && id in r.mapInfo && Held(r, id) == {} && r.vvTried == m.vvTried[s := id]
      && r.mapInfo[id] == m.mapInfo[id].(inTried := true, refCount := 0, randomPos := r.mapInfo[id].randomPos)
      && (s in m.vvTried ==> m.vvTried[s] in m.mapInfo && Demoted(hs, m, r, m.vvTried[s]))
      && forall k :: k in m.mapInfo && k != id && !Displaced(hs, m, s, k) ==> Untouched(m, r, k)
  {
    hide Index, Displace, Tables, Counts, MakeRoom, Untouched, Displaced, NewSlot;
    var s := TriedSlot(hs, m.key, m.mapInfo[id].service);
    var d := MakeRoom(hs, m, id);
    var r := MakeTried(hs, m, id);
    MakeRoomKeeps(hs, m, id);
    MakeRoomEffect(hs, m, id);
    OutOfNew(hs, d, id, {id});
    assert Held(r, id) == {};
    MakeTriedLeaves(hs, m, id);
    if s in m.vvTried { assert Held(r, m.vvTried[s]) == Held(d, m.vvTried[s]); }
  }

  /** The entries besides its own that a move to this tried slot affects: the slot's
      occupant, and the occupant of the new slot that one goes back to. */
  predicate Displaced(hs: Hashes, m: Man, s: Slot, k: int) {
    && s in m.vvTried && m.vvTried[s] in m.mapInfo
    && var prev := m.vvTried[s];
       k == prev || Occupies(m, NewSlot(hs, m.key, m.mapInfo[prev].service, m.mapInfo[prev].source), k)
  }

  lemma MakeRoomLeaves(hs: Hashes, m: Man, id: int, k: int)
    requires Known(m) && Tables(hs, m, {}) && Counts(m, 0) && TriedApart(m)
    requires id in m.mapInfo && !m.mapInfo[id].inTried
    requires k in m.mapInfo && k != id && !Displaced(hs, m, TriedSlot(hs, m.key, m.mapInfo[id].service), k)
    ensures Untouched(m, MakeRoom(hs, m, id), k)
  {
    hide Index, Displace, EntryOk, GetBucketPosition, GetTriedBucket, GetNewBucket;
    var w := Withdraw(m, id);
    var s := TriedSlot(hs, m.key, m.mapInfo[id].service);
    WithdrawKeeps(hs, m, id, 0);
    KnownByTables(hs, m, w, {id});
    EditLeaves(m, w, id, k);
    if s in w.vvTried {
      assert Held(w, w.vvTried[s]) <= Held(m, m.vvTried[s]);
      DisplaceEffect(hs, w, s, id);
      UntouchedTransitive(m, w, MakeRoom(hs, m, id), k);
    }
  }

  lemma MakeTriedLeaves(hs: Hashes, m: Man, id: int)
    requires Known(m) && Tables(hs, m, {}) && Counts(m, 0) && TriedApart(m)
    requires id in m.mapInfo && !m.mapInfo[id].inTried
    ensures var r := MakeTried(hs, m, id);
      var s := TriedSlot(hs, m.key, m.mapInfo[id].service);
      forall k :: k in m.mapInfo && k != id && !Displaced(hs, m, s, k) ==> Untouched(m, r, k)
  {
    hide Index, MakeRoom, Displaced, Tables, Counts, TriedSlot;
    var s := TriedSlot(hs, m.key, m.mapInfo[id].service);
    var d := MakeRoom(hs, m, id);
    var r := MakeTried(hs, m, id);
    MakeRoomKeeps(hs, m, id);
    OutOfTried(hs, d, id, {id});
    forall k | k in m.mapInfo && k != id && !Displaced(hs, m, s, k) ensures Untouched(m, r, k) {
      MakeRoomLeaves(hs, m, id, k);
      EditLeaves(d, r, id, k);
      UntouchedTransitive(m, d, r, k);
    }
  }

  lemma MakeTriedScalars(hs: Hashes, m: Man, id: int)
    requires Known(m) && id in m.mapInfo && TriedApart(m)
    ensures SameScalars(m, MakeTried(hs, m, id))
  {
    hide MakeRoom, Index;
  }

  /** After Good_ on a known service its entry is in the tried table, with the success
      recorded; if it was not there before, MakeTriedEffect says what else changed. */
  lemma GoodEffect(hs: Hashes, m: Man, a: Service, t: int)
    requires Consistent(hs, m) && Known(m) && TriedApart(m) && t > 0
    requires Find(m, a.ip).Some? && m.mapInfo[Find(m, a.ip).value].service == a
    ensures var id := Find(m, a.ip).value;
      var r := Good(hs, m, a, t);
      var s := TriedSlot(hs, m.key, a);
      && id in r.mapInfo && Held(r, id) == {} && r.lastGood == t
      && r.mapInfo[id] == m.mapInfo[id].(lastSuccess := t, lastTry := t, attempts := 0, inTried := true,
                                         refCount := 0, randomPos := r.mapInfo[id].randomPos)
      && r.vvTried == m.vvTried[s := id]
      && (s in m.vvTried && m.vvTried[s] != id ==> m.vvTried[s] in m.mapInfo && Demoted(hs, m, r, m.vvTried[s]))
      && forall k :: k in m.mapInfo && k != id && (m.mapInfo[id].inTried || !Displaced(hs, m, s, k)) ==>
           Untouched(m, r, k)
  {
    hide Index, Counts, MakeTried, GetBucketPosition, GetTriedBucket, GetNewBucket;
    var id := Find(m, a.ip).value;
    var i := m.mapInfo[id];
    var s := TriedSlot(hs, m.key, a);
    var r := Good(hs, m, a, t);
    var u := WithInfo(m, id, i.(lastSuccess := t, lastTry := t, attempts := 0)).(lastGood := t);
    assert u == WithInfo(m.(lastGood := t), id, i.(lastSuccess := t, lastTry := t, attempts := 0));
    assert EntryOk(hs, m, id, {});
    assert forall k :: Held(u, k) == Held(m, k);
    JotKeeps(hs, m, id, u.mapInfo[id], t);
    if i.inTried {
      assert m.vvTried[s := id] == m.vvTried;
      forall k | k in m.mapInfo && k != id ensures Untouched(m, r, k) { EditLeaves(m, u, id, k); }
    } else {
      ConsistentIsKnown(hs, u);
      OutOfTried(hs, m, id, {});
      MakeTriedEffect(hs, u, id);
      if s in m.vvTried { assert Demoted(hs, u, r, m.vvTried[s]); assert TriedSlotOk(hs, m, s); }
      MakeTriedScalars(hs, u, id);
      assert r == MakeTried(hs, u, id);
      forall k | k in m.mapInfo && k != id && !Displaced(hs, m, s, k) ensures Untouched(m, r, k) {
        EditLeaves(m, u, id, k);
        assert !Displaced(hs, u, s, k);
        UntouchedTransitive(m, u, r, k);
      }
    }
  }

  // ------------------------------------------------------------- Add_

  lemma DeleteTouches(m: Man, id: int, k: int)
    requires Index(m) && id in m.mapInfo && k in m.mapInfo && k != id
    ensures Untouched(m, Delete(m, id), k)
  {
    hide Index;
    MoveLastIndex(m, id);
    assert SameRecord(m, MoveLast(m, id), k);
    assert Held(Delete(m, id), k) == Held(m, k);
  }

  /** Whether the slot is free or its occupant gives way to this entry. */
  predicate Yields(m: Man, s: Slot, id: int, now: int)
    requires Known(m) && id in m.mapInfo
  {
    s !in m.vvNew ||
    var e := m.mapInfo[m.vvNew[s]];
    IsTerrible(e, now) || (e.refCount > 1 && m.mapInfo[id].refCount == 0)
  }

  predicate GainsSlot(m: Man, r: Man, id: int, s: Slot)
    requires id in m.mapInfo
  {
    && id in r.mapInfo && Held(r, id) == Held(m, id) + {s}
    && r.mapInfo[id] == m.mapInfo[id].(refCount := m.mapInfo[id].refCount + 1, randomPos := r.mapInfo[id].randomPos)
  }

  lemma ReplaceEffect(m: Man, id: int, s: Slot)
    requires Known(m) && id in m.mapInfo && !Occupies(m, s, id)
    ensures GainsSlot(m, Link(ClearNew(m, s), id, s), id, s)
    ensures forall k :: k in m.mapInfo && k != id && !Occupies(m, s, k) ==> Untouched(m, Link(ClearNew(m, s), id, s), k)
  {
    hide Index, ClearNew;
    var c := ClearNew(m, s);
    var r := Link(c, id, s);
    ClearNewTouches(m, s, id);
    assert Held(r, id) == Held(c, id) + {s};
    forall k | k in m.mapInfo && k != id && !Occupies(m, s, k) ensures Untouched(m, r, k) {
      ClearNewTouches(m, s, k);
      EditLeaves(c, r, id, k);
      UntouchedTransitive(m, c, r, k);
    }
  }

  lemma PlaceEffect(hs: Hashes, m: Man, id: int, src: NetAddr, now: int)
    requires Known(m) && id in m.mapInfo
    ensures var s := NewSlot(hs, m.key, m.mapInfo[id].service, src);
      var r := Place(hs, m, id, src, now);
      && (if Occupies(m, s, id) then r == m
          else if Yields(m, s, id, now) then GainsSlot(m, r, id, s)
          else if m.mapInfo[id].refCount == 0 then id !in r.mapInfo
          else r == m)
      && forall k :: k in m.mapInfo && k != id && !(Occupies(m, s, k) && Yields(m, s, id, now)) ==> Untouched(m, r, k)
  {
    hide Index, ClearNew, Link, Delete, Untouched, GainsSlot, IsTerrible, NewSlot;
    var s := NewSlot(hs, m.key, m.mapInfo[id].service, src);
    if !Occupies(m, s, id) { ReplaceEffect(m, id, s); }
    forall k | k in m.mapInfo && k != id ensures Untouched(m, Delete(m, id), k) && Untouched(m, m, k) {
      DeleteTouches(m, id, k);
      UntouchedReflexive(m, k);
    }
  }

  lemma UntouchedReflexive(m: Man, k: int)
    requires k in m.mapInfo
    ensures Untouched(m, m, k)
  {
  }

  /** Whether the occupant of a slot stays when an entry with no slot yet asks for it. */
  predicate Stays(m: Man, s: Slot, now: int)
    requires Known(m)
  {
    s in m.vvNew && !IsTerrible(m.mapInfo[m.vvNew[s]], now) && m.mapInfo[m.vvNew[s]].refCount <= 1
  }

  lemma CreatedPlace(hs: Hashes, m: Man, aged: Address, src: NetAddr, now: int)
    requires Consistent(hs, m) && Known(m) && Find(m, aged.service.ip).None?
    requires Known(Create(m, aged, src).(nNew := m.nNew + 1))
    ensures var c := Create(m, aged, src).(nNew := m.nNew + 1);
      var r := Place(hs, c, m.idCount, src, now);
      var s := NewSlot(hs, m.key, aged.service, src);
      if Stays(m, s, now) then m.idCount !in r.mapInfo
      else GainsSlot(c, r, m.idCount, s) && Held(c, m.idCount) == {}
  {
    hide Index, Tables, Counts, Place, IsTerrible, NewSlot, GainsSlot;
    var c := Create(m, aged, src).(nNew := m.nNew + 1);
    CreateIndex(m, aged, src);
    CreateKeeps(hs, m, aged, src);
    OutOfNew(hs, c, m.idCount, {m.idCount});
    PlaceEffect(hs, c, m.idCount, src, now);
    assert Held(c, m.idCount) == {};
  }

  lemma CreatedLeaves(hs: Hashes, m: Man, aged: Address, src: NetAddr, now: int, k: int)
    requires Consistent(hs, m) && Known(m) && Find(m, aged.service.ip).None?
    requires Known(Create(m, aged, src).(nNew := m.nNew + 1)) && k in m.mapInfo
    requires var s := NewSlot(hs, m.key, aged.service, src); Stays(m, s, now) || !Occupies(m, s, k)
    ensures Untouched(m, Place(hs, Create(m, aged, src).(nNew := m.nNew + 1), m.idCount, src, now), k)
  {
    hide Index, Tables, Counts, Place, IsTerrible, NewSlot, GainsSlot, Untouched;
    var c := Create(m, aged, src).(nNew := m.nNew + 1);
    CreateIndex(m, aged, src);
    PlaceEffect(hs, c, m.idCount, src, now);
    CreateTouches(m, aged, src, k);
    UntouchedTransitive(m, c, Place(hs, c, m.idCount, src, now), k);
  }

  /** Add_ on an address it does not know: the entry starts with one reference, in the
      bucket its source selects, unless the occupant there stays, and then it is gone
      again; only an occupant that gives way is affected. */
  lemma AddUnknownEffect(hs: Hashes, m: Man, addr: Address, src: NetAddr, penalty: int, now: int, luck: nat)
    requires Consistent(hs, m) && Known(m)
    requires hs.routable(addr.service.ip) && Find(m, addr.service.ip).None?
    ensures var (r, isNew) := Add(hs, m, addr, src, penalty, now, luck);
      var s := NewSlot(hs, m.key, addr.service, src);
      && isNew
      && (Stays(m, s, now) ==> m.idCount !in r.mapInfo)
      && (!Stays(m, s, now) ==> m.idCount in r.mapInfo && Held(r, m.idCount) == {s}
                                && AddedRecord(r.mapInfo[m.idCount], addr, src, penalty))
      && forall k :: k in m.mapInfo && (Stays(m, s, now) || !Occupies(m, s, k)) ==> Untouched(m, r, k)
  {
    hide Index, Tables, Counts, Place, IsTerrible, NewSlot, Stays, Untouched;
    var aged := addr.(time := Trunc32(Max(0, addr.time - penalty)));
    var s := NewSlot(hs, m.key, addr.service, src);
    var r := Add(hs, m, addr, src, penalty, now, luck).0;
    CreateKeeps(hs, m, aged, src);
    CreatedPlace(hs, m, aged, src, now);
    forall k | k in m.mapInfo && (Stays(m, s, now) || !Occupies(m, s, k)) ensures Untouched(m, r, k) {
      CreatedLeaves(hs, m, aged, src, now, k);
    }
  }

  lemma CreateTouches(m: Man, addr: Address, src: NetAddr, k: int)
    requires k in m.mapInfo && m.idCount !in m.mapInfo
    ensures Untouched(m, Create(m, addr, src).(nNew := m.nNew + 1), k)
  {
    assert Held(Create(m, addr, src).(nNew := m.nNew + 1), k) == Held(m, k);
  }

  predicate AddedRecord(i: Info, addr: Address, src: NetAddr, penalty: int) {
    i == Info(addr.service, addr.services, Trunc32(Max(0, addr.time - penalty)), src, 0, 0, 0, 0, 1, false, i.randomPos)
  }

  /** Add_ on an address it knows refreshes the record, and gives the entry one more slot
      exactly when it wants one, does not hold it yet, and the occupant gives way. */
  lemma AddKnownEffect(hs: Hashes, m: Man, addr: Address, src: NetAddr, penalty: int, now: int, luck: nat)
    requires Consistent(hs, m) && Known(m)
    requires hs.routable(addr.service.ip) && Find(m, addr.service.ip).Some?
    ensures var (r, isNew) := Add(hs, m, addr, src, penalty, now, luck);
      var id := Find(m, addr.service.ip).value;
      var i := Refreshed(m.mapInfo[id], addr, penalty, now);
      var s := NewSlot(hs, m.key, m.mapInfo[id].service, src);
      var gains := WantsAnother(i, addr, luck) && !Occupies(m, s, id)
                   && (s in m.vvNew ==> IsTerrible(m.mapInfo[m.vvNew[s]], now));
      && !isNew && id in r.mapInfo
      && r.mapInfo[id] == i.(refCount := i.refCount + (if gains then 1 else 0), randomPos := r.mapInfo[id].randomPos)
      && Held(r, id) == Held(m, id) + (if gains then {s} else {})
      && forall k :: k in m.mapInfo && k != id && !(gains && Occupies(m, s, k)) ==> Untouched(m, r, k)
  {
    hide Index, Counts, Place, IsTerrible, GetBucketPosition, GetNewBucket, Refreshed, Trunc32;
    var id := Find(m, addr.service.ip).value;
    var i := Refreshed(m.mapInfo[id], addr, penalty, now);
    var s := NewSlot(hs, m.key, m.mapInfo[id].service, src);
    var u := WithInfo(m, id, i);
    var r := Add(hs, m, addr, src, penalty, now, luck).0;
    RefreshedJots(hs, m, id, addr, penalty, now);
    AddFoundKeeps(hs, m, id, i, addr, src, now, luck);
    PlaceEffect(hs, u, id, src, now);
    assert EntryOk(hs, m, id, {});
    assert Held(u, id) == Held(m, id);
    forall k | k in m.mapInfo && k != id ensures Untouched(m, u, k) { EditLeaves(m, u, id, k); }
    forall k | k in m.mapInfo && k != id && Untouched(u, r, k) ensures Untouched(m, r, k) {
      UntouchedTransitive(m, u, r, k);
    }
  }

  // ------------------------------------------------------------- runs

  datatype Op =
    | OpAdd(addr: Address, src: NetAddr, penalty: int, addNow: int, luck: nat)
    | OpGood(good: Service, goodTime: int)
    | OpNote(noted: Service, note: Note)
    | OpGetAddr(rnd: nat -> nat, getNow: int)

  predicate Timed(op: Op) {
    match op
    case OpGood(_, t) => t > 0
    case OpNote(_, n) => NotBefore1970(n)
    case _ => true
  }

  function Apply(hs: Hashes, m: Man, op: Op): (r: Man)
    requires Consistent(hs, m)
  {
    ConsistentIsKnown(hs, m);
    match op
    case OpAdd(a, src, penalty, now, luck) => Add(hs, m, a, src, penalty, now, luck).0
    case OpGood(a, t) => Good(hs, m, a, t)
    case OpNote(a, n) => Annotate(m, a, n)
    case OpGetAddr(rnd, now) => GetAddrFrom(m, 0, rnd, now, []).0
  }

  lemma ApplyKeeps(hs: Hashes, m: Man, op: Op)
    requires Consistent(hs, m) && Timed(op)
    ensures Consistent(hs, Apply(hs, m, op))
  {
    hide Index, Tables, Counts, Add, Good, Annotate, GetAddrFrom;
    ConsistentIsKnown(hs, m);
    match op
    case OpAdd(a, src, penalty, now, luck) => AddKeeps(hs, m, a, src, penalty, now, luck);
    case OpGood(a, t) => GoodKeeps(hs, m, a, t);
    case OpNote(a, n) => AnnotateKeeps(hs, m, a, n);
    case OpGetAddr(rnd, now) =>
      GetAddrResult(m, rnd, now);
      ReorderedKeeps(hs, m, GetAddrFrom(m, 0, rnd, now, []).0, {}, 0);
  }

  function Run(hs: Hashes, m: Man, ops: seq<Op>): (r: Man)
    requires Consistent(hs, m) && forall k :: 0 <= k < |ops| ==> Timed(ops[k])
    ensures Consistent(hs, r)
    decreases |ops|
  {
    if ops == [] then m else
    ApplyKeeps(hs, m, ops[0]);
    Run(hs, Apply(hs, m, ops[0]), ops[1..])
  }

  lemma FreshIsConsistent(hs: Hashes, key: int)
    requires key != 0
    ensures Consistent(hs, Fresh(key))
  {
    assert TriedIds(Fresh(key)) == {} && NewIds(Fresh(key)) == {};
  }

  /** The condition that is kept is at least what Check_ tests. */
  lemma ConsistentPassesCheck(hs: Hashes, m: Man)
    requires Consistent(hs, m)
    ensures CheckPasses(hs, m)
  {
    assert m.mapInfo.Keys == TriedIds(m) + NewIds(m) && TriedIds(m) !! NewIds(m);
    assert |m.mapInfo| == |m.mapInfo.Keys|;
    forall id | id in m.mapInfo ensures IdOk(m, id) && EntryOk(hs, m, id, {}) {}
    forall s | s in m.vvTried ensures TriedSlotOk(hs, m, s) {}
    forall s | s in m.vvNew ensures NewSlotOk(hs, m, s) {}
  }

  /** In every run of a fresh manager with positive times, Check_ finds nothing. */
  lemma CheckAlwaysPasses(hs: Hashes, key: int, ops: seq<Op>)
    requires key != 0 && forall k :: 0 <= k < |ops| ==> Timed(ops[k])
    ensures Consistent(hs, Fresh(key))
    ensures CheckPasses(hs, Run(hs, Fresh(key), ops))
  {
    FreshIsConsistent(hs, key);
    ConsistentPassesCheck(hs, Run(hs, Fresh(key), ops));
  }
}
