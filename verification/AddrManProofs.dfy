/** Every operation of the address manager keeps it consistent. Each step an operation
    is made of is proved separately, for any set of pending entries. */
module AddrManProofs {
  import opened Basics
  import opened AddrManState

  // ------------------------------------------------------------- steps

  /** Reordering vRandom changes nothing the tables or the counters depend on. */
  lemma ReorderedKeeps(hs: Hashes, m: Man, r: Man, pending: set<int>, owed: int)
    requires Reordered(m, r) && Tables(hs, m, pending) && Counts(m, owed)
    ensures Tables(hs, r, pending) && Counts(r, owed)
  {
    hide GetBucketPosition, GetTriedBucket, TriedSlot;
    forall id | id in r.mapInfo ensures EntryOk(hs, r, id, pending) {
      assert EntryOk(hs, m, id, pending) && SameRecord(m, r, id);
      assert Held(r, id) == Held(m, id);
    }
    forall s | s in r.vvNew ensures NewSlotOk(hs, r, s) {
      assert NewSlotOk(hs, m, s) && SameRecord(m, r, m.vvNew[s]);
    }
    forall s | s in r.vvTried ensures TriedSlotOk(hs, r, s) {
      assert TriedSlotOk(hs, m, s) && SameRecord(m, r, m.vvTried[s]);
    }
    forall id | id in m.mapInfo ensures id in TriedIds(r) <==> id in TriedIds(m) { assert SameRecord(m, r, id); }
    assert TriedIds(r) == TriedIds(m);
    assert NewIds(r) == NewIds(m);
  }

  lemma DeleteIndex(m: Man, id: int)
    requires Index(m) && id in m.mapInfo
    ensures Index(Delete(m, id))
  {
    hide MoveLast, Reordered;
    var s := MoveLast(m, id);
    var last := |s.vRandom| - 1;
    MoveLastIndex(m, id);
    assert IdOk(s, id) && PosOk(s, last);
    var r := Delete(m, id);
    forall k | k in r.mapInfo ensures IdOk(r, k) { assert IdOk(s, k); }
    forall a | a in r.mapAddr ensures AddrOk(r, a) { assert AddrOk(s, a); }
    forall p | 0 <= p < |r.vRandom| ensures PosOk(r, p) { assert PosOk(s, p); }
    assert |r.mapInfo.Keys| == |m.mapInfo.Keys| - 1;
    assert |r.mapInfo| == |r.mapInfo.Keys| && |m.mapInfo| == |m.mapInfo.Keys|;
  }

  /** Deleting a pending entry leaves the others as they were. */
  lemma DeleteKeeps(hs: Hashes, m: Man, id: int, pending: set<int>, owed: int)
    requires Index(m) && Tables(hs, m, pending) && Counts(m, owed) && id in pending
    ensures Tables(hs, Delete(m, id), pending - {id}) && Counts(Delete(m, id), owed)
    ensures Delete(m, id).vvNew == m.vvNew && Delete(m, id).vvTried == m.vvTried
    ensures Delete(m, id).key == m.key
  {
    hide MoveLast, Index;
    var s := MoveLast(m, id);
    MoveLastIndex(m, id);
    ReorderedKeeps(hs, m, s, pending, owed);
    RemoveKeeps(hs, s, Delete(m, id), id, pending);
  }

  lemma RemoveKeeps(hs: Hashes, s: Man, r: Man, id: int, pending: set<int>)
    requires Tables(hs, s, pending) && id in pending
    requires r == s.(vRandom := r.vRandom, mapAddr := r.mapAddr, mapInfo := s.mapInfo - {id}, nNew := s.nNew - 1)
    ensures Tables(hs, r, pending - {id})
    ensures TriedIds(r) == TriedIds(s) && NewIds(r) == NewIds(s) - {id}
    ensures |NewIds(r)| == |NewIds(s)| - 1
  {
    hide GetBucketPosition, GetTriedBucket, TriedSlot;
    assert EntryOk(hs, s, id, pending) && Held(s, id) == {};
    forall k | k in r.mapInfo ensures EntryOk(hs, r, k, pending - {id}) {
      assert EntryOk(hs, s, k, pending) && Held(r, k) == Held(s, k);
    }
    forall t | t in r.vvNew ensures NewSlotOk(hs, r, t) {
      assert NewSlotOk(hs, s, t) && t in Held(s, s.vvNew[t]);
    }
    forall t | t in r.vvTried ensures TriedSlotOk(hs, r, t) { assert TriedSlotOk(hs, s, t); }
    assert NewIds(r) == NewIds(s) - {id} && id in NewIds(s);
  }

  function Orphaned(m: Man, s: Slot): set<int>
    requires s in m.vvNew && m.vvNew[s] in m.mapInfo
  {
    if m.mapInfo[m.vvNew[s]].refCount == 1 then {m.vvNew[s]} else {}
  }

  /** Changing one entry without moving it between the tables keeps the id sets. */
  lemma SameSides(m: Man, r: Man, id: int)
    requires id in m.mapInfo && id in r.mapInfo && r.mapInfo == m.mapInfo[id := r.mapInfo[id]]
    requires r.mapInfo[id].inTried == m.mapInfo[id].inTried
    ensures TriedIds(r) == TriedIds(m) && NewIds(r) == NewIds(m)
  {
  }

  /** Moving one entry from the new side to the tried side. */
  lemma ChangedSides(m: Man, r: Man, id: int)
    requires id in m.mapInfo && id in r.mapInfo && r.mapInfo == m.mapInfo[id := r.mapInfo[id]]
    requires r.mapInfo[id].inTried && !m.mapInfo[id].inTried
    ensures |TriedIds(r)| == |TriedIds(m)| + 1 && |NewIds(r)| == |NewIds(m)| - 1
  {
    assert NewIds(r) == NewIds(m) - {id} && id in NewIds(m);
    assert TriedIds(r) == TriedIds(m) + {id} && id !in TriedIds(m);
  }

  /** Two states that differ only in what they say of one entry. */
  predicate EditOf(m: Man, r: Man, id: int) {
    && r.key == m.key && id in m.mapInfo && id in r.mapInfo
    && r.mapInfo == m.mapInfo[id := r.mapInfo[id]]
    && r.mapInfo[id].service == m.mapInfo[id].service
    && (forall s :: s in m.vvNew && m.vvNew[s] != id ==> s in r.vvNew && r.vvNew[s] == m.vvNew[s])
    && (forall s :: s in r.vvNew && r.vvNew[s] != id ==> s in m.vvNew && r.vvNew[s] == m.vvNew[s])
    && (forall s :: s in m.vvTried && m.vvTried[s] != id ==> s in r.vvTried && r.vvTried[s] == m.vvTried[s])
    && (forall s :: s in r.vvTried && r.vvTried[s] != id ==> s in m.vvTried && r.vvTried[s] == m.vvTried[s])
  }

  lemma OutOfTried(hs: Hashes, m: Man, id: int, pending: set<int>)
    requires Tables(hs, m, pending) && id in m.mapInfo && !m.mapInfo[id].inTried
    ensures forall t :: t in m.vvTried ==> m.vvTried[t] != id
  {
    forall t | t in m.vvTried ensures m.vvTried[t] != id { assert TriedSlotOk(hs, m, t); }
  }

  lemma OutOfNew(hs: Hashes, m: Man, id: int, pending: set<int>)
    requires Tables(hs, m, pending) && id in m.mapInfo && m.mapInfo[id].refCount == 0
    ensures forall t :: t in m.vvNew ==> m.vvNew[t] != id
  {
    assert EntryOk(hs, m, id, pending);
    forall t | t in m.vvNew ensures m.vvNew[t] != id { assert t in Held(m, m.vvNew[t]); }
  }

  lemma EditKeeps(hs: Hashes, m: Man, r: Man, id: int, before: set<int>, after: set<int>)
    requires EditOf(m, r, id) && Tables(hs, m, before)
    requires after - {id} == before - {id}
    requires EntryOk(hs, r, id, after)
    requires forall s :: s in r.vvNew && r.vvNew[s] == id ==> NewSlotOk(hs, r, s)
    requires forall s :: s in r.vvTried && r.vvTried[s] == id ==> TriedSlotOk(hs, r, s)
    ensures Tables(hs, r, after)
  {
    hide GetBucketPosition, GetTriedBucket, TriedSlot;
    assert r.mapInfo.Keys == m.mapInfo.Keys;
    forall k | k in after ensures k in r.mapInfo { assert k != id ==> k in before - {id}; }
    forall k | k in r.mapInfo && k != id ensures EntryOk(hs, r, k, after) {
      assert EntryOk(hs, m, k, before) && Held(r, k) == Held(m, k);
      assert k in after <==> k in after - {id};
      assert k in before <==> k in before - {id};
    }
    forall t | t in r.vvNew && r.vvNew[t] != id ensures NewSlotOk(hs, r, t) { assert NewSlotOk(hs, m, t); }
    forall t | t in r.vvTried && r.vvTried[t] != id ensures TriedSlotOk(hs, r, t) { assert TriedSlotOk(hs, m, t); }
  }

  /** Emptying a slot leaves its entry in its other buckets, or pending if it had none. */
  lemma UnlinkKeeps(hs: Hashes, m: Man, s: Slot, pending: set<int>, owed: int)
    requires Tables(hs, m, pending) && Counts(m, owed)
    requires s in m.vvNew && m.vvNew[s] in m.mapInfo
    ensures Tables(hs, Unlink(m, s), pending + Orphaned(m, s)) && Counts(Unlink(m, s), owed)
    ensures m.vvNew[s] !in pending
  {
    hide GetBucketPosition, GetTriedBucket, TriedSlot;
    var id := m.vvNew[s];
    var u := Unlink(m, s);
    assert NewSlotOk(hs, m, s) && EntryOk(hs, m, id, pending) && s in Held(m, id);
    assert Held(u, id) == Held(m, id) - {s};
    forall t | t in u.vvNew && u.vvNew[t] == id ensures NewSlotOk(hs, u, t) { assert NewSlotOk(hs, m, t); }
    OutOfTried(hs, m, id, pending);
    EditKeeps(hs, m, u, id, pending, pending + Orphaned(m, s));
    SameSides(m, u, id);
  }

  /** What ClearNew leaves of an entry that stays: only the emptied slot is gone. */
  predicate Cleared(m: Man, r: Man, s: Slot, id: int)
    requires id in m.mapInfo && id in r.mapInfo
  {
    var drop := if s in m.vvNew && m.vvNew[s] == id then 1 else 0;
    r.mapInfo[id] == m.mapInfo[id].(randomPos := r.mapInfo[id].randomPos,
                                    refCount := m.mapInfo[id].refCount - drop)
  }

  lemma ClearNewFrame(m: Man, s: Slot)
    requires Known(m)
    ensures var r := ClearNew(m, s);
      && r.key == m.key && r.idCount == m.idCount && r.lastGood == m.lastGood
      && r.mapInfo.Keys <= m.mapInfo.Keys
      && forall id :: id in r.mapInfo ==> Cleared(m, r, s, id)
  {
    var r := ClearNew(m, s);
    if s in m.vvNew {
      var id := m.vvNew[s];
      var u := Unlink(m, s);
      SameIndexKeepsIndex(m, u);
      if u.mapInfo[id].refCount == 0 {
        var w := MoveLast(u, id);
        MoveLastIndex(u, id);
        forall k | k in r.mapInfo ensures Cleared(m, r, s, k) { assert SameRecord(u, w, k); }
      }
    }
  }

  lemma ClearNewKeeps(hs: Hashes, m: Man, s: Slot, pending: set<int>, owed: int)
    requires Known(m) && Tables(hs, m, pending) && Counts(m, owed)
    ensures var r := ClearNew(m, s);
      && Known(r) && Tables(hs, r, pending) && Counts(r, owed)
      && r.vvNew == m.vvNew - {s} && r.vvTried == m.vvTried
  {
    hide Index, Tables, Counts;
    if s in m.vvNew {
      var id := m.vvNew[s];
      var u := Unlink(m, s);
      UnlinkKeeps(hs, m, s, pending, owed);
      SameIndexKeepsIndex(m, u);
      if m.mapInfo[id].refCount == 1 {
        DeleteIndex(u, id);
        DeleteKeeps(hs, u, id, pending + {id}, owed);
        assert pending + {id} - {id} == pending;
      } else {
        assert pending + {} == pending;
      }
      SlotsKnown(hs, ClearNew(m, s), pending);
    } else {
      assert m.vvNew - {s} == m.vvNew;
    }
  }

  lemma SlotsKnown(hs: Hashes, m: Man, pending: set<int>)
    requires Index(m) && Tables(hs, m, pending)
    ensures Known(m)
  {
    forall s | s in m.vvNew ensures m.vvNew[s] in m.mapInfo { assert NewSlotOk(hs, m, s); }
    forall s | s in m.vvTried ensures m.vvTried[s] in m.mapInfo { assert TriedSlotOk(hs, m, s); }
  }

  /** Entering an entry in a free slot of the right position. */
  lemma LinkKeeps(hs: Hashes, m: Man, id: int, s: Slot, pending: set<int>, owed: int)
    requires Tables(hs, m, pending) && Counts(m, owed)
    requires id in m.mapInfo && !m.mapInfo[id].inTried && m.mapInfo[id].refCount < NEW_BUCKETS_PER_ADDRESS
    requires s !in m.vvNew && 0 <= s.0 < NEW_BUCKET_COUNT
    requires s.1 == GetBucketPosition(hs, m.key, true, s.0, m.mapInfo[id].service)
    ensures Tables(hs, Link(m, id, s), pending - {id}) && Counts(Link(m, id, s), owed)
  {
    hide GetBucketPosition, GetTriedBucket, TriedSlot;
    var r := Link(m, id, s);
    assert EntryOk(hs, m, id, pending);
    assert Held(r, id) == Held(m, id) + {s};
    forall t | t in r.vvNew && r.vvNew[t] == id ensures NewSlotOk(hs, r, t) { assert t != s ==> NewSlotOk(hs, m, t); }
    OutOfTried(hs, m, id, pending);
    EditKeeps(hs, m, r, id, pending, pending - {id});
    SameSides(m, r, id);
  }

  /** Leaving every new bucket makes an entry pending and uncounted. */
  lemma WithdrawKeeps(hs: Hashes, m: Man, id: int, owed: int)
    requires Tables(hs, m, {}) && Counts(m, owed)
    requires id in m.mapInfo && !m.mapInfo[id].inTried
    ensures Tables(hs, Withdraw(m, id), {id}) && Counts(Withdraw(m, id), owed + 1)
  {
    hide GetBucketPosition, GetTriedBucket, TriedSlot;
    var r := Withdraw(m, id);
    assert EntryOk(hs, m, id, {});
    assert Held(r, id) == {};
    OutOfTried(hs, m, id, {});
    EditKeeps(hs, m, r, id, {}, {id});
    SameSides(m, r, id);
  }

  /** Leaving the tried table makes an entry pending and uncounted. */
  lemma EvictKeeps(hs: Hashes, m: Man, s: Slot, pending: set<int>, owed: int)
    requires Tables(hs, m, pending) && Counts(m, owed)
    requires s in m.vvTried && m.vvTried[s] in m.mapInfo
    ensures Tables(hs, Evict(m, s), pending + {m.vvTried[s]}) && Counts(Evict(m, s), owed + 1)
  {
    var id := m.vvTried[s];
    var r := Evict(m, s);
    assert TriedSlotOk(hs, m, s) && EntryOk(hs, m, id, pending);
    assert Held(r, id) == Held(m, id);
    OutOfNew(hs, m, id, pending);
    forall t | t in m.vvTried && m.vvTried[t] == id ensures t == s { assert TriedSlotOk(hs, m, t); }
    EditKeeps(hs, m, r, id, pending, pending + {id});
    assert m.mapInfo == r.mapInfo[id := m.mapInfo[id]];
    ChangedSides(r, m, id);
  }

  /** Entering the tried table settles a pending entry. */
  lemma PromoteKeeps(hs: Hashes, m: Man, id: int, pending: set<int>, owed: int)
    requires Tables(hs, m, pending) && Counts(m, owed) && id in pending
    requires TriedSlot(hs, m.key, m.mapInfo[id].service) !in m.vvTried
    requires m.mapInfo[id].lastSuccess != 0
    ensures Tables(hs, Promote(hs, m, id), pending - {id}) && Counts(Promote(hs, m, id), owed - 1)
  {
    hide GetBucketPosition, GetTriedBucket, TriedSlot;
    var r := Promote(hs, m, id);
    assert EntryOk(hs, m, id, pending);
    assert Held(r, id) == Held(m, id);
    OutOfNew(hs, m, id, pending);
    OutOfTried(hs, m, id, pending);
    EditKeeps(hs, m, r, id, pending, pending - {id});
    ChangedSides(m, r, id);
  }

  // -------------------------------------------------------- operations

  lemma KnownByTables(hs: Hashes, m: Man, r: Man, pending: set<int>)
    requires Index(m) && SameIndex(m, r) && Tables(hs, r, pending)
    ensures Known(r)
  {
    SameIndexKeepsIndex(m, r);
    SlotsKnown(hs, r, pending);
  }

  lemma ReadmitKeeps(hs: Hashes, m: Man, id: int, pending: set<int>, owed: int)
    requires Known(m) && Tables(hs, m, pending) && Counts(m, owed) && id in pending && Held(m, id) == {}
    ensures var r := Readmit(hs, m, id);
      && Known(r) && Tables(hs, r, pending - {id}) && Counts(r, owed - 1)
      && r.vvTried == m.vvTried && r.key == m.key
      && forall k :: k in pending - {id} ==> SameRecord(m, r, k)
  {
    hide Index, Counts, ClearNew;
    var i := m.mapInfo[id];
    var s := NewSlot(hs, m.key, i.service, i.source);
    var c := ClearNew(m, s);
    ClearNewKeeps(hs, m, s, pending, owed);
    ClearNewFrame(m, s);
    OutOfNew(hs, m, id, pending);
    assert EntryOk(hs, m, id, pending) && Cleared(m, c, s, id);
    LinkKeeps(hs, c, id, s, pending, owed);
    var l := Link(c, id, s);
    var r := Readmit(hs, m, id);
    assert r == l.(nNew := l.nNew + 1);
    CountedTables(hs, l, r, pending - {id}, owed);
    KnownByTables(hs, c, r, pending - {id});
    forall k | k in pending - {id} ensures SameRecord(m, r, k) {
      assert Cleared(m, c, s, k) && EntryOk(hs, m, k, pending);
      OutOfNew(hs, m, k, pending);
    }
  }

  /** nNew is the only difference. */
  lemma CountedTables(hs: Hashes, m: Man, r: Man, pending: set<int>, owed: int)
    requires r == m.(nNew := r.nNew) && Tables(hs, m, pending) && Counts(m, owed)
    ensures Tables(hs, r, pending) && Counts(r, owed - (r.nNew - m.nNew))
  {
    forall id | id in r.mapInfo ensures EntryOk(hs, r, id, pending) {
      assert EntryOk(hs, m, id, pending) && Held(r, id) == Held(m, id);
    }
    forall s | s in r.vvNew ensures NewSlotOk(hs, r, s) { assert NewSlotOk(hs, m, s); }
    forall s | s in r.vvTried ensures TriedSlotOk(hs, r, s) { assert TriedSlotOk(hs, m, s); }
    assert TriedIds(r) == TriedIds(m) && NewIds(r) == NewIds(m);
  }

  lemma DisplaceKeeps(hs: Hashes, m: Man, s: Slot, id: int, owed: int)
    requires Known(m) && Tables(hs, m, {id}) && Counts(m, owed)
    requires s in m.vvTried && Held(m, m.vvTried[s]) == {} && Held(m, id) == {}
    ensures var r := Displace(hs, m, s);
      && Known(r) && Tables(hs, r, {id}) && Counts(r, owed)
      && r.vvTried == m.vvTried - {s} && r.key == m.key && SameRecord(m, r, id)
  {
    hide Index, Counts;
    var evicted := m.vvTried[s];
    var e := Evict(m, s);
    assert TriedSlotOk(hs, m, s) && EntryOk(hs, m, id, {id});
    EvictKeeps(hs, m, s, {id}, owed);
    KnownByTables(hs, m, e, {id} + {evicted});
    assert Held(e, evicted) == Held(m, evicted);
    ReadmitKeeps(hs, e, evicted, {id} + {evicted}, owed + 1);
    assert {id} + {evicted} - {evicted} == {id};
    assert SameRecord(e, Displace(hs, m, s), id);
  }

  lemma TriedAreApart(hs: Hashes, m: Man, pending: set<int>)
    requires Tables(hs, m, pending)
    ensures TriedApart(m)
  {
    forall s | s in m.vvTried ensures Held(m, m.vvTried[s]) == {} {
      assert TriedSlotOk(hs, m, s) && EntryOk(hs, m, m.vvTried[s], pending);
    }
  }

  lemma MakeRoomKeeps(hs: Hashes, m: Man, id: int)
    requires Known(m) && Tables(hs, m, {}) && Counts(m, 0) && TriedApart(m)
    requires id in m.mapInfo && !m.mapInfo[id].inTried
    ensures var r := MakeRoom(hs, m, id);
      && Known(r) && Tables(hs, r, {id}) && Counts(r, 1) && r.key == m.key
      && r.mapInfo[id] == m.mapInfo[id].(refCount := 0, randomPos := r.mapInfo[id].randomPos)
      && TriedSlot(hs, m.key, m.mapInfo[id].service) !in r.vvTried
  {
    var w := Withdraw(m, id);
    WithdrawKeeps(hs, m, id, 0);
    KnownByTables(hs, m, w, {id});
    assert EntryOk(hs, w, id, {id}) && Held(w, id) == {};
    var s := TriedSlot(hs, m.key, m.mapInfo[id].service);
    if s in w.vvTried {
      assert Held(w, w.vvTried[s]) <= Held(m, m.vvTried[s]);
      DisplaceKeeps(hs, w, s, id, 1);
    }
  }

  lemma MakeTriedKeeps(hs: Hashes, m: Man, id: int)
    requires Known(m) && Tables(hs, m, {}) && Counts(m, 0) && TriedApart(m)
    requires id in m.mapInfo && !m.mapInfo[id].inTried && m.mapInfo[id].lastSuccess != 0
    ensures var r := MakeTried(hs, m, id);
      && Index(r) && Tables(hs, r, {}) && Counts(r, 0) && r.key == m.key
  {
    hide Tables, Index, Counts;
    var d := MakeRoom(hs, m, id);
    MakeRoomKeeps(hs, m, id);
    PromoteKeeps(hs, d, id, {id}, 1);
    assert {id} - {id} == {};
    SameIndexKeepsIndex(d, Promote(hs, d, id));
  }

  /** Editing an entry's times, services and attempts, and nothing else. */
  predicate Jotted(i: Info, j: Info) {
    && j == i.(time := j.time, services := j.services, lastTry := j.lastTry, lastSuccess := j.lastSuccess,
               lastCountAttempt := j.lastCountAttempt, attempts := j.attempts)
    && j.lastTry >= 0 && j.lastSuccess >= 0 && (i.inTried ==> j.lastSuccess != 0)
  }

  lemma JotKeeps(hs: Hashes, m: Man, id: int, j: Info, t: int)
    requires Consistent(hs, m) && id in m.mapInfo && Jotted(m.mapInfo[id], j)
    ensures Consistent(hs, WithInfo(m, id, j).(lastGood := t))
  {
    hide Index, GetBucketPosition, GetTriedBucket, TriedSlot;
    var r := WithInfo(m, id, j).(lastGood := t);
    SameIndexKeepsIndex(m, r);
    assert EntryOk(hs, m, id, {}) && Held(r, id) == Held(m, id);
    forall s | s in r.vvNew && r.vvNew[s] == id ensures NewSlotOk(hs, r, s) { assert NewSlotOk(hs, m, s); }
    forall s | s in r.vvTried && r.vvTried[s] == id ensures TriedSlotOk(hs, r, s) { assert TriedSlotOk(hs, m, s); }
    EditKeeps(hs, m, r, id, {}, {});
    SameSides(m, r, id);
  }

  lemma LastGoodKeeps(hs: Hashes, m: Man, t: int)
    requires Consistent(hs, m)
    ensures Consistent(hs, m.(lastGood := t))
  {
    hide GetBucketPosition, GetTriedBucket, TriedSlot;
    var r := m.(lastGood := t);
    SameIndexKeepsIndex(m, r);
    forall id | id in r.mapInfo ensures EntryOk(hs, r, id, {}) {
      assert EntryOk(hs, m, id, {}) && Held(r, id) == Held(m, id);
    }
    forall s | s in r.vvNew ensures NewSlotOk(hs, r, s) { assert NewSlotOk(hs, m, s); }
    forall s | s in r.vvTried ensures TriedSlotOk(hs, r, s) { assert TriedSlotOk(hs, m, s); }
    assert TriedIds(r) == TriedIds(m) && NewIds(r) == NewIds(m);
  }

  /** What the operations ask of the state: that the tables name known entries only,
      and the two tables share none. */
  lemma ConsistentIsKnown(hs: Hashes, m: Man)
    requires Consistent(hs, m)
    ensures Known(m) && TriedApart(m)
  {
    SlotsKnown(hs, m, {});
    TriedAreApart(hs, m, {});
  }

  /** Good_ keeps the manager consistent, and its search for a bucket cannot fail. */
  lemma GoodKeeps(hs: Hashes, m: Man, a: Service, t: int)
    requires Consistent(hs, m) && t > 0
    ensures Known(m) && TriedApart(m)
    ensures Consistent(hs, Good(hs, m, a, t))
    ensures forall id :: id in NewIds(m) ==> Held(m, id) != {}
  {
    ConsistentIsKnown(hs, m);
    forall id | id in NewIds(m) ensures Held(m, id) != {} { assert EntryOk(hs, m, id, {}); }
    var found := Find(m, a.ip);
    if found.None? || m.mapInfo[found.value].service != a {
      LastGoodKeeps(hs, m, t);
    } else {
      var i := m.mapInfo[found.value];
      var j := i.(lastSuccess := t, lastTry := t, attempts := 0);
      JotKeeps(hs, m, found.value, j, t);
      var u := WithInfo(m, found.value, j).(lastGood := t);
      assert u == WithInfo(m.(lastGood := t), found.value, j);
      ConsistentIsKnown(hs, u);
      if !i.inTried {
        assert found.value in NewIds(m);
        MakeTriedKeeps(hs, u, found.value);
      }
    }
  }

  /** Linking an entry in the place of whatever its slot held. */
  lemma ReplaceKeeps(hs: Hashes, m: Man, id: int, s: Slot, pending: set<int>)
    requires Known(m) && Tables(hs, m, pending) && Counts(m, 0) && pending <= {id}
    requires id in m.mapInfo && !m.mapInfo[id].inTried && m.mapInfo[id].refCount < NEW_BUCKETS_PER_ADDRESS
    requires s in m.vvNew ==> m.vvNew[s] != id
    requires 0 <= s.0 < NEW_BUCKET_COUNT && s.1 == GetBucketPosition(hs, m.key, true, s.0, m.mapInfo[id].service)
    ensures var r := Link(ClearNew(m, s), id, s);
      Index(r) && Tables(hs, r, {}) && Counts(r, 0) && r.key == m.key
  {
    hide Index, Tables, Counts, ClearNew;
    var c := ClearNew(m, s);
    ClearNewKeeps(hs, m, s, pending, 0);
    ClearNewFrame(m, s);
    assert Cleared(m, c, s, id);
    LinkKeeps(hs, c, id, s, pending, 0);
    SameIndexKeepsIndex(c, Link(c, id, s));
    assert pending - {id} == {};
  }

  /** An entry outside the tried table is pending exactly when no slot holds it. */
  lemma PendingIffUnheld(hs: Hashes, m: Man, id: int, pending: set<int>)
    requires Tables(hs, m, pending) && id in m.mapInfo && !m.mapInfo[id].inTried
    ensures id in pending <==> m.mapInfo[id].refCount == 0
    ensures id in pending ==> forall s :: s in m.vvNew ==> m.vvNew[s] != id
  {
    assert EntryOk(hs, m, id, pending);
    if id in pending { OutOfNew(hs, m, id, pending); }
  }

  /** Place settles an entry that is new (and then pending) or has room for one more bucket. */
  lemma PlaceKeeps(hs: Hashes, m: Man, id: int, src: NetAddr, now: int, pending: set<int>)
    requires Known(m) && Tables(hs, m, pending) && Counts(m, 0) && pending <= {id}
    requires id in m.mapInfo && !m.mapInfo[id].inTried && m.mapInfo[id].refCount < NEW_BUCKETS_PER_ADDRESS
    ensures var r := Place(hs, m, id, src, now);
      Index(r) && Tables(hs, r, {}) && Counts(r, 0) && r.key == m.key
  {
    hide Index, Tables, Counts, ClearNew, Delete, Link, IsTerrible;
    var i := m.mapInfo[id];
    var s := NewSlot(hs, m.key, i.service, src);
    PendingIffUnheld(hs, m, id, pending);
    if !(s in m.vvNew && m.vvNew[s] == id) {
      ReplaceKeeps(hs, m, id, s, pending);
    }
    if i.refCount == 0 {
      assert pending == {id};
      DeleteIndex(m, id);
      DeleteKeeps(hs, m, id, pending, 0);
      assert pending - {id} == {};
    } else {
      assert pending == {};
    }
  }

  lemma CreateSlots(hs: Hashes, m: Man, c: Man, i: Info)
    requires Tables(hs, m, {}) && m.idCount !in m.mapInfo
    requires c == m.(idCount := m.idCount + 1, mapInfo := m.mapInfo[m.idCount := i],
                     mapAddr := c.mapAddr, vRandom := c.vRandom, nNew := m.nNew + 1)
    ensures forall s :: s in c.vvNew ==> NewSlotOk(hs, c, s) && c.vvNew[s] != m.idCount
    ensures forall s :: s in c.vvTried ==> TriedSlotOk(hs, c, s)
  {
    hide GetBucketPosition, GetTriedBucket, TriedSlot, EntryOk;
    forall s | s in c.vvNew ensures NewSlotOk(hs, c, s) && c.vvNew[s] != m.idCount { assert NewSlotOk(hs, m, s); }
    forall s | s in c.vvTried ensures TriedSlotOk(hs, c, s) { assert TriedSlotOk(hs, m, s); }
  }

  lemma CreateEntry(hs: Hashes, m: Man, c: Man, i: Info, k: int)
    requires Tables(hs, m, {}) && m.idCount !in m.mapInfo && k in c.mapInfo
    requires c == m.(idCount := m.idCount + 1, mapInfo := m.mapInfo[m.idCount := i],
                     mapAddr := c.mapAddr, vRandom := c.vRandom, nNew := m.nNew + 1)
    requires !i.inTried && i.refCount == 0 && i.lastTry == 0 && i.lastSuccess == 0
    ensures EntryOk(hs, c, k, {m.idCount})
  {
    hide GetBucketPosition, GetTriedBucket, TriedSlot;
    assert Held(c, k) == Held(m, k);
    if k == m.idCount {
      forall s | s in m.vvNew ensures m.vvNew[s] != k { assert NewSlotOk(hs, m, s); }
      assert Held(m, k) == {};
    } else {
      assert EntryOk(hs, m, k, {});
    }
  }

  lemma CreateTables(hs: Hashes, m: Man, c: Man, i: Info)
    requires Tables(hs, m, {}) && Counts(m, 0) && m.idCount !in m.mapInfo
    requires c == m.(idCount := m.idCount + 1, mapInfo := m.mapInfo[m.idCount := i],
                     mapAddr := c.mapAddr, vRandom := c.vRandom, nNew := m.nNew + 1)
    requires !i.inTried && i.refCount == 0 && i.lastTry == 0 && i.lastSuccess == 0
    ensures Tables(hs, c, {m.idCount}) && Counts(c, 0)
  {
    hide EntryOk, NewSlotOk, TriedSlotOk, Counts;
    CreateSlots(hs, m, c, i);
    forall k | k in c.mapInfo ensures EntryOk(hs, c, k, {m.idCount}) { CreateEntry(hs, m, c, i, k); }
    CreateCounts(m, c, i);
  }

  lemma CreateCounts(m: Man, c: Man, i: Info)
    requires Counts(m, 0) && m.idCount !in m.mapInfo && !i.inTried
    requires c.mapInfo == m.mapInfo[m.idCount := i] && c.nNew == m.nNew + 1 && c.nTried == m.nTried
    ensures Counts(c, 0)
  {
    assert TriedIds(c) == TriedIds(m);
    assert NewIds(c) == NewIds(m) + {m.idCount};
  }

  /** A created entry is pending, and counted already. */
  lemma CreateKeeps(hs: Hashes, m: Man, addr: Address, src: NetAddr)
    requires Consistent(hs, m) && Find(m, addr.service.ip).None?
    ensures var c := Create(m, addr, src).(nNew := m.nNew + 1);
      Known(c) && Tables(hs, c, {m.idCount}) && Counts(c, 0)
  {
    hide Index, Tables, Counts;
    var c := Create(m, addr, src).(nNew := m.nNew + 1);
    CreateIndex(m, addr, src);
    CreateTables(hs, m, c, InfoOf(addr, src, |m.vRandom|));
    KnownByTables(hs, Create(m, addr, src), c, {m.idCount});
  }

  lemma EntryBound(hs: Hashes, m: Man, id: int)
    requires Consistent(hs, m) && id in m.mapInfo
    ensures m.mapInfo[id].refCount <= NEW_BUCKETS_PER_ADDRESS
  {
    assert EntryOk(hs, m, id, {});
  }

  lemma AddFoundKeeps(hs: Hashes, m: Man, id: int, i: Info, addr: Address, src: NetAddr, now: int, luck: nat)
    requires Consistent(hs, m) && id in m.mapInfo && Jotted(m.mapInfo[id], i)
    ensures var u := WithInfo(m, id, i);
      && Known(u) && Consistent(hs, u)
      && (WantsAnother(i, addr, luck) ==> Consistent(hs, Place(hs, u, id, src, now)))
  {
    hide Index, Tables, Counts, Place;
    var u := WithInfo(m, id, i);
    assert u == u.(lastGood := m.lastGood);
    JotKeeps(hs, m, id, i, m.lastGood);
    ConsistentIsKnown(hs, u);
    EntryBound(hs, m, id);
    if WantsAnother(i, addr, luck) {
      PlaceKeeps(hs, u, id, src, now, {});
    }
  }

  lemma RefreshedJots(hs: Hashes, m: Man, id: int, addr: Address, penalty: int, now: int)
    requires Consistent(hs, m) && id in m.mapInfo
    ensures Jotted(m.mapInfo[id], Refreshed(m.mapInfo[id], addr, penalty, now))
  {
    assert EntryOk(hs, m, id, {});
  }

  /** Add_ keeps the manager consistent. */
  lemma AddKeeps(hs: Hashes, m: Man, addr: Address, src: NetAddr, penalty: int, now: int, luck: nat)
    requires Consistent(hs, m)
    ensures Known(m)
    ensures Consistent(hs, Add(hs, m, addr, src, penalty, now, luck).0)
  {
    hide Index, Tables, Counts, Place, Jotted, Refreshed, WantsAnother, InfoOf;
    ConsistentIsKnown(hs, m);
    var found := Find(m, addr.service.ip);
    if hs.routable(addr.service.ip) {
      if found.Some? {
        RefreshedJots(hs, m, found.value, addr, penalty, now);
        AddFoundKeeps(hs, m, found.value, Refreshed(m.mapInfo[found.value], addr, penalty, now), addr, src, now, luck);
      } else {
        AddUnknownKeeps(hs, m, addr.(time := Trunc32(Max(0, addr.time - penalty))), src, now);
      }
    }
  }

  lemma AddUnknownKeeps(hs: Hashes, m: Man, addr: Address, src: NetAddr, now: int)
    requires Consistent(hs, m) && Find(m, addr.service.ip).None?
    ensures var c := Create(m, addr, src).(nNew := m.nNew + 1);
      Known(c) && Consistent(hs, Place(hs, c, m.idCount, src, now))
  {
    hide Index, Tables, Counts, Place;
    CreateKeeps(hs, m, addr, src);
    PlaceKeeps(hs, Create(m, addr, src).(nNew := m.nNew + 1), m.idCount, src, now, {m.idCount});
  }

  predicate NotBefore1970(n: Note) { n.Attempted? ==> n.time >= 0 }

  lemma AnnotateKeeps(hs: Hashes, m: Man, a: Service, n: Note)
    requires Consistent(hs, m) && NotBefore1970(n)
    ensures Consistent(hs, Annotate(m, a, n))
  {
    hide Index, Counts;
    var found := Find(m, a.ip);
    if found.Some? && m.mapInfo[found.value].service == a {
      assert EntryOk(hs, m, found.value, {});
      JotKeeps(hs, m, found.value, Noted(m.mapInfo[found.value], n, m.lastGood), m.lastGood);
      assert Annotate(m, a, n) == Annotate(m, a, n).(lastGood := m.lastGood);
    }
  }
}
