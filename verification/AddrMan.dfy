/** CAddrMan as it is written: an object whose methods update its maps, its random-order
    vector, its two bucket tables and its counters in place. Every method is proved to do
    to the tables what the function of the same name in AddrManState does to their value. */
module AddrMan {
  import opened Basics
  import opened AddrManState
  import opened AddrManProofs
  import opened AddrManRuns

  /** The value of a bucket table; -1 marks a free slot. */
  ghost function Table(a: array2<int>): map<Slot, int>
    reads a
  {
    map b, p | 0 <= b < a.Length0 && 0 <= p < a.Length1 && a[b, p] != -1 :: (b, p) := a[b, p]
  }

  class Manager {
    const hs: Hashes
    const key: int
    var nIdCount: int
    var mapInfo: map<int, Info>
    var mapAddr: map<NetAddr, int>
    var vRandom: seq<int>
    var nTried: int
    const vvTried: array2<int>
    var nNew: int
    const vvNew: array2<int>
    var nLastGood: int

    ghost predicate Valid()
      reads this
    {
      && vvTried.Length0 == TRIED_BUCKET_COUNT && vvTried.Length1 == BUCKET_SIZE
      && vvNew.Length0 == NEW_BUCKET_COUNT && vvNew.Length1 == BUCKET_SIZE
      && vvTried != vvNew
    }

    ghost function Abs(): Man
      reads this, vvTried, vvNew
    {
      Man(key, nIdCount, mapInfo, mapAddr, vRandom, nTried, Table(vvTried), nNew, Table(vvNew), nLastGood)
    }

    /** A fresh manager, with the key the random source gave. */
    constructor (hs: Hashes, key: int)
      ensures Valid() && fresh(vvTried) && fresh(vvNew)
      ensures this.hs == hs && Abs() == Fresh(key)
    {
      this.hs := hs;
      this.key := key;
      vRandom := [];
      mapInfo := map[];
      mapAddr := map[];
      nIdCount := 0;
      nTried := 0;
      nNew := 0;
      nLastGood := 1;
      vvTried := new int[TRIED_BUCKET_COUNT, BUCKET_SIZE]((_, _) => -1);
      vvNew := new int[NEW_BUCKET_COUNT, BUCKET_SIZE]((_, _) => -1);
    }

    /** vvNew[b][p] = id, where -1 frees the slot. */
    method SetNew(b: int, p: int, id: int)
      requires Valid() && 0 <= b < NEW_BUCKET_COUNT && 0 <= p < BUCKET_SIZE
      modifies vvNew
      ensures Table(vvNew) == if id == -1 then old(Table(vvNew)) - {(b, p)} else old(Table(vvNew))[(b, p) := id]
    {
      vvNew[b, p] := id;
    }

    method SetTried(b: int, p: int, id: int)
      requires Valid() && 0 <= b < TRIED_BUCKET_COUNT && 0 <= p < BUCKET_SIZE
      modifies vvTried
      ensures Table(vvTried) == if id == -1 then old(Table(vvTried)) - {(b, p)} else old(Table(vvTried))[(b, p) := id]
    {
      vvTried[b, p] := id;
    }

    /** vvNew[b][p]. */
    method GetNew(b: int, p: int) returns (id: int)
      requires Valid() && 0 <= b < NEW_BUCKET_COUNT && 0 <= p < BUCKET_SIZE
      ensures id == if (b, p) in Table(vvNew) then Table(vvNew)[(b, p)] else -1
      ensures (b, p) in Table(vvNew) ==> Table(vvNew)[(b, p)] != -1
    {
      id := vvNew[b, p];
    }

    method GetTried(b: int, p: int) returns (id: int)
      requires Valid() && 0 <= b < TRIED_BUCKET_COUNT && 0 <= p < BUCKET_SIZE
      ensures id == if (b, p) in Table(vvTried) then Table(vvTried)[(b, p)] else -1
      ensures (b, p) in Table(vvTried) ==> Table(vvTried)[(b, p)] != -1
    {
      id := vvTried[b, p];
    }

    method FindId(ip: NetAddr) returns (found: Option<int>)
      ensures found == Find(Abs(), ip)
    {
      if ip !in mapAddr { return None; }
      if mapAddr[ip] in mapInfo { return Some(mapAddr[ip]); }
      return None;
    }

    method CreateEntry(addr: Address, src: NetAddr) returns (id: int)
      modifies this
      ensures Abs() == Create(old(Abs()), addr, src) && id == old(nIdCount)
    {
      id := nIdCount;
      nIdCount := nIdCount + 1;
      mapInfo := mapInfo[id := InfoOf(addr, src, -1)];
      mapAddr := mapAddr[addr.service.ip := id];
      mapInfo := mapInfo[id := mapInfo[id].(randomPos := |vRandom|)];
      vRandom := vRandom + [id];
    }

    /** SwapRandom; the two ids it finds are in mapInfo, as it asserts. */
    method Swap(p1: int, p2: int)
      requires Index(Abs()) && 0 <= p1 < |vRandom| && 0 <= p2 < |vRandom|
      modifies this
      ensures Abs() == SwapRandom(old(Abs()), p1, p2)
    {
      if p1 == p2 { return; }
      assert PosOk(Abs(), p1) && PosOk(Abs(), p2);
      var id1, id2 := vRandom[p1], vRandom[p2];
      mapInfo := mapInfo[id1 := mapInfo[id1].(randomPos := p2)];
      mapInfo := mapInfo[id2 := mapInfo[id2].(randomPos := p1)];
      vRandom := vRandom[p1 := id2];
      vRandom := vRandom[p2 := id1];
    }

    method DeleteEntry(id: int)
      requires Index(Abs()) && id in mapInfo && !mapInfo[id].inTried && mapInfo[id].refCount == 0
      modifies this
      ensures Abs() == Delete(old(Abs()), id)
    {
      hide Index, Table, SwapRandom;
      PlaceOf(Abs(), id);
      var ip := mapInfo[id].service.ip;
      Swap(mapInfo[id].randomPos, |vRandom| - 1);
      vRandom := vRandom[..|vRandom| - 1];
      mapAddr := mapAddr - {ip};
      mapInfo := mapInfo - {id};
      nNew := nNew - 1;
    }

    /** ClearNew; the occupant, if any, has a positive reference count, as it asserts. */
    method ClearSlot(b: int, p: int)
      requires Valid() && 0 <= b < NEW_BUCKET_COUNT && 0 <= p < BUCKET_SIZE
      requires Known(Abs())
      requires (b, p) in Table(vvNew) ==>
                 mapInfo[Table(vvNew)[(b, p)]].refCount > 0 && !mapInfo[Table(vvNew)[(b, p)]].inTried
      modifies this, vvNew
      ensures Abs() == ClearNew(old(Abs()), (b, p))
    {
      hide Table;
      ghost var m := Abs();
      var id := GetNew(b, p);
      if id != -1 {
        mapInfo := mapInfo[id := mapInfo[id].(refCount := mapInfo[id].refCount - 1)];
        SetNew(b, p, -1);
        assert Abs() == Unlink(m, (b, p));
        SameIndexKeepsIndex(m, Abs());
        if mapInfo[id].refCount == 0 {
          DeleteEntry(id);
        }
      }
    }

    /** The slots of the first n new buckets that hold an entry. */
    static ghost function HeldBelow(m: Man, id: int, n: int): set<Slot> {
      set s | s in m.vvNew && m.vvNew[s] == id && s.0 < n
    }

    static lemma HeldBelowStep(hs: Hashes, m: Man, id: int, n: int)
      requires Tables(hs, m, {}) && id in m.mapInfo && 0 <= n < NEW_BUCKET_COUNT
      ensures var s := (n, GetBucketPosition(hs, m.key, true, n, m.mapInfo[id].service));
        && HeldBelow(m, id, n + 1) == HeldBelow(m, id, n) + (if s in Held(m, id) then {s} else {})
        && s !in HeldBelow(m, id, n)
    {
      forall s | s in m.vvNew && m.vvNew[s] == id
        ensures s == (s.0, GetBucketPosition(hs, m.key, true, s.0, m.mapInfo[id].service))
      {
        assert NewSlotOk(hs, m, s);
      }
    }

    static lemma HeldBelowAll(hs: Hashes, m: Man, id: int)
      requires Tables(hs, m, {})
      ensures HeldBelow(m, id, 0) == {} && HeldBelow(m, id, NEW_BUCKET_COUNT) == Held(m, id)
    {
      forall s | s in m.vvNew ensures 0 <= s.0 < NEW_BUCKET_COUNT { assert NewSlotOk(hs, m, s); }
    }

    static lemma WithdrawnStep(hs: Hashes, m: Man, id: int, n: int)
      requires Tables(hs, m, {}) && id in m.mapInfo && 0 <= n < NEW_BUCKET_COUNT
      ensures var s := (n, GetBucketPosition(hs, m.key, true, n, m.mapInfo[id].service));
        var left, after := m.vvNew - HeldBelow(m, id, n), m.vvNew - HeldBelow(m, id, n + 1);
        if s in left && left[s] == id
        then after == left - {s} && |HeldBelow(m, id, n + 1)| == |HeldBelow(m, id, n)| + 1
        else after == left && HeldBelow(m, id, n + 1) == HeldBelow(m, id, n)
    {
      hide Tables, GetBucketPosition;
      HeldBelowStep(hs, m, id, n);
    }

    /** The loop of MakeTried: look in every new bucket, at the one position where the
        entry can be, and take it out. */
    method WithdrawEntry(id: int)
      requires Valid() && Tables(hs, Abs(), {}) && id in mapInfo && id != -1
      modifies this, vvNew
      ensures Abs() == Withdraw(old(Abs()), id)
    {
      hide Tables, GetBucketPosition, HeldBelow, Held, Table;
      ghost var m := Abs();
      var i := mapInfo[id];
      HeldBelowAll(hs, m, id);
      assert m.vvNew - {} == m.vvNew;
      for bucket := 0 to NEW_BUCKET_COUNT
        invariant Table(vvNew) == m.vvNew - HeldBelow(m, id, bucket)
        invariant id in mapInfo && mapInfo[id] == i.(refCount := i.refCount - |HeldBelow(m, id, bucket)|)
        invariant mapInfo == m.mapInfo[id := mapInfo[id]]
        invariant Abs() == m.(mapInfo := mapInfo, vvNew := Table(vvNew))
      {
        var pos := GetBucketPosition(hs, key, true, bucket, mapInfo[id].service);
        WithdrawnStep(hs, m, id, bucket);
        var occupant := GetNew(bucket, pos);
        if occupant == id {
          SetNew(bucket, pos, -1);
          mapInfo := mapInfo[id := mapInfo[id].(refCount := mapInfo[id].refCount - 1)];
        }
      }
      nNew := nNew - 1;
    }

    /** The middle of MakeTried: the entry in a tried slot goes back to the new table. */
    method DisplaceEntry(kb: int, kp: int, ghost id: int)
      requires Valid() && 0 <= kb < TRIED_BUCKET_COUNT && 0 <= kp < BUCKET_SIZE
      requires Known(Abs()) && Tables(hs, Abs(), {id}) && Counts(Abs(), 1) && Held(Abs(), id) == {}
      requires (kb, kp) in Table(vvTried) && Held(Abs(), Table(vvTried)[(kb, kp)]) == {}
      modifies this, vvNew, vvTried
      ensures Abs() == Displace(hs, old(Abs()), (kb, kp))
    {
      hide Table, Tables, Counts, Index, ClearNew, GetBucketPosition, GetNewBucket;
      ghost var m := Abs();
      var evicted := GetTried(kb, kp);
      mapInfo := mapInfo[evicted := mapInfo[evicted].(inTried := false)];
      SetTried(kb, kp, -1);
      nTried := nTried - 1;
      ghost var e := Abs();
      assert e == Evict(m, (kb, kp));
      EvictKeeps(hs, m, (kb, kp), {id}, 1);
      KnownByTables(hs, m, e, {id} + {evicted});
      var bucket := GetNewBucket(hs, key, mapInfo[evicted].service, mapInfo[evicted].source);
      var pos := GetBucketPosition(hs, key, true, bucket, mapInfo[evicted].service);
      OccupantSettled(hs, e, (bucket, pos), {id} + {evicted});
      ClearSlot(bucket, pos);
      ghost var c := Abs();
      ClearNewKeeps(hs, e, (bucket, pos), {id} + {evicted}, 2);
      mapInfo := mapInfo[evicted := mapInfo[evicted].(refCount := 1)];
      SetNew(bucket, pos, evicted);
      nNew := nNew + 1;
    }

    /** MakeTried; after its loop the reference count is zero, as it asserts. */
    method MakeEntryTried(id: int)
      requires Valid() && Known(Abs()) && Tables(hs, Abs(), {}) && Counts(Abs(), 0) && TriedApart(Abs())
      requires id in mapInfo && !mapInfo[id].inTried
      modifies this, vvNew, vvTried
      ensures Abs() == MakeTried(hs, old(Abs()), id)
    {
      hide Table, Tables, Counts, Index, Displace, GetBucketPosition, GetTriedBucket;
      ghost var m := Abs();
      NotNegative(m, id);
      WithdrawEntry(id);
      ghost var w := Abs();
      WithdrawKeeps(hs, m, id, 0);
      KnownByTables(hs, m, w, {id});
      PendingIffUnheld(hs, w, id, {id});
      assert mapInfo[id].refCount == 0;
      var kb := GetTriedBucket(hs, key, mapInfo[id].service);
      var kp := GetBucketPosition(hs, key, false, kb, mapInfo[id].service);
      var occupant := GetTried(kb, kp);
      if occupant != -1 {
        assert Held(w, occupant) <= Held(m, occupant);
        assert Held(w, id) == {};
        DisplaceEntry(kb, kp, id);
      }
      assert Abs() == MakeRoom(hs, m, id);
      MakeRoomKeeps(hs, m, id);
      SetTried(kb, kp, id);
      nTried := nTried + 1;
      mapInfo := mapInfo[id := mapInfo[id].(inTried := true)];
    }

    /** Good_. The search for a bucket starts at a random one; in a consistent manager it
        always finds one, so the entry of a known service always ends up tried. */
    method MarkGood(a: Service, t: int, rnd: nat)
      requires Valid() && Consistent(hs, Abs()) && Known(Abs()) && TriedApart(Abs()) && t > 0
      modifies this, vvNew, vvTried
      ensures Abs() == Good(hs, old(Abs()), a, t)
      ensures Consistent(hs, Abs())
    {
      hide Table, Tables, Counts, Index, MakeTried, GetBucketPosition;
      ghost var m := Abs();
      GoodKeeps(hs, m, a, t);
      nLastGood := t;
      var found := FindId(a.ip);
      if found.None? { return; }
      var id := found.value;
      if mapInfo[id].service != a { return; }
      mapInfo := mapInfo[id := mapInfo[id].(lastSuccess := t, lastTry := t, attempts := 0)];
      ghost var u := Abs();
      assert u == WithInfo(m.(lastGood := t), id, mapInfo[id]) == WithInfo(m, id, mapInfo[id]).(lastGood := t);
      if mapInfo[id].inTried { return; }
      NotNegative(m, id);
      EntryFloor(hs, m, id);
      JotKeeps(hs, m, id, mapInfo[id], t);
      ConsistentIsKnown(hs, u);
      var bucket := FindBucket(id, rnd);
      MakeEntryTried(id);
    }

    /** The search of Good_ for a bucket the entry is in. */
    method FindBucket(id: int, rnd: nat) returns (bucket: int)
      requires Valid() && Consistent(hs, Abs()) && id in mapInfo && !mapInfo[id].inTried && id != -1
      ensures 0 <= bucket < NEW_BUCKET_COUNT
      ensures (bucket, GetBucketPosition(hs, key, true, bucket, mapInfo[id].service)) in Held(Abs(), id)
    {
      hide Table, Index, Counts, GetBucketPosition;
      assert EntryOk(hs, Abs(), id, {}) && Held(Abs(), id) != {};
      ghost var s :| s in Held(Abs(), id);
      assert NewSlotOk(hs, Abs(), s);
      var start := rnd % NEW_BUCKET_COUNT;
      bucket := start;
      ghost var steps := (s.0 - start) % NEW_BUCKET_COUNT;
      for n := 0 to NEW_BUCKET_COUNT
        invariant n <= steps
      {
        bucket := (n + start) % NEW_BUCKET_COUNT;
        var pos := GetBucketPosition(hs, key, true, bucket, mapInfo[id].service);
        var occupant := GetNew(bucket, pos);
        if occupant == id { return; }
      }
    }

    /** The end of Add_: find a place for the entry, or drop it if it has none. */
    method PlaceEntry(id: int, src: NetAddr, now: int, ghost pending: set<int>)
      requires Valid() && Known(Abs()) && Tables(hs, Abs(), pending) && pending <= {id}
      requires id in mapInfo && !mapInfo[id].inTried
      modifies this, vvNew
      ensures Abs() == Place(hs, old(Abs()), id, src, now)
    {
      hide Table, Tables, Index, ClearNew, Delete, GetBucketPosition, GetNewBucket, IsTerrible;
      ghost var m := Abs();
      var bucket := GetNewBucket(hs, key, mapInfo[id].service, src);
      var pos := GetBucketPosition(hs, key, true, bucket, mapInfo[id].service);
      OccupantSettled(hs, m, (bucket, pos), pending);
      NotNegative(m, id);
      var occupant := GetNew(bucket, pos);
      if occupant != id {
        var insert := occupant == -1;
        if !insert {
          var existing := mapInfo[occupant];
          if IsTerrible(existing, now) || (existing.refCount > 1 && mapInfo[id].refCount == 0) {
            insert := true;
          }
        }
        if insert {
          ClearSlot(bucket, pos);
          mapInfo := mapInfo[id := mapInfo[id].(refCount := mapInfo[id].refCount + 1)];
          SetNew(bucket, pos, id);
        } else if mapInfo[id].refCount == 0 {
          DeleteEntry(id);
        }
      }
    }

    /** How Add_ refreshes the record of an address it knows. */
    static method RefreshRecord(i: Info, addr: Address, penalty: int, now: int) returns (j: Info)
      ensures j == Refreshed(i, addr, penalty, now)
    {
      j := i;
      var online := now - addr.time < DAY;
      var interval := if online then 60 * 60 else DAY;
      if addr.time != 0 && (j.time == 0 || j.time < addr.time - interval - penalty) {
        j := j.(time := Trunc32(Max(0, addr.time - penalty)));
      }
      j := j.(services := j.services + addr.services);
    }

    /** The tests of Add_ on an address it knows; in the last, an entry with N references
        passes one time in 2^N. */
    static method WantsSlot(i: Info, addr: Address, luck: nat) returns (b: bool)
      ensures b == WantsAnother(i, addr, luck)
    {
      if addr.time == 0 || (i.time != 0 && addr.time <= i.time) { return false; }
      if i.inTried { return false; }
      if i.refCount == NEW_BUCKETS_PER_ADDRESS { return false; }
      var factor := 1;
      var n := 0;
      while n < i.refCount
        invariant n <= i.refCount || n == 0
        invariant factor == Pow2(n) && 0 <= n
      {
        factor := factor * 2;
        n := n + 1;
      }
      b := factor > 1 ==> luck % factor == 0;
    }

    /** Add_ on an address that is known. */
    method Refresh(id: int, addr: Address, src: NetAddr, penalty: int, now: int, luck: nat)
      requires Valid() && Consistent(hs, Abs()) && Known(Abs()) && id in mapInfo
      modifies this, vvNew
      ensures var i := Refreshed(old(mapInfo)[id], addr, penalty, now);
        var u := WithInfo(old(Abs()), id, i);
        Known(u) && Abs() == if WantsAnother(i, addr, luck) then Place(hs, u, id, src, now) else u
    {
      hide Table, Tables, Counts, Index, Place, Refreshed, WantsAnother;
      ghost var m := Abs();
      var i := RefreshRecord(mapInfo[id], addr, penalty, now);
      RefreshedJots(hs, m, id, addr, penalty, now);
      AddFoundKeeps(hs, m, id, i, addr, src, now, luck);
      mapInfo := mapInfo[id := i];
      assert Abs() == WithInfo(m, id, i);
      var wants := WantsSlot(i, addr, luck);
      if wants {
        WantsMeans(i, addr, luck);
        PlaceEntry(id, src, now, {});
      }
    }

    /** Add_ on an address that is not known; `aged` is the address as it will be stored. */
    method AddUnknown(addr: Address, ghost aged: Address, src: NetAddr, penalty: int, now: int)
      requires Valid() && Consistent(hs, Abs()) && Find(Abs(), addr.service.ip).None?
      requires aged == addr.(time := Trunc32(Max(0, addr.time - penalty)))
      modifies this, vvNew
      ensures var c := Create(old(Abs()), aged, src).(nNew := old(nNew) + 1);
        Known(c) && old(nIdCount) in c.mapInfo && Abs() == Place(hs, c, old(nIdCount), src, now)
    {
      hide Table, Tables, Counts, Index, Place, Trunc32;
      ghost var m := Abs();
      CreateKeeps(hs, m, aged, src);
      CreatedRecord(m, addr, aged, src);
      var id := CreateEntry(addr, src);
      mapInfo := mapInfo[id := mapInfo[id].(time := Trunc32(Max(0, mapInfo[id].time - penalty)))];
      nNew := nNew + 1;
      assert Abs() == Create(m, aged, src).(nNew := m.nNew + 1);
      PlaceEntry(id, src, now, {id});
    }

    /** Add_. */
    method AddAddress(addr: Address, src: NetAddr, penalty: int, now: int, luck: nat) returns (isNew: bool)
      requires Valid() && Consistent(hs, Abs()) && Known(Abs())
      modifies this, vvNew
      ensures (Abs(), isNew) == Add(hs, old(Abs()), addr, src, penalty, now, luck)
      ensures Consistent(hs, Abs())
    {
      hide Table, Tables, Counts, Index, Place, Trunc32, Refreshed, WantsAnother, Create;
      AddKeeps(hs, Abs(), addr, src, penalty, now, luck);
      if !hs.routable(addr.service.ip) { return false; }
      var found := FindId(addr.service.ip);
      if found.Some? {
        Refresh(found.value, addr, src, penalty, now, luck);
        return false;
      }
      AddUnknown(addr, addr.(time := Trunc32(Max(0, addr.time - penalty))), src, penalty, now);
      return true;
    }

    /** Attempt_, Connected_ and SetServices_ on the record of one known service. */
    method Jot(a: Service, n: Note)
      requires Consistent(hs, Abs()) && NotBefore1970(n)
      modifies this
      ensures Abs() == Annotate(old(Abs()), a, n)
      ensures Consistent(hs, Abs())
    {
      hide Table, Tables, Counts, Index;
      ghost var m := Abs();
      AnnotateKeeps(hs, m, a, n);
      var found := FindId(a.ip);
      if found.None? { return; }
      var id := found.value;
      if mapInfo[id].service != a { return; }
      match n
      case Attempted(countFailure, t) =>
        mapInfo := mapInfo[id := mapInfo[id].(lastTry := t)];
        if countFailure && mapInfo[id].lastCountAttempt < nLastGood {
          mapInfo := mapInfo[id := mapInfo[id].(lastCountAttempt := t, attempts := mapInfo[id].attempts + 1)];
        }
      case Connected(t) =>
        if t - mapInfo[id].time > 20 * 60 {
          mapInfo := mapInfo[id := mapInfo[id].(time := Trunc32(t))];
        }
      case SetServices(s) =>
        mapInfo := mapInfo[id := mapInfo[id].(services := s)];
    }

    /** GetAddr_. */
    method GetAddr(rnd: nat -> nat, now: int) returns (found: seq<Address>)
      requires Consistent(hs, Abs())
      modifies this
      ensures (Abs(), found) == GetAddrFrom(old(Abs()), 0, rnd, now, [])
      ensures Consistent(hs, Abs())
    {
      hide Table, Tables, Counts, Index, Reordered, SwapRandom, IsTerrible, AddressOf, Pick, Decent;
      ghost var m := Abs();
      ApplyKeeps(hs, m, OpGetAddr(rnd, now));
      var limit := GETADDR_MAX_PCT * |vRandom| / 100;
      if limit > GETADDR_MAX { limit := GETADDR_MAX; }
      found := [];
      var n := 0;
      while n < |vRandom|
        invariant Index(Abs()) && 0 <= n <= |vRandom| == |m.vRandom|
        invariant GetAddrFrom(m, 0, rnd, now, []) == GetAddrFrom(Abs(), n, rnd, now, found)
        decreases |m.vRandom| - n
      {
        if |found| >= limit { return; }
        var p := Pick(n, |vRandom|, rnd(n));
        GetAddrStep(Abs(), n, p, now);
        Swap(n, p);
        var i := mapInfo[vRandom[n]];
        if !IsTerrible(i, now) { found := found + [AddressOf(i)]; }
        n := n + 1;
      }
    }
  }

  lemma NotNegative(m: Man, id: int)
    requires Index(m) && id in m.mapInfo
    ensures id >= 0
  {
    assert IdOk(m, id);
  }

  lemma CreatedRecord(m: Man, addr: Address, aged: Address, src: NetAddr)
    requires aged == addr.(time := aged.time)
    ensures var c := Create(m, addr, src);
      Create(m, aged, src) == WithInfo(c, m.idCount, c.mapInfo[m.idCount].(time := aged.time))
  {
  }

  lemma WantsMeans(i: Info, addr: Address, luck: nat)
    requires WantsAnother(i, addr, luck)
    ensures !i.inTried && i.refCount != NEW_BUCKETS_PER_ADDRESS
  {
  }

  lemma EntryFloor(hs: Hashes, m: Man, id: int)
    requires Consistent(hs, m) && id in m.mapInfo
    ensures m.mapInfo[id].lastTry >= 0 && m.mapInfo[id].lastSuccess >= 0
  {
    assert EntryOk(hs, m, id, {});
  }

  lemma OccupantSettled(hs: Hashes, m: Man, s: Slot, pending: set<int>)
    requires Tables(hs, m, pending)
    ensures s in m.vvNew ==>
      m.vvNew[s] in m.mapInfo && m.mapInfo[m.vvNew[s]].refCount > 0 && !m.mapInfo[m.vvNew[s]].inTried
  {
    if s in m.vvNew {
      assert NewSlotOk(hs, m, s) && EntryOk(hs, m, m.vvNew[s], pending) && s in Held(m, m.vvNew[s]);
    }
  }
}
