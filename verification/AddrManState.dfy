/** The address manager as a value: the tables of CAddrMan, the effect of each of its
    operations on them, and the consistency condition that Check_ tests.
    A table slot that holds -1 in the program is a slot absent from the map here. */
module AddrManState {
  import opened Basics

  const TRIED_BUCKET_COUNT := 256
  const NEW_BUCKET_COUNT := 1024
  const BUCKET_SIZE := 64
  const TRIED_BUCKETS_PER_GROUP := 8
  const NEW_BUCKETS_PER_SOURCE_GROUP := 64
  const NEW_BUCKETS_PER_ADDRESS := 8
  const HORIZON_DAYS := 30
  const RETRIES := 3
  const MAX_FAILURES := 10
  const MIN_FAIL_DAYS := 7
  const GETADDR_MAX_PCT := 23
  const GETADDR_MAX := 2500
  const DAY := 24 * 60 * 60

  type NetAddr = int
  /** Service flags, as the set of bits that are on. */
  type Services = set<nat>
  datatype Service = Service(ip: NetAddr, port: int)
  datatype Address = Address(service: Service, services: Services, time: int)

  datatype Info = Info(
    service: Service, services: Services, time: int, source: NetAddr,
    lastTry: int, lastCountAttempt: int, lastSuccess: int, attempts: int,
    refCount: int, inTried: bool, randomPos: int)

  /** A bucket and a position in it. */
  type Slot = (int, int)

  /** What the manager asks of addresses: the keyed hashes, the address group and
      routability. All uninterpreted: any functions will do. */
  datatype Hashes = Hashes(
    routable: NetAddr -> bool, group: NetAddr -> int,
    tried1: (int, Service) -> nat, tried2: (int, int, int) -> nat,
    new1: (int, int, int) -> nat, new2: (int, int, int) -> nat,
    position: (int, bool, int, Service) -> nat)

  datatype Man = Man(
    key: int, idCount: int,
    mapInfo: map<int, Info>, mapAddr: map<NetAddr, int>, vRandom: seq<int>,
    nTried: int, vvTried: map<Slot, int>,
    nNew: int, vvNew: map<Slot, int>,
    lastGood: int)

  // ---------------------------------------------------------------- hashing

  function GetTriedBucket(hs: Hashes, key: int, a: Service): (b: int)
    ensures 0 <= b < TRIED_BUCKET_COUNT
  {
    var hash1 := hs.tried1(key, a);
    hs.tried2(key, hs.group(a.ip), hash1 % TRIED_BUCKETS_PER_GROUP) % TRIED_BUCKET_COUNT
  }

  function GetNewBucket(hs: Hashes, key: int, a: Service, src: NetAddr): (b: int)
    ensures 0 <= b < NEW_BUCKET_COUNT
  {
    var hash1 := hs.new1(key, hs.group(a.ip), hs.group(src));
    hs.new2(key, hs.group(src), hash1 % NEW_BUCKETS_PER_SOURCE_GROUP) % NEW_BUCKET_COUNT
  }

  function GetBucketPosition(hs: Hashes, key: int, fNew: bool, bucket: int, a: Service): (p: int)
    ensures 0 <= p < BUCKET_SIZE
  {
    hs.position(key, fNew, bucket, a) % BUCKET_SIZE
  }

  function TriedSlot(hs: Hashes, key: int, a: Service): (s: Slot) {
    var b := GetTriedBucket(hs, key, a);
    (b, GetBucketPosition(hs, key, false, b, a))
  }

  function NewSlot(hs: Hashes, key: int, a: Service, src: NetAddr): (s: Slot) {
    var b := GetNewBucket(hs, key, a, src);
    (b, GetBucketPosition(hs, key, true, b, a))
  }

  function IsTerrible(i: Info, now: int): bool {
    if i.lastTry != 0 && i.lastTry >= now - 60 then false
    else if i.time > now + 10 * 60 then true
    else if i.time == 0 || now - i.time > HORIZON_DAYS * DAY then true
    else if i.lastSuccess == 0 && i.attempts >= RETRIES then true
    else now - i.lastSuccess > MIN_FAIL_DAYS * DAY && i.attempts >= MAX_FAILURES
  }

  // ------------------------------------------------------ the consistency condition

  /** The slots of the new table that hold this id. */
  function Held(m: Man, id: int): set<Slot> {
    set s | s in m.vvNew && m.vvNew[s] == id
  }

  function TriedIds(m: Man): set<int> {
    set id | id in m.mapInfo && m.mapInfo[id].inTried
  }

  function NewIds(m: Man): set<int> {
    set id | id in m.mapInfo && !m.mapInfo[id].inTried
  }

  /** An entry is where mapAddr and vRandom say it is. */
  predicate IdOk(m: Man, id: int)
    requires id in m.mapInfo
  {
    var i := m.mapInfo[id];
    && 0 <= id < m.idCount
    && i.service.ip in m.mapAddr && m.mapAddr[i.service.ip] == id
    && 0 <= i.randomPos < |m.vRandom| && m.vRandom[i.randomPos] == id
  }

  predicate AddrOk(m: Man, a: NetAddr)
    requires a in m.mapAddr
  {
    m.mapAddr[a] in m.mapInfo && m.mapInfo[m.mapAddr[a]].service.ip == a
  }

  predicate PosOk(m: Man, p: int)
    requires 0 <= p < |m.vRandom|
  {
    m.vRandom[p] in m.mapInfo && m.mapInfo[m.vRandom[p]].randomPos == p
  }

  /** mapInfo, mapAddr and vRandom describe the same entries. */
  predicate Index(m: Man) {
    && (forall id :: id in m.mapInfo ==> IdOk(m, id))
    && (forall a :: a in m.mapAddr ==> AddrOk(m, a))
    && (forall p :: 0 <= p < |m.vRandom| ==> PosOk(m, p))
    && |m.vRandom| == |m.mapInfo| && 0 <= m.idCount
  }

  /** What an entry's own fields say about the tables; a pending entry is one that an
      operation has taken out of the tables and not yet put back. */
  predicate EntryOk(hs: Hashes, m: Man, id: int, pending: set<int>)
    requires id in m.mapInfo
  {
    var i := m.mapInfo[id];
    && i.refCount == |Held(m, id)|
    && i.lastTry >= 0 && i.lastSuccess >= 0
    && if id in pending then !i.inTried && i.refCount == 0
       else if i.inTried then
         && i.lastSuccess != 0 && i.refCount == 0
         && TriedSlot(hs, m.key, i.service) in m.vvTried
         && m.vvTried[TriedSlot(hs, m.key, i.service)] == id
       else 1 <= i.refCount <= NEW_BUCKETS_PER_ADDRESS
  }

  predicate NewSlotOk(hs: Hashes, m: Man, s: Slot)
    requires s in m.vvNew
  {
    && m.vvNew[s] in m.mapInfo
    && !m.mapInfo[m.vvNew[s]].inTried
    && 0 <= s.0 < NEW_BUCKET_COUNT
    && s.1 == GetBucketPosition(hs, m.key, true, s.0, m.mapInfo[m.vvNew[s]].service)
  }

  predicate TriedSlotOk(hs: Hashes, m: Man, s: Slot)
    requires s in m.vvTried
  {
    && m.vvTried[s] in m.mapInfo
    && m.mapInfo[m.vvTried[s]].inTried
    && s == TriedSlot(hs, m.key, m.mapInfo[m.vvTried[s]].service)
  }

  /** The two bucket tables agree with the entries. */
  predicate Tables(hs: Hashes, m: Man, pending: set<int>) {
    && pending <= m.mapInfo.Keys
    && (forall id :: id in m.mapInfo ==> EntryOk(hs, m, id, pending))
    && (forall s :: s in m.vvNew ==> NewSlotOk(hs, m, s))
    && (forall s :: s in m.vvTried ==> TriedSlotOk(hs, m, s))
  }

  /** nTried and nNew; `owed` new entries are not counted in nNew at the moment. */
  predicate Counts(m: Man, owed: int) {
    m.nTried == |TriedIds(m)| && m.nNew == |NewIds(m)| - owed
  }

  /** The state between operations. */
  predicate Consistent(hs: Hashes, m: Man) {
    m.key != 0 && Index(m) && Tables(hs, m, {}) && Counts(m, 0)
  }

  /** The tests of Check_, in its order, each with the code it returns on failure. */
  predicate CheckPasses(hs: Hashes, m: Man) {
    && |m.vRandom| == m.nTried + m.nNew                                           // -7
    && (forall id :: id in m.mapInfo ==>
          var i := m.mapInfo[id];
          && (i.inTried ==> i.lastSuccess != 0 && i.refCount == 0)                 // -1, -2
          && (!i.inTried ==> 1 <= i.refCount <= NEW_BUCKETS_PER_ADDRESS)          // -3, -4
          && i.service.ip in m.mapAddr && m.mapAddr[i.service.ip] == id           // -5
          && 0 <= i.randomPos < |m.vRandom| && m.vRandom[i.randomPos] == id       // -14
          && i.lastTry >= 0 && i.lastSuccess >= 0)                                // -6, -8
    && |TriedIds(m)| == m.nTried && |NewIds(m)| == m.nNew                         // -9, -10
    && (forall s :: s in m.vvTried ==>
          && m.vvTried[s] in TriedIds(m)                                          // -11
          && s == TriedSlot(hs, m.key, m.mapInfo[m.vvTried[s]].service))          // -17, -18
    && (forall id :: id in TriedIds(m) ==>
          exists s :: s in m.vvTried && m.vvTried[s] == id)                       // -13
    && (forall s :: s in m.vvNew ==>
          && m.vvNew[s] in NewIds(m)                                              // -12
          && s.1 == GetBucketPosition(hs, m.key, true, s.0, m.mapInfo[m.vvNew[s]].service)) // -19
    && (forall id :: id in NewIds(m) ==> |Held(m, id)| == m.mapInfo[id].refCount) // -12, -15
    && m.key != 0                                                                 // -16
  }

  // ---------------------------------------------------------------- operations

  function Trunc32(x: int): int { x % 0x1_0000_0000 }

  function Max(a: int, b: int): int { if a < b then b else a }

  function Fresh(key: int): Man {
    Man(key, 0, map[], map[], [], 0, map[], 0, map[], 1)
  }

  function Find(m: Man, ip: NetAddr): Option<int> {
    if ip in m.mapAddr && m.mapAddr[ip] in m.mapInfo then Some(m.mapAddr[ip]) else None
  }

  function InfoOf(addr: Address, src: NetAddr, pos: int): Info {
    Info(addr.service, addr.services, addr.time, src, 0, 0, 0, 0, 0, false, pos)
  }

  function Create(m: Man, addr: Address, src: NetAddr): Man {
    m.(idCount := m.idCount + 1,
       mapInfo := m.mapInfo[m.idCount := InfoOf(addr, src, |m.vRandom|)],
       mapAddr := m.mapAddr[addr.service.ip := m.idCount],
       vRandom := m.vRandom + [m.idCount])
  }

  predicate SameScalars(m: Man, r: Man) {
    r.key == m.key && r.idCount == m.idCount && r.lastGood == m.lastGood
  }

  function SwapRandom(m: Man, p1: int, p2: int): (r: Man)
    requires Index(m)
    requires 0 <= p1 < |m.vRandom| && 0 <= p2 < |m.vRandom|
    ensures r.mapInfo.Keys == m.mapInfo.Keys && |r.vRandom| == |m.vRandom|
    ensures SameScalars(m, r)
  {
    if p1 == p2 then m else
    assert PosOk(m, p1) && PosOk(m, p2);
    var id1, id2 := m.vRandom[p1], m.vRandom[p2];
    m.(mapInfo := m.mapInfo[id1 := m.mapInfo[id1].(randomPos := p2)][id2 := m.mapInfo[id2].(randomPos := p1)],
       vRandom := m.vRandom[p1 := id2][p2 := id1])
  }

  /** Two states with the same entries at the same addresses and random positions. */
  predicate SameIndex(m: Man, r: Man) {
    && r.idCount == m.idCount && r.mapAddr == m.mapAddr && r.vRandom == m.vRandom
    && r.mapInfo.Keys == m.mapInfo.Keys
    && forall id :: id in m.mapInfo ==> SamePlace(m, r, id)
  }

  predicate SamePlace(m: Man, r: Man, id: int)
    requires id in m.mapInfo && id in r.mapInfo
  {
    var i, j := m.mapInfo[id], r.mapInfo[id];
    i.service == j.service && i.randomPos == j.randomPos
  }

  lemma SameIndexKeepsIndex(m: Man, r: Man)
    requires Index(m) && SameIndex(m, r)
    ensures Index(r)
  {
    forall id | id in r.mapInfo ensures IdOk(r, id) { assert IdOk(m, id); }
    forall a | a in r.mapAddr ensures AddrOk(r, a) {
      assert AddrOk(m, a) && SamePlace(m, r, m.mapAddr[a]);
    }
    forall p | 0 <= p < |r.vRandom| ensures PosOk(r, p) {
      assert PosOk(m, p) && SamePlace(m, r, m.vRandom[p]);
    }
    assert |r.mapInfo.Keys| == |r.mapInfo| && |m.mapInfo.Keys| == |m.mapInfo|;
  }

  /** Two states that differ only in the order of vRandom. */
  predicate Reordered(m: Man, r: Man) {
    && r == m.(mapInfo := r.mapInfo, vRandom := r.vRandom)
    && r.mapInfo.Keys == m.mapInfo.Keys && |r.vRandom| == |m.vRandom|
    && forall id :: id in m.mapInfo ==> SameRecord(m, r, id)
  }

  predicate SameRecord(m: Man, r: Man, id: int)
    requires id in m.mapInfo && id in r.mapInfo
  {
    r.mapInfo[id] == m.mapInfo[id].(randomPos := r.mapInfo[id].randomPos)
  }

  lemma SwapRandomReorders(m: Man, p1: int, p2: int)
    requires Index(m)
    requires 0 <= p1 < |m.vRandom| && 0 <= p2 < |m.vRandom|
    ensures Reordered(m, SwapRandom(m, p1, p2))
  {
  }

  lemma SwapRandomIndex(m: Man, p1: int, p2: int)
    requires Index(m)
    requires 0 <= p1 < |m.vRandom| && 0 <= p2 < |m.vRandom|
    ensures Index(SwapRandom(m, p1, p2))
  {
    var r := SwapRandom(m, p1, p2);
    SwapRandomReorders(m, p1, p2);
    assert PosOk(m, p1) && PosOk(m, p2);
    forall id | id in r.mapInfo ensures IdOk(r, id) { assert IdOk(m, id) && SameRecord(m, r, id); }
    forall a | a in r.mapAddr ensures AddrOk(r, a) { assert AddrOk(m, a) && SameRecord(m, r, m.mapAddr[a]); }
    forall p | 0 <= p < |r.vRandom| ensures PosOk(r, p) { assert PosOk(m, p); }
    assert |r.mapInfo| == |m.mapInfo| by { assert |r.mapInfo.Keys| == |r.mapInfo|; }
  }

  /** Bring an entry to the end of vRandom. */
  function MoveLast(m: Man, id: int): (r: Man)
    requires Index(m) && id in m.mapInfo
    ensures r.mapInfo.Keys == m.mapInfo.Keys && |r.vRandom| == |m.vRandom| > 0
    ensures SameScalars(m, r)
  {
    assert IdOk(m, id);
    SwapRandom(m, m.mapInfo[id].randomPos, |m.vRandom| - 1)
  }

  lemma PlaceOf(m: Man, id: int)
    requires Index(m) && id in m.mapInfo
    ensures 0 <= m.mapInfo[id].randomPos < |m.vRandom| && m.vRandom[m.mapInfo[id].randomPos] == id
  {
    assert IdOk(m, id);
  }

  lemma MoveLastIndex(m: Man, id: int)
    requires Index(m) && id in m.mapInfo
    ensures var r := MoveLast(m, id);
      && Index(r) && Reordered(m, r)
      && r.vRandom[|r.vRandom| - 1] == id && SameRecord(m, r, id)
  {
    hide Index;
    PlaceOf(m, id);
    SwapRandomIndex(m, m.mapInfo[id].randomPos, |m.vRandom| - 1);
    SwapRandomReorders(m, m.mapInfo[id].randomPos, |m.vRandom| - 1);
  }

  function Delete(m: Man, id: int): (r: Man)
    requires Index(m) && id in m.mapInfo
    ensures r.mapInfo.Keys == m.mapInfo.Keys - {id}
    ensures SameScalars(m, r)
  {
    var s := MoveLast(m, id);
    s.(vRandom := s.vRandom[..|s.vRandom| - 1],
       mapAddr := s.mapAddr - {m.mapInfo[id].service.ip},
       mapInfo := s.mapInfo - {id},
       nNew := s.nNew - 1)
  }

  function WithInfo(m: Man, id: int, i: Info): Man {
    m.(mapInfo := m.mapInfo[id := i])
  }

  /** mapInfo, mapAddr and vRandom agree, and the tables name known entries only. */
  predicate Known(m: Man) {
    && Index(m)
    && (forall s :: s in m.vvNew ==> m.vvNew[s] in m.mapInfo)
    && (forall s :: s in m.vvTried ==> m.vvTried[s] in m.mapInfo)
  }

  /** Empty one occupied slot of the new table. */
  function Unlink(m: Man, s: Slot): Man
    requires s in m.vvNew && m.vvNew[s] in m.mapInfo
  {
    var id := m.vvNew[s];
    WithInfo(m, id, m.mapInfo[id].(refCount := m.mapInfo[id].refCount - 1)).(vvNew := m.vvNew - {s})
  }

  function ClearNew(m: Man, s: Slot): (r: Man)
    requires Known(m)
    ensures s !in m.vvNew ==> r == m
    ensures s in m.vvNew ==> m.mapInfo.Keys - {m.vvNew[s]} <= r.mapInfo.Keys <= m.mapInfo.Keys
    ensures SameScalars(m, r)
  {
    if s !in m.vvNew then m else
    var id := m.vvNew[s];
    var u := Unlink(m, s);
    SameIndexKeepsIndex(m, u);
    if u.mapInfo[id].refCount == 0 then Delete(u, id) else u
  }

  /** Enter an entry in one slot of the new table. */
  function Link(m: Man, id: int, s: Slot): Man
    requires id in m.mapInfo
  {
    WithInfo(m, id, m.mapInfo[id].(refCount := m.mapInfo[id].refCount + 1)).(vvNew := m.vvNew[s := id])
  }

  /** Take an entry out of every new bucket. */
  function Withdraw(m: Man, id: int): Man
    requires id in m.mapInfo
  {
    var i := m.mapInfo[id];
    WithInfo(m, id, i.(refCount := i.refCount - |Held(m, id)|))
      .(vvNew := m.vvNew - Held(m, id), nNew := m.nNew - 1)
  }

  /** Take the entry in an occupied slot out of the tried table. */
  function Evict(m: Man, s: Slot): Man
    requires s in m.vvTried && m.vvTried[s] in m.mapInfo
  {
    var id := m.vvTried[s];
    WithInfo(m, id, m.mapInfo[id].(inTried := false))
      .(vvTried := m.vvTried - {s}, nTried := m.nTried - 1)
  }

  /** Put an evicted entry back in the new table, over whatever its slot holds. */
  function Readmit(hs: Hashes, m: Man, id: int): (r: Man)
    requires Known(m) && id in m.mapInfo && Held(m, id) == {}
    ensures forall k :: k in m.mapInfo && Held(m, k) == {} ==> k in r.mapInfo
    ensures SameScalars(m, r)
  {
    var i := m.mapInfo[id];
    var s := NewSlot(hs, m.key, i.service, i.source);
    assert s in m.vvNew ==> s in Held(m, m.vvNew[s]);
    var c := ClearNew(m, s);
    WithInfo(c, id, c.mapInfo[id].(refCount := 1)).(vvNew := c.vvNew[s := id], nNew := c.nNew + 1)
  }

  /** Enter an entry in its slot of the tried table. */
  function Promote(hs: Hashes, m: Man, id: int): Man
    requires id in m.mapInfo
  {
    var i := m.mapInfo[id];
    WithInfo(m, id, i.(inTried := true))
      .(vvTried := m.vvTried[TriedSlot(hs, m.key, i.service) := id], nTried := m.nTried + 1)
  }

  /** Move the entry in an occupied slot of the tried table back to the new table. */
  function Displace(hs: Hashes, m: Man, s: Slot): (r: Man)
    requires Known(m) && s in m.vvTried && Held(m, m.vvTried[s]) == {}
    ensures forall k :: k in m.mapInfo && Held(m, k) == {} ==> k in r.mapInfo
    ensures SameScalars(m, r)
  {
    var e := Evict(m, s);
    SameIndexKeepsIndex(m, e);
    assert forall k :: Held(e, k) == Held(m, k);
    Readmit(hs, e, m.vvTried[s])
  }

  /** No entry in the tried table is also in the new table. */
  predicate TriedApart(m: Man) {
    forall s :: s in m.vvTried ==> Held(m, m.vvTried[s]) == {}
  }

  /** Take an entry out of the new table and free its slot of the tried table. */
  function MakeRoom(hs: Hashes, m: Man, id: int): (r: Man)
    requires Known(m) && id in m.mapInfo && TriedApart(m)
    ensures id in r.mapInfo
    ensures SameScalars(m, r)
  {
    var w := Withdraw(m, id);
    SameIndexKeepsIndex(m, w);
    var s := TriedSlot(hs, m.key, m.mapInfo[id].service);
    if s !in w.vvTried then w else
    assert Held(w, w.vvTried[s]) <= Held(m, w.vvTried[s]);
    assert Held(w, id) == {};
    Displace(hs, w, s)
  }

  function MakeTried(hs: Hashes, m: Man, id: int): Man
    requires Known(m) && id in m.mapInfo && TriedApart(m)
  {
    Promote(hs, MakeRoom(hs, m, id), id)
  }

  /** Good_: a connection to this service succeeded at time t. */
  function Good(hs: Hashes, m: Man, a: Service, t: int): Man
    requires Known(m)
    requires forall s :: s in m.vvTried ==> Held(m, m.vvTried[s]) == {}
  {
    var g := m.(lastGood := t);
    match Find(m, a.ip)
    case None => g
    case Some(id) =>
      var i := m.mapInfo[id];
      if i.service != a then g else
      var j := i.(lastSuccess := t, lastTry := t, attempts := 0);
      var u := WithInfo(g, id, j);
      SameIndexKeepsIndex(m, u);
      if i.inTried || Held(m, id) == {} then u else
      assert forall s :: s in u.vvTried ==> Held(u, u.vvTried[s]) <= Held(m, m.vvTried[s]);
      MakeTried(hs, u, id)
  }

  /** Give an entry a place in the bucket its source selects, if the occupant may go;
      an entry that ends up in no bucket is deleted. */
  function Place(hs: Hashes, m: Man, id: int, src: NetAddr, now: int): Man
    requires Known(m) && id in m.mapInfo
  {
    var i := m.mapInfo[id];
    var s := NewSlot(hs, m.key, i.service, src);
    if s in m.vvNew && m.vvNew[s] == id then m else
    var insert := s !in m.vvNew ||
      var e := m.mapInfo[m.vvNew[s]];
      IsTerrible(e, now) || (e.refCount > 1 && i.refCount == 0);
    if insert then Link(ClearNew(m, s), id, s)
    else if i.refCount == 0 then Delete(m, id)
    else m
  }

  function Pow2(n: int): int { if n <= 0 then 1 else 2 * Pow2(n - 1) }

  /** What Add_ refreshes in an entry it already has. */
  function Refreshed(i: Info, addr: Address, penalty: int, now: int): Info {
    var interval := if now - addr.time < DAY then 60 * 60 else DAY;
    var j := if addr.time != 0 && (i.time == 0 || i.time < addr.time - interval - penalty)
             then i.(time := Trunc32(Max(0, addr.time - penalty))) else i;
    j.(services := j.services + addr.services)
  }

  /** Whether Add_ goes on to look for one more bucket for an entry it already has;
      `luck` is the number the random source returns before reduction. */
  predicate WantsAnother(i: Info, addr: Address, luck: nat) {
    && addr.time != 0 && (i.time == 0 || addr.time > i.time)
    && !i.inTried
    && i.refCount != NEW_BUCKETS_PER_ADDRESS
    && (Pow2(i.refCount) > 1 ==> luck % Pow2(i.refCount) == 0)
  }

  lemma CreateIndex(m: Man, addr: Address, src: NetAddr)
    requires Index(m) && Find(m, addr.service.ip).None?
    ensures m.idCount !in m.mapInfo
    ensures Create(m, addr, src).mapInfo.Keys == m.mapInfo.Keys + {m.idCount}
    ensures Index(Create(m, addr, src))
  {
    hide IdOk, AddrOk, PosOk;
    var c := Create(m, addr, src);
    UnusedId(m, addr.service.ip);
    forall id | id in c.mapInfo ensures IdOk(c, id) { CreatedId(m, addr, src, id); }
    forall a | a in c.mapAddr ensures AddrOk(c, a) { CreatedAddr(m, addr, src, a); }
    forall p | 0 <= p < |c.vRandom| ensures PosOk(c, p) { CreatedPos(m, addr, src, p); }
    OneMore(m.mapInfo, m.idCount, c.mapInfo[m.idCount]);
  }

  lemma UnusedId(m: Man, ip: NetAddr)
    requires Index(m) && Find(m, ip).None?
    ensures m.idCount !in m.mapInfo && ip !in m.mapAddr && m.idCount >= 0
  {
    assert m.idCount in m.mapInfo ==> IdOk(m, m.idCount);
    assert ip in m.mapAddr ==> AddrOk(m, ip);
  }

  lemma CreatedId(m: Man, addr: Address, src: NetAddr, id: int)
    requires m.idCount !in m.mapInfo && addr.service.ip !in m.mapAddr && m.idCount >= 0
    requires id in Create(m, addr, src).mapInfo && (id != m.idCount ==> IdOk(m, id))
    ensures IdOk(Create(m, addr, src), id)
  {
  }

  lemma CreatedAddr(m: Man, addr: Address, src: NetAddr, a: NetAddr)
    requires m.idCount !in m.mapInfo
    requires a in Create(m, addr, src).mapAddr && (a != addr.service.ip ==> AddrOk(m, a))
    ensures AddrOk(Create(m, addr, src), a)
  {
  }

  lemma CreatedPos(m: Man, addr: Address, src: NetAddr, p: int)
    requires m.idCount !in m.mapInfo
    requires 0 <= p <= |m.vRandom| && (p < |m.vRandom| ==> PosOk(m, p))
    ensures PosOk(Create(m, addr, src), p)
  {
  }

  lemma OneMore(t: map<int, Info>, id: int, i: Info)
    requires id !in t
    ensures |t[id := i]| == |t| + 1
  {
    assert t[id := i].Keys == t.Keys + {id};
    assert |t[id := i]| == |t[id := i].Keys| && |t| == |t.Keys|;
  }

  /** Add_: the new state and whether the address was unknown. */
  function Add(hs: Hashes, m: Man, addr: Address, src: NetAddr, penalty: int, now: int, luck: nat): (r: (Man, bool))
    requires Known(m)
  {
    if !hs.routable(addr.service.ip) then (m, false) else
    match Find(m, addr.service.ip)
    case Some(id) =>
      var i := Refreshed(m.mapInfo[id], addr, penalty, now);
      var u := WithInfo(m, id, i);
      SameIndexKeepsIndex(m, u);
      (if WantsAnother(i, addr, luck) then Place(hs, u, id, src, now) else u, false)
    case None =>
      var aged := addr.(time := Trunc32(Max(0, addr.time - penalty)));
      CreateIndex(m, aged, src);
      var c := Create(m, aged, src).(nNew := m.nNew + 1);
      SameIndexKeepsIndex(Create(m, aged, src), c);
      (Place(hs, c, m.idCount, src, now), true)
  }

  /** The operations that only touch the record of a service already known. */
  datatype Note =
    | Attempted(countFailure: bool, time: int)
    | Connected(time: int)
    | SetServices(services: Services)

  function Noted(i: Info, n: Note, lastGood: int): Info {
    match n
    case Attempted(count, t) =>
      var j := i.(lastTry := t);
      if count && j.lastCountAttempt < lastGood
      then j.(lastCountAttempt := t, attempts := j.attempts + 1) else j
    case Connected(t) => if t - i.time > 20 * 60 then i.(time := Trunc32(t)) else i
    case SetServices(s) => i.(services := s)
  }

  /** Attempt_, Connected_ and SetServices_. */
  function Annotate(m: Man, a: Service, n: Note): Man {
    match Find(m, a.ip)
    case None => m
    case Some(id) =>
      if m.mapInfo[id].service != a then m
      else WithInfo(m, id, Noted(m.mapInfo[id], n, m.lastGood))
  }

  function GetAddrLimit(m: Man): int {
    var n := GETADDR_MAX_PCT * |m.vRandom| / 100;
    if n > GETADDR_MAX then GETADDR_MAX else n
  }

  function AddressOf(i: Info): Address { Address(i.service, i.services, i.time) }

  /** RandomInt(size - n) + n, from the number the random source returns. */
  function Pick(n: nat, size: nat, r: nat): (p: nat)
    requires n < size
    ensures n <= p < size
  {
    n + r % (size - n)
  }

  /** GetAddr_ from position n on, with `found` collected so far; `rnd(k)` is the
      number the random source returns at step k before reduction. */
  function GetAddrFrom(m: Man, n: nat, rnd: nat -> nat, now: int, found: seq<Address>): (r: (Man, seq<Address>))
    requires Index(m) && n <= |m.vRandom|
    decreases |m.vRandom| - n
  {
    if n == |m.vRandom| || |found| >= GetAddrLimit(m) then (m, found) else
    var p := Pick(n, |m.vRandom|, rnd(n));
    var s := SwapRandom(m, n, p);
    SwapRandomIndex(m, n, p);
    assert PosOk(s, n);
    var i := s.mapInfo[s.vRandom[n]];
    GetAddrFrom(s, n + 1, rnd, now, if IsTerrible(i, now) then found else found + [AddressOf(i)])
  }
}
