/** The peers.dat form of the address manager: writing a consistent manager and reading it
    back into a fresh one gives the same manager with its entries renamed. */
module AddrManSerial {
  import opened Basics
  import opened AddrManState
  import opened AddrManProofs

  /** What an entry's record keeps on disk. */
  datatype Record = Record(service: Service, services: Services, time: int, source: NetAddr,
                           lastSuccess: int, attempts: int)

  datatype Token = TInt(n: int) | TRec(rec: Record)

  function RecordOf(i: Info): Record {
    Record(i.service, i.services, i.time, i.source, i.lastSuccess, i.attempts)
  }

  function InfoFrom(r: Record, inTried: bool, pos: int): Info {
    Info(r.service, r.services, r.time, r.source, 0, 0, r.lastSuccess, r.attempts, 0, inTried, pos)
  }

  /** x ^ (1 << 30), which marks the bucket count. */
  function Flip30(x: int): int {
    if x / 0x4000_0000 % 2 == 0 then x + 0x4000_0000 else x - 0x4000_0000
  }

  // ---------------------------------------------------------------- writing

  /** The ids below n with references, in the order of mapInfo. */
  function NewList(m: Man, n: int): seq<int> {
    if n <= 0 then [] else
    NewList(m, n - 1) + if n - 1 in m.mapInfo && m.mapInfo[n - 1].refCount != 0 then [n - 1] else []
  }

  /** The ids below n in the tried table, in the order of mapInfo. */
  function TriedList(m: Man, n: int): seq<int> {
    if n <= 0 then [] else
    TriedList(m, n - 1) + if n - 1 in m.mapInfo && m.mapInfo[n - 1].inTried then [n - 1] else []
  }

  function Records(m: Man, ids: seq<int>): seq<Token>
    requires forall k :: 0 <= k < |ids| ==> ids[k] in m.mapInfo
  {
    seq(|ids|, k requires 0 <= k < |ids| => TRec(RecordOf(m.mapInfo[ids[k]])))
  }

  /** The indices written for the first n positions of a bucket. */
  function BucketIndices(m: Man, b: int, n: int): seq<int> {
    if n <= 0 then [] else
    BucketIndices(m, b, n - 1) + if (b, n - 1) in m.vvNew then [|NewList(m, m.vvNew[(b, n - 1)])|] else []
  }

  function Ints(xs: seq<int>): seq<Token> {
    seq(|xs|, k requires 0 <= k < |xs| => TInt(xs[k]))
  }

  function Bucket(m: Man, b: int): seq<Token> {
    var xs := BucketIndices(m, b, BUCKET_SIZE);
    [TInt(|xs|)] + Ints(xs)
  }

  function Buckets(m: Man, from: int): seq<Token>
    decreases NEW_BUCKET_COUNT - from
  {
    if from >= NEW_BUCKET_COUNT then [] else Bucket(m, from) + Buckets(m, from + 1)
  }

  lemma {:induction false} ListsKnown(m: Man, n: int)
    ensures forall k :: 0 <= k < |NewList(m, n)| ==> NewList(m, n)[k] in m.mapInfo
    ensures forall k :: 0 <= k < |TriedList(m, n)| ==> TriedList(m, n)[k] in m.mapInfo
  {
    if n > 0 { ListsKnown(m, n - 1); }
  }

  function Serialize(m: Man): seq<Token> {
    ListsKnown(m, m.idCount);
    Header(m)
    + Records(m, NewList(m, m.idCount)) + Records(m, TriedList(m, m.idCount)) + Buckets(m, 0)
  }

  // ---------------------------------------------------------------- reading

  /** Read one entry of the new table. */
  function EnterNew(l: Man, r: Record): Man {
    var n := |l.vRandom|;
    l.(mapInfo := l.mapInfo[n := InfoFrom(r, false, n)],
       mapAddr := l.mapAddr[r.service.ip := n],
       vRandom := l.vRandom + [n])
  }

  /** Read one entry of the tried table; it is lost if its slot is taken. */
  function EnterTried(hs: Hashes, l: Man, r: Record): Man {
    var s := TriedSlot(hs, l.key, r.service);
    if s in l.vvTried then l.(nTried := l.nTried - 1) else
    l.(mapInfo := l.mapInfo[l.idCount := InfoFrom(r, true, |l.vRandom|)],
       mapAddr := l.mapAddr[r.service.ip := l.idCount],
       vRandom := l.vRandom + [l.idCount],
       vvTried := l.vvTried[s := l.idCount],
       idCount := l.idCount + 1)
  }

  /** Read the first n records of a list into the new table. */
  function EnterNews(l: Man, rs: seq<Record>, n: nat): Man
    requires n <= |rs|
  {
    if n == 0 then l else EnterNew(EnterNews(l, rs, n - 1), rs[n - 1])
  }

  function EnterTrieds(hs: Hashes, l: Man, rs: seq<Record>, n: nat): Man
    requires n <= |rs|
  {
    if n == 0 then l else EnterTried(hs, EnterTrieds(hs, l, rs, n - 1), rs[n - 1])
  }

  /** Read one index of a bucket. */
  function EnterIndex(hs: Hashes, l: Man, b: int, x: int): Man {
    if 0 <= x < l.nNew && x in l.mapInfo then
      var s := (b, GetBucketPosition(hs, l.key, true, b, l.mapInfo[x].service));
      if s !in l.vvNew && l.mapInfo[x].refCount < NEW_BUCKETS_PER_ADDRESS then Link(l, x, s) else l
    else l
  }

  function EnterIndices(hs: Hashes, l: Man, b: int, xs: seq<int>, n: nat): Man
    requires n <= |xs|
  {
    if n == 0 then l else EnterIndex(hs, EnterIndices(hs, l, b, xs, n - 1), b, xs[n - 1])
  }

  /** Drop the entries from n on that no slot refers to. */
  function Prune(l: Man, n: nat): Man
    requires Index(l)
    decreases l.idCount - n
  {
    if n >= l.idCount then l else
    if n in l.mapInfo && !l.mapInfo[n].inTried && l.mapInfo[n].refCount == 0
    then DeleteIndex(l, n); Prune(Delete(l, n), n + 1)
    else Prune(l, n + 1)
  }

  function ReadRecords(ts: seq<Token>, pos: nat, n: int): Option<seq<Record>> {
    if n <= 0 then Some([]) else
    if pos + n <= |ts| && (forall k :: pos <= k < pos + n ==> ts[k].TRec?)
    then Some(seq(n, k requires 0 <= k < n => ts[pos + k].rec)) else None
  }

  function ReadInts(ts: seq<Token>, pos: nat, n: int): Option<seq<int>> {
    if n <= 0 then Some([]) else
    if pos + n <= |ts| && (forall k :: pos <= k < pos + n ==> ts[k].TInt?)
    then Some(seq(n, k requires 0 <= k < n => ts[pos + k].n)) else None
  }

  /** Read the buckets from b on. */
  function EnterBuckets(hs: Hashes, l: Man, ts: seq<Token>, pos: nat, b: nat): Option<Man>
    decreases NEW_BUCKET_COUNT - b
  {
    if b >= NEW_BUCKET_COUNT then Some(l) else
    if pos >= |ts| || !ts[pos].TInt? then None else
    var size := ts[pos].n;
    match ReadInts(ts, pos + 1, size)
    case None => None
    case Some(xs) => EnterBuckets(hs, EnterIndices(hs, l, b, xs, |xs|), ts, pos + 1 + |xs|, b + 1)
  }

  /** Unserialize, into a manager just constructed. Nothing is returned for a stream that
      ends early or fails a check of the header, nor for the forms this model leaves out:
      other versions, other bucket counts, and entries that share an address. */
  function Unserialize(hs: Hashes, ts: seq<Token>): Option<Man> {
    if |ts| < 6 || !(forall k :: 0 <= k < 6 ==> ts[k].TInt?) then None else
    var nNew, nTried := ts[3].n, ts[4].n;
    if ts[1].n != 32 then None else
    if ts[0].n != 1 || Flip30(ts[5].n) != NEW_BUCKET_COUNT then None else
    if nNew > NEW_BUCKET_COUNT * BUCKET_SIZE || nTried > TRIED_BUCKET_COUNT * BUCKET_SIZE then None else
    match ReadRecords(ts, 6, nNew)
    case None => None
    case Some(news) =>
    match ReadRecords(ts, 6 + |news|, nTried)
    case None => None
    case Some(trieds) =>
    var l1 := EnterNews(Fresh(ts[2].n).(nNew := nNew, nTried := nTried), news, |news|).(idCount := nNew);
    var l2 := EnterTrieds(hs, l1, trieds, |trieds|);
    match EnterBuckets(hs, l2, ts, 6 + |news| + |trieds|, 0)
    case None => None
    case Some(l3) => if Index(l3) then Some(Prune(l3, 0)) else None
  }

  // ---------------------------------------------------------------- the order on disk

  /** All ids in the order their records are written. */
  function Order(m: Man): seq<int> {
    NewList(m, m.idCount) + TriedList(m, m.idCount)
  }

  /** The lists are increasing, so they repeat nothing, and hold exactly the ids below n
      on their side. */
  lemma {:induction false} ListsComplete(m: Man, n: int)
    ensures forall k :: 0 <= k < |NewList(m, n)| ==>
      0 <= NewList(m, n)[k] < n && NewList(m, n)[k] in m.mapInfo && m.mapInfo[NewList(m, n)[k]].refCount != 0
    ensures forall k :: 0 <= k < |TriedList(m, n)| ==>
      0 <= TriedList(m, n)[k] < n && TriedList(m, n)[k] in m.mapInfo && m.mapInfo[TriedList(m, n)[k]].inTried
    ensures forall j, k :: 0 <= j < k < |NewList(m, n)| ==> NewList(m, n)[j] < NewList(m, n)[k]
    ensures forall j, k :: 0 <= j < k < |TriedList(m, n)| ==> TriedList(m, n)[j] < TriedList(m, n)[k]
  {
    if n > 0 { ListsComplete(m, n - 1); }
  }

  /** An entry's index in a list is the number of entries listed before it. */
  lemma {:induction false} ListIndex(m: Man, id: int, n: int)
    requires 0 <= id < n && id in m.mapInfo
    ensures m.mapInfo[id].refCount != 0 ==> |NewList(m, id)| < |NewList(m, n)| && NewList(m, n)[|NewList(m, id)|] == id
    ensures m.mapInfo[id].inTried ==>
      |TriedList(m, id)| < |TriedList(m, n)| && TriedList(m, n)[|TriedList(m, id)|] == id
  {
    if id < n - 1 { ListIndex(m, id, n - 1); }
  }

  function IdsBelow(s: set<int>, n: int): set<int> {
    set id | id in s && id < n
  }

  lemma IdsBelowStep(s: set<int>, n: int)
    ensures |IdsBelow(s, n)| == |IdsBelow(s, n - 1)| + if n - 1 in s then 1 else 0
  {
    if n - 1 in s {
      assert IdsBelow(s, n) == IdsBelow(s, n - 1) + {n - 1};
    } else {
      assert IdsBelow(s, n) == IdsBelow(s, n - 1);
    }
  }

  /** An entry has references exactly when it is not tried. */
  predicate Sided(m: Man) {
    forall id :: id in m.mapInfo ==> 0 <= id < m.idCount && (m.mapInfo[id].refCount != 0 <==> !m.mapInfo[id].inTried)
  }

  lemma ConsistentIsSided(hs: Hashes, m: Man)
    requires Index(m) && Tables(hs, m, {})
    ensures Sided(m)
  {
    forall id | id in m.mapInfo
      ensures 0 <= id < m.idCount && (m.mapInfo[id].refCount != 0 <==> !m.mapInfo[id].inTried)
    {
      assert IdOk(m, id) && EntryOk(hs, m, id, {});
    }
  }

  lemma {:induction false} ListCounts(m: Man, n: nat)
    requires Sided(m)
    ensures |NewList(m, n)| == |IdsBelow(NewIds(m), n)| && |TriedList(m, n)| == |IdsBelow(TriedIds(m), n)|
  {
    if n == 0 {
      assert IdsBelow(NewIds(m), 0) == {} && IdsBelow(TriedIds(m), 0) == {};
    } else {
      ListCounts(m, n - 1);
      IdsBelowStep(NewIds(m), n);
      IdsBelowStep(TriedIds(m), n);
    }
  }

  lemma ListLengths(hs: Hashes, m: Man)
    requires Consistent(hs, m)
    ensures |NewList(m, m.idCount)| == m.nNew && |TriedList(m, m.idCount)| == m.nTried
  {
    hide Tables;
    ConsistentIsSided(hs, m);
    ListCounts(m, m.idCount);
    assert IdsBelow(NewIds(m), m.idCount) == NewIds(m);
    assert IdsBelow(TriedIds(m), m.idCount) == TriedIds(m);
  }

  // ---------------------------------------------------------------- reading the records

  predicate CopiedEntry(m: Man, order: seq<int>, l: Man, i: int)
    requires 0 <= i < |order|
  {
    && order[i] in m.mapInfo && i in l.mapInfo && i < |l.vRandom| && l.vRandom[i] == i
    && l.mapInfo[i] == InfoFrom(RecordOf(m.mapInfo[order[i]]), m.mapInfo[order[i]].inTried, i)
    && l.mapInfo[i].service.ip in l.mapAddr && l.mapAddr[l.mapInfo[i].service.ip] == i
  }

  /** The records of these ids have been read, in this order. */
  predicate Copied(m: Man, order: seq<int>, l: Man) {
    && |l.vRandom| == |order|
    && (forall i :: 0 <= i < |order| ==> CopiedEntry(m, order, l, i))
    && (forall k :: k in l.mapInfo ==> 0 <= k < |order|)
    && (forall a :: a in l.mapAddr ==> l.mapAddr[a] in l.mapInfo && l.mapInfo[l.mapAddr[a]].service.ip == a)
  }

  lemma DistinctAddresses(m: Man, order: seq<int>, l: Man, id: int)
    requires Index(m) && Copied(m, order, l) && id in m.mapInfo && id !in order
    ensures m.mapInfo[id].service.ip !in l.mapAddr
  {
    forall a | a in l.mapAddr ensures a != m.mapInfo[id].service.ip {
      var i := l.mapAddr[a];
      assert CopiedEntry(m, order, l, i) && IdOk(m, id) && IdOk(m, order[i]);
    }
  }

  lemma CopiedNew(m: Man, order: seq<int>, l: Man, id: int)
    requires Index(m) && Copied(m, order, l) && id in m.mapInfo && id !in order && !m.mapInfo[id].inTried
    ensures Copied(m, order + [id], EnterNew(l, RecordOf(m.mapInfo[id])))
  {
    hide Index;
    var r := EnterNew(l, RecordOf(m.mapInfo[id]));
    DistinctAddresses(m, order, l, id);
    forall i | 0 <= i < |order + [id]| ensures CopiedEntry(m, order + [id], r, i) {
      if i < |order| { assert CopiedEntry(m, order, l, i); }
    }
    forall k | k in r.mapInfo ensures 0 <= k < |order + [id]| { assert k == |order| || k in l.mapInfo; }
  }

  /** The tried slots read so far are those of the tried entries read so far. */
  predicate TriedCopied(hs: Hashes, m: Man, order: seq<int>, l: Man) {
    && l.key == m.key
    && (forall s :: s in l.vvTried ==>
         s in m.vvTried && 0 <= l.vvTried[s] < |order| && order[l.vvTried[s]] == m.vvTried[s])
    && (forall i :: 0 <= i < |order| && order[i] in m.mapInfo && m.mapInfo[order[i]].inTried ==>
          TriedSlot(hs, m.key, m.mapInfo[order[i]].service) in l.vvTried)
  }

  lemma CopiedTried(hs: Hashes, m: Man, order: seq<int>, l: Man, id: int)
    requires Index(m) && Tables(hs, m, {}) && Copied(m, order, l) && TriedCopied(hs, m, order, l)
    requires id in m.mapInfo && id !in order && m.mapInfo[id].inTried && l.idCount == |order|
    ensures var r := EnterTried(hs, l, RecordOf(m.mapInfo[id]));
      && Copied(m, order + [id], r) && TriedCopied(hs, m, order + [id], r)
      && r.idCount == |order| + 1 && r.nTried == l.nTried
  {
    hide Index, GetTriedBucket, GetBucketPosition;
    var r := EnterTried(hs, l, RecordOf(m.mapInfo[id]));
    var s := TriedSlot(hs, m.key, m.mapInfo[id].service);
    assert EntryOk(hs, m, id, {});
    forall t | t in l.vvTried ensures t != s { assert order[l.vvTried[t]] == m.vvTried[t] != id || t == s; }
    DistinctAddresses(m, order, l, id);
    forall i | 0 <= i < |order + [id]| ensures CopiedEntry(m, order + [id], r, i) {
      if i < |order| { assert CopiedEntry(m, order, l, i); }
    }
    forall k | k in r.mapInfo ensures 0 <= k < |order + [id]| { assert k == |order| || k in l.mapInfo; }
  }

  function RecordList(m: Man, ids: seq<int>): seq<Record>
    requires forall k :: 0 <= k < |ids| ==> ids[k] in m.mapInfo
  {
    seq(|ids|, k requires 0 <= k < |ids| => RecordOf(m.mapInfo[ids[k]]))
  }

  lemma {:induction false} ReadNews(m: Man, l: Man, ids: seq<int>, n: nat)
    requires Index(m) && Copied(m, [], l) && n <= |ids|
    requires forall k :: 0 <= k < |ids| ==> ids[k] in m.mapInfo && !m.mapInfo[ids[k]].inTried
    requires forall j, k :: 0 <= j < k < |ids| ==> ids[j] < ids[k]
    ensures var r := EnterNews(l, RecordList(m, ids), n);
      && Copied(m, ids[..n], r)
      && r == l.(mapInfo := r.mapInfo, mapAddr := r.mapAddr, vRandom := r.vRandom)
  {
    hide Index, Copied;
    if n == 0 {
      assert ids[..0] == [];
    } else {
      ReadNews(m, l, ids, n - 1);
      CopiedNew(m, ids[..n - 1], EnterNews(l, RecordList(m, ids), n - 1), ids[n - 1]);
      assert ids[..n] == ids[..n - 1] + [ids[n - 1]];
    }
  }

  lemma {:induction false} ReadTrieds(hs: Hashes, m: Man, l: Man, news: seq<int>, ids: seq<int>, n: nat)
    requires Index(m) && Tables(hs, m, {}) && Copied(m, news, l) && TriedCopied(hs, m, news, l)
    requires l.idCount == |news| && n <= |ids|
    requires forall k :: 0 <= k < |ids| ==> ids[k] in m.mapInfo && m.mapInfo[ids[k]].inTried && ids[k] !in news
    requires forall j, k :: 0 <= j < k < |ids| ==> ids[j] < ids[k]
    ensures var r := EnterTrieds(hs, l, RecordList(m, ids), n);
      && Copied(m, news + ids[..n], r) && TriedCopied(hs, m, news + ids[..n], r)
      && r.idCount == |news| + n
      && r == l.(mapInfo := r.mapInfo, mapAddr := r.mapAddr, vRandom := r.vRandom, vvTried := r.vvTried,
           idCount := r.idCount)
  {
    hide Index, Copied, Tables, TriedCopied, TriedSlot;
    if n == 0 {
      assert news + ids[..0] == news;
    } else {
      ReadTrieds(hs, m, l, news, ids, n - 1);
      CopiedTried(hs, m, news + ids[..n - 1], EnterTrieds(hs, l, RecordList(m, ids), n - 1), ids[n - 1]);
      assert news + ids[..n] == news + ids[..n - 1] + [ids[n - 1]];
    }
  }

  // ---------------------------------------------------------------- reading the buckets

  predicate Before(s: Slot, b: int, p: int) {
    s.0 < b || (s.0 == b && s.1 < p)
  }

  function HeldBefore(m: Man, id: int, b: int, p: int): set<Slot> {
    set s | s in m.vvNew && m.vvNew[s] == id && Before(s, b, p)
  }

  /** The slots before (b, p) have been read on top of l. */
  predicate Linked(m: Man, order: seq<int>, l: Man, r: Man, b: int, p: int) {
    && r == l.(mapInfo := r.mapInfo, vvNew := r.vvNew)
    && r.mapInfo.Keys == l.mapInfo.Keys
    && (forall i :: 0 <= i < |order| ==> LinkedEntry(m, order, l, r, i, b, p))
    && (forall s :: s in r.vvNew ==>
         s in m.vvNew && Before(s, b, p) && 0 <= r.vvNew[s] < |order| && order[r.vvNew[s]] == m.vvNew[s])
    && (forall s :: s in m.vvNew && Before(s, b, p) ==> s in r.vvNew)
  }

  predicate LinkedEntry(m: Man, order: seq<int>, l: Man, r: Man, i: int, b: int, p: int)
    requires 0 <= i < |order|
  {
    && i in l.mapInfo && i in r.mapInfo
    && r.mapInfo[i] == l.mapInfo[i].(refCount := |HeldBefore(m, order[i], b, p)|)
  }

  /** The entry in a slot is found in the order under the index written for it. */
  lemma IndexWritten(hs: Hashes, m: Man, s: Slot)
    requires Index(m) && Tables(hs, m, {}) && s in m.vvNew
    ensures var x := |NewList(m, m.vvNew[s])|;
      && 0 <= x < |NewList(m, m.idCount)| && Order(m)[x] == m.vvNew[s]
      && m.vvNew[s] in m.mapInfo && |Held(m, m.vvNew[s])| <= NEW_BUCKETS_PER_ADDRESS
      && s.1 == GetBucketPosition(hs, m.key, true, s.0, m.mapInfo[m.vvNew[s]].service)
  {
    hide GetBucketPosition;
    assert NewSlotOk(hs, m, s);
    var id := m.vvNew[s];
    assert EntryOk(hs, m, id, {}) && IdOk(m, id);
    ListIndex(m, id, m.idCount);
  }

  /** Moving past a slot nothing is in. */
  lemma SkipSlot(m: Man, order: seq<int>, l: Man, r: Man, b: int, p: int, b': int, p': int)
    requires Linked(m, order, l, r, b, p)
    requires forall s :: s in m.vvNew ==> (Before(s, b, p) <==> Before(s, b', p'))
    ensures Linked(m, order, l, r, b', p')
  {
    hide Before;
    forall i | 0 <= i < |order| ensures LinkedEntry(m, order, l, r, i, b', p') {
      assert LinkedEntry(m, order, l, r, i, b, p);
      assert HeldBefore(m, order[i], b, p) == HeldBefore(m, order[i], b', p');
    }
  }

  /** Reading the index written for an occupied slot fills that slot. */
  lemma FillSlot(hs: Hashes, m: Man, l: Man, r: Man, b: int, p: int)
    requires Index(m) && Tables(hs, m, {}) && Copied(m, Order(m), l) && NoRepeats(Order(m))
    requires l.key == m.key && l.nNew == |NewList(m, m.idCount)|
    requires Linked(m, Order(m), l, r, b, p) && (b, p) in m.vvNew
    ensures var x := |NewList(m, m.vvNew[(b, p)])|;
      Linked(m, Order(m), l, EnterIndex(hs, r, b, x), b, p + 1)
  {
    hide Index, Tables, GetBucketPosition, NewList, Order;
    var id := m.vvNew[(b, p)];
    var x := |NewList(m, id)|;
    var order := Order(m);
    IndexWritten(hs, m, (b, p));
    NewPrefix(m);
    assert CopiedEntry(m, order, l, x) && LinkedEntry(m, order, l, r, x, b, p);
    HeldGrows(m, id, b, p);
    assert (b, p) !in r.vvNew;
    var e := EnterIndex(hs, r, b, x);
    assert e == Link(r, x, (b, p));
    var q := p + 1;
    forall i | 0 <= i < |order| ensures LinkedEntry(m, order, l, e, i, b, q) {
      assert LinkedEntry(m, order, l, r, i, b, p);
      HeldGrows(m, order[i], b, p);
      assert i != x ==> order[i] != id;
    }
  }

  predicate NoRepeats(xs: seq<int>) {
    forall j, k :: 0 <= j < k < |xs| ==> xs[j] != xs[k]
  }

  lemma NewPrefix(m: Man)
    ensures |NewList(m, m.idCount)| <= |Order(m)|
  {
  }

  lemma HeldGrows(m: Man, id: int, b: int, p: int)
    ensures (b, p) in m.vvNew && m.vvNew[(b, p)] == id ==>
              |HeldBefore(m, id, b, p + 1)| == |HeldBefore(m, id, b, p)| + 1 <= |Held(m, id)|
    ensures !((b, p) in m.vvNew && m.vvNew[(b, p)] == id) ==> HeldBefore(m, id, b, p + 1) == HeldBefore(m, id, b, p)
  {
    if (b, p) in m.vvNew && m.vvNew[(b, p)] == id {
      assert HeldBefore(m, id, b, p + 1) == HeldBefore(m, id, b, p) + {(b, p)};
      SubsetSize(HeldBefore(m, id, b, p + 1), Held(m, id));
    }
  }

  /** What reading the buckets starts from: all records read, no slot of the new table yet. */
  predicate Ready(hs: Hashes, m: Man, l: Man) {
    && Index(m) && Tables(hs, m, {})
    && Copied(m, Order(m), l) && NoRepeats(Order(m))
    && l.key == m.key && l.nNew == |NewList(m, m.idCount)| && l.vvNew == map[]
  }

  lemma {:induction false} FillBucket(hs: Hashes, m: Man, l: Man, r: Man, b: int, p: nat)
    requires Ready(hs, m, l) && Linked(m, Order(m), l, r, b, 0)
    ensures var xs := BucketIndices(m, b, p);
      Linked(m, Order(m), l, EnterIndices(hs, r, b, xs, |xs|), b, p)
  {
    hide Linked, EnterIndex, Order, NewList, Tables, Index, Copied, NoRepeats;
    if p > 0 {
      var ys := BucketIndices(m, b, p - 1);
      var xs := BucketIndices(m, b, p);
      FillBucket(hs, m, l, r, b, p - 1);
      IndicesPrefix(hs, r, b, ys, xs, |ys|);
      if (b, p - 1) in m.vvNew {
        FillSlot(hs, m, l, EnterIndices(hs, r, b, ys, |ys|), b, p - 1);
      } else {
        SkipSlot(m, Order(m), l, EnterIndices(hs, r, b, ys, |ys|), b, p - 1, b, p);
      }
    }
  }

  lemma {:induction false} IndicesPrefix(hs: Hashes, r: Man, b: int, ys: seq<int>, xs: seq<int>, n: nat)
    requires n <= |ys| <= |xs| && ys == xs[..|ys|]
    ensures EnterIndices(hs, r, b, ys, n) == EnterIndices(hs, r, b, xs, n)
  {
    hide EnterIndex;
    if n > 0 {
      IndicesPrefix(hs, r, b, ys, xs, n - 1);
      assert ys[n - 1] == xs[n - 1];
    }
  }

  lemma NextBucket(hs: Hashes, m: Man, l: Man, r: Man, b: int)
    requires Ready(hs, m, l) && Linked(m, Order(m), l, r, b, BUCKET_SIZE)
    ensures Linked(m, Order(m), l, r, b + 1, 0)
  {
    forall s | s in m.vvNew ensures Before(s, b, BUCKET_SIZE) <==> Before(s, b + 1, 0) {
      assert NewSlotOk(hs, m, s);
    }
    SkipSlot(m, Order(m), l, r, b, BUCKET_SIZE, b + 1, 0);
  }

  /** Reading the buckets that were written fills the new table as it was. */
  lemma {:induction false} FillBuckets(hs: Hashes, m: Man, l: Man, r: Man, ts: seq<Token>, pos: nat, b: nat)
    requires Ready(hs, m, l) && Linked(m, Order(m), l, r, b, 0)
    requires b <= NEW_BUCKET_COUNT && pos <= |ts| && ts[pos..] == Buckets(m, b)
    ensures var e := EnterBuckets(hs, r, ts, pos, b);
      e.Some? && Linked(m, Order(m), l, e.value, NEW_BUCKET_COUNT, 0)
    decreases NEW_BUCKET_COUNT - b
  {
    hide Ready, Linked, Order, EnterIndices, BucketIndices;
    if b < NEW_BUCKET_COUNT {
      var xs := BucketIndices(m, b, BUCKET_SIZE);
      BucketTokens(m, ts, pos, b);
      FillBucket(hs, m, l, r, b, BUCKET_SIZE);
      var f := EnterIndices(hs, r, b, xs, |xs|);
      NextBucket(hs, m, l, f, b);
      FillBuckets(hs, m, l, f, ts, pos + 1 + |xs|, b + 1);
    }
  }

  lemma BucketTokens(m: Man, ts: seq<Token>, pos: nat, b: nat)
    requires b < NEW_BUCKET_COUNT && pos <= |ts| && ts[pos..] == Buckets(m, b)
    ensures var xs := BucketIndices(m, b, BUCKET_SIZE);
      && pos < |ts| && ts[pos] == TInt(|xs|) && ReadInts(ts, pos + 1, |xs|) == Some(xs)
      && pos + 1 + |xs| <= |ts| && ts[pos + 1 + |xs|..] == Buckets(m, b + 1)
  {
    hide BucketIndices;
    var xs := BucketIndices(m, b, BUCKET_SIZE);
    var tail := ts[pos..];
    assert tail == [TInt(|xs|)] + Ints(xs) + Buckets(m, b + 1);
    assert ts[pos] == tail[0];
    assert forall k :: 0 <= k < |xs| ==> ts[pos + 1 + k] == tail[1 + k] == TInt(xs[k]);
    assert forall k :: pos + 1 <= k < pos + 1 + |xs| ==> ts[k] == TInt(xs[k - (pos + 1)]);
    assert ts[pos + 1 + |xs|..] == tail[1 + |xs|..] == Buckets(m, b + 1);
    if |xs| > 0 { assert ReadInts(ts, pos + 1, |xs|).value == xs; }
  }

  // ---------------------------------------------------------------- table sizes

  function Row(a: int, n: nat): set<Slot> {
    set j | 0 <= j < n :: (a, j)
  }

  lemma {:induction false} RowSize(a: int, n: nat)
    ensures |Row(a, n)| == n
  {
    if n > 0 {
      RowSize(a, n - 1);
      assert Row(a, n) == Row(a, n - 1) + {(a, n - 1)};
    }
  }

  /** A set of slots in the first a buckets has at most a * n elements. */
  lemma {:induction false} GridBound(ss: set<Slot>, a: nat, n: nat)
    requires forall s :: s in ss ==> 0 <= s.0 < a && 0 <= s.1 < n
    ensures |ss| <= a * n
  {
    if a > 0 {
      var below := set s | s in ss && s.0 < a - 1;
      GridBound(below, a - 1, n);
      assert ss - below <= Row(a - 1, n);
      RowSize(a - 1, n);
      SubsetSize(ss - below, Row(a - 1, n));
      SubsetSize(below, ss);
      assert ss == below + (ss - below);
      assert |ss| <= (a - 1) * n + n == a * n;
    } else {
      assert ss == {};
    }
  }

  lemma {:induction false} ValuesBound(t: map<Slot, int>, ids: set<int>)
    requires forall id :: id in ids ==> exists s :: s in t && t[s] == id
    ensures |ids| <= |t|
  {
    if forall id :: id !in ids {
      assert ids == {};
    } else {
      var id :| id in ids;
      var s :| s in t && t[s] == id;
      var u := map r | r in t && t[r] != id :: t[r];
      forall k | k in ids - {id} ensures exists r :: r in u && u[r] == k {
        var r :| r in t && t[r] == k;
        assert r in u && u[r] == k;
      }
      ValuesBound(u, ids - {id});
      assert u.Keys <= t.Keys - {s};
      SubsetSize(u.Keys, t.Keys - {s});
      assert |u| == |u.Keys| && |t| == |t.Keys|;
    }
  }

  /** The counters of a consistent manager pass the limits Unserialize checks. */
  lemma CountersFit(hs: Hashes, m: Man)
    requires Consistent(hs, m)
    ensures m.nNew <= NEW_BUCKET_COUNT * BUCKET_SIZE && m.nTried <= TRIED_BUCKET_COUNT * BUCKET_SIZE
  {
    hide Index, GetBucketPosition, GetTriedBucket;
    forall id | id in NewIds(m) ensures exists s :: s in m.vvNew && m.vvNew[s] == id {
      assert EntryOk(hs, m, id, {}) && Held(m, id) != {};
      var s :| s in Held(m, id);
    }
    ValuesBound(m.vvNew, NewIds(m));
    forall s | s in m.vvNew.Keys ensures 0 <= s.0 < NEW_BUCKET_COUNT && 0 <= s.1 < BUCKET_SIZE {
      assert NewSlotOk(hs, m, s);
    }
    GridBound(m.vvNew.Keys, NEW_BUCKET_COUNT, BUCKET_SIZE);
    forall id | id in TriedIds(m) ensures exists s :: s in m.vvTried && m.vvTried[s] == id {
      assert EntryOk(hs, m, id, {});
    }
    ValuesBound(m.vvTried, TriedIds(m));
    forall s | s in m.vvTried.Keys ensures 0 <= s.0 < TRIED_BUCKET_COUNT && 0 <= s.1 < BUCKET_SIZE {
      assert TriedSlotOk(hs, m, s);
    }
    GridBound(m.vvTried.Keys, TRIED_BUCKET_COUNT, BUCKET_SIZE);
    assert |m.vvNew| == |m.vvNew.Keys| && |m.vvTried| == |m.vvTried.Keys|;
  }

  // ---------------------------------------------------------------- the round trip

  /** The same manager with its entries renamed: entry i is the old entry order[i]; what an
      entry keeps in memory only (its last try and last counted attempt) starts afresh. */
  ghost predicate Renamed(m: Man, order: seq<int>, l: Man) {
    && NoRepeats(order) && (forall id :: id in m.mapInfo <==> id in order)
    && l.key == m.key && l.nNew == m.nNew && l.nTried == m.nTried && l.idCount == |order|
    && (forall k :: k in l.mapInfo <==> 0 <= k < |order|)
    && (forall i :: 0 <= i < |order| ==> RenamedEntry(m, order, l, i))
    && l.vvNew.Keys == m.vvNew.Keys && l.vvTried.Keys == m.vvTried.Keys
    && (forall s :: s in m.vvNew ==> 0 <= l.vvNew[s] < |order| && order[l.vvNew[s]] == m.vvNew[s])
    && (forall s :: s in m.vvTried ==> 0 <= l.vvTried[s] < |order| && order[l.vvTried[s]] == m.vvTried[s])
  }

  predicate RenamedEntry(m: Man, order: seq<int>, l: Man, i: int)
    requires 0 <= i < |order|
  {
    && order[i] in m.mapInfo && i in l.mapInfo
    && l.mapInfo[i] == m.mapInfo[order[i]].(lastTry := 0, lastCountAttempt := 0, randomPos := i)
  }

  lemma OrderIsListing(hs: Hashes, m: Man)
    requires Consistent(hs, m)
    ensures NoRepeats(Order(m)) && |Order(m)| == m.nNew + m.nTried
    ensures forall id :: id in m.mapInfo <==> id in Order(m)
    ensures forall k :: 0 <= k < |NewList(m, m.idCount)| ==>
      NewList(m, m.idCount)[k] in m.mapInfo && !m.mapInfo[NewList(m, m.idCount)[k]].inTried
    ensures forall k :: 0 <= k < |TriedList(m, m.idCount)| ==>
      TriedList(m, m.idCount)[k] in m.mapInfo && m.mapInfo[TriedList(m, m.idCount)[k]].inTried
  {
    hide Tables, Index, Counts, NewList, TriedList;
    ConsistentIsSided(hs, m);
    ListLengths(hs, m);
    ListsComplete(m, m.idCount);
    forall id | id in m.mapInfo ensures id in Order(m) {
      ListIndex(m, id, m.idCount);
      if m.mapInfo[id].inTried {
        assert Order(m)[|NewList(m, m.idCount)| + |TriedList(m, id)|] == id;
      } else {
        assert Order(m)[|NewList(m, id)|] == id;
      }
    }
  }

  /** Every tried slot has been filled. */
  lemma TriedKeys(hs: Hashes, m: Man, l: Man)
    requires Consistent(hs, m) && TriedCopied(hs, m, Order(m), l)
    ensures m.vvTried.Keys <= l.vvTried.Keys
  {
    hide Index, Counts, Order, NewList, TriedList, GetBucketPosition, TriedSlot;
    OrderIsListing(hs, m);
    forall s | s in m.vvTried ensures s in l.vvTried {
      assert TriedSlotOk(hs, m, s);
      var i :| 0 <= i < |Order(m)| && Order(m)[i] == m.vvTried[s];
    }
  }

  lemma LinkedOne(hs: Hashes, m: Man, l: Man, r: Man, i: nat)
    requires Consistent(hs, m) && Ready(hs, m, l) && i < |Order(m)|
    requires Linked(m, Order(m), l, r, NEW_BUCKET_COUNT, 0)
    requires forall s :: s in m.vvNew ==> Before(s, NEW_BUCKET_COUNT, 0)
    ensures RenamedEntry(m, Order(m), r, i)
  {
    hide Index, Counts, Order, NewList, TriedList, GetBucketPosition, TriedSlot;
    var order := Order(m);
    OrderIsListing(hs, m);
    assert CopiedEntry(m, order, l, i) && LinkedEntry(m, order, l, r, i, NEW_BUCKET_COUNT, 0);
    assert HeldBefore(m, order[i], NEW_BUCKET_COUNT, 0) == Held(m, order[i]);
    assert EntryOk(hs, m, order[i], {});
  }

  lemma LinkedIsRenamed(hs: Hashes, m: Man, l: Man, r: Man)
    requires Consistent(hs, m) && Ready(hs, m, l) && TriedCopied(hs, m, Order(m), l)
    requires l.nTried == m.nTried && l.idCount == |Order(m)|
    requires Linked(m, Order(m), l, r, NEW_BUCKET_COUNT, 0)
    ensures Renamed(m, Order(m), r)
  {
    hide Index, Counts, Order, NewList, TriedList, GetBucketPosition, TriedSlot;
    var order := Order(m);
    OrderIsListing(hs, m);
    ListLengths(hs, m);
    forall s | s in m.vvNew ensures Before(s, NEW_BUCKET_COUNT, 0) { assert NewSlotOk(hs, m, s); }
    forall i | 0 <= i < |order| ensures RenamedEntry(m, order, r, i) { LinkedOne(hs, m, l, r, i); }
    TriedKeys(hs, m, l);
    assert r.vvNew.Keys == m.vvNew.Keys && r.vvTried.Keys == m.vvTried.Keys;
    forall k | 0 <= k < |order| ensures k in r.mapInfo { assert RenamedEntry(m, order, r, k); }
  }

  lemma {:induction false} IntervalSize(a: int, b: int, s: set<int>)
    requires a <= b && forall k :: k in s <==> a <= k < b
    ensures |s| == b - a
    decreases b - a
  {
    if a == b {
      assert forall k :: k !in s;
      assert s == {};
    } else {
      IntervalSize(a, b - 1, s - {b - 1});
    }
  }

  lemma ReadIndex(hs: Hashes, m: Man, l: Man, r: Man)
    requires Ready(hs, m, l) && l.idCount == |Order(m)|
    requires Linked(m, Order(m), l, r, NEW_BUCKET_COUNT, 0)
    ensures Index(r)
  {
    hide Order, HeldBefore, Before;
    var order := Order(m);
    forall k | 0 <= k < |order| ensures k in l.mapInfo && SamePlace(l, r, k) {
      assert CopiedEntry(m, order, l, k) && LinkedEntry(m, order, l, r, k, NEW_BUCKET_COUNT, 0);
    }
    forall k | k in l.mapInfo ensures IdOk(l, k) { assert CopiedEntry(m, order, l, k); }
    forall a | a in l.mapAddr ensures AddrOk(l, a) {}
    forall p | 0 <= p < |l.vRandom| ensures PosOk(l, p) { assert CopiedEntry(m, order, l, p); }
    IntervalSize(0, |order|, l.mapInfo.Keys);
    assert |l.mapInfo| == |l.mapInfo.Keys|;
    SameIndexKeepsIndex(l, r);
  }

  lemma RenamedTables(hs: Hashes, m: Man, order: seq<int>, r: Man)
    requires Renamed(m, order, r) && Tables(hs, m, {})
    ensures Tables(hs, r, {})
  {
    hide GetBucketPosition, TriedSlot;
    forall i | i in r.mapInfo ensures EntryOk(hs, r, i, {}) {
      assert RenamedEntry(m, order, r, i) && EntryOk(hs, m, order[i], {});
      assert Held(r, i) == Held(m, order[i]);
    }
    forall s | s in r.vvNew ensures NewSlotOk(hs, r, s) {
      assert NewSlotOk(hs, m, s) && RenamedEntry(m, order, r, r.vvNew[s]);
    }
    forall s | s in r.vvTried ensures TriedSlotOk(hs, r, s) {
      assert TriedSlotOk(hs, m, s) && RenamedEntry(m, order, r, r.vvTried[s]);
    }
  }

  lemma RenamedCounts(hs: Hashes, m: Man, r: Man)
    requires Consistent(hs, m) && Renamed(m, Order(m), r)
    ensures Counts(r, 0)
  {
    hide Index, Tables, Counts, NewList, TriedList;
    OrderIsListing(hs, m);
    ListLengths(hs, m);
    var order := Order(m);
    forall i | 0 <= i < |order| ensures i in r.mapInfo && (r.mapInfo[i].inTried <==> i >= m.nNew) {
      assert RenamedEntry(m, order, r, i);
    }
    IntervalSize(0, m.nNew, NewIds(r));
    IntervalSize(m.nNew, m.nNew + m.nTried, TriedIds(r));
    CountsBy(r);
  }

  lemma CountsBy(r: Man)
    requires |NewIds(r)| == r.nNew && |TriedIds(r)| == r.nTried
    ensures Counts(r, 0)
  {
  }

  /** Nothing is pruned from a manager in which every new entry has a reference. */
  lemma {:induction false} NothingPruned(l: Man, n: nat)
    requires Index(l) && forall k :: k in l.mapInfo && !l.mapInfo[k].inTried ==> l.mapInfo[k].refCount != 0
    ensures Prune(l, n) == l
    decreases l.idCount - n
  {
    if n < l.idCount { NothingPruned(l, n + 1); }
  }

  lemma ReadBack(pre: seq<Token>, m: Man, ids: seq<int>, post: seq<Token>)
    requires forall k :: 0 <= k < |ids| ==> ids[k] in m.mapInfo
    ensures ReadRecords(pre + Records(m, ids) + post, |pre|, |ids|) == Some(RecordList(m, ids))
  {
    var ts := pre + Records(m, ids) + post;
    assert forall k :: |pre| <= k < |pre| + |ids| ==> ts[k] == TRec(RecordOf(m.mapInfo[ids[k - |pre|]]));
    if |ids| > 0 { assert ReadRecords(ts, |pre|, |ids|).value == RecordList(m, ids); }
  }

  function Header(m: Man): seq<Token> {
    [TInt(1), TInt(32), TInt(m.key), TInt(m.nNew), TInt(m.nTried), TInt(Flip30(NEW_BUCKET_COUNT))]
  }

  /** The format, number by number: version 1, key length 32, key, counts, and 1024 buckets with
      bit 30 turned over; then a record for each new entry and each tried one, in order of id. */
  lemma StreamIs(m: Man)
    ensures
      var ts, news, trieds := Serialize(m), NewList(m, m.idCount), TriedList(m, m.idCount);
      && |ts| >= 6 + |news| + |trieds|
      && ts[..6] == [TInt(1), TInt(32), TInt(m.key), TInt(m.nNew), TInt(m.nTried), TInt(0x4000_0400)]
      && (forall k :: 0 <= k < |news| ==> news[k] in m.mapInfo && ts[6 + k] == TRec(RecordOf(m.mapInfo[news[k]])))
      && (forall k :: 0 <= k < |trieds| ==>
            trieds[k] in m.mapInfo && ts[6 + |news| + k] == TRec(RecordOf(m.mapInfo[trieds[k]])))
  {
    hide Serialize, Records, NewList, TriedList, Header;
    ListsKnown(m, m.idCount);
    var news, trieds := NewList(m, m.idCount), TriedList(m, m.idCount);
    StreamParts(m);
    RecordsAre(m, news);
    RecordsAre(m, trieds);
  }

  lemma StreamParts(m: Man)
    ensures
      var ts, news, trieds := Serialize(m), NewList(m, m.idCount), TriedList(m, m.idCount);
      && (forall k :: 0 <= k < |news| ==> news[k] in m.mapInfo)
      && (forall k :: 0 <= k < |trieds| ==> trieds[k] in m.mapInfo)
      && ts == Header(m) + Records(m, news) + Records(m, trieds) + Buckets(m, 0)
      && Header(m) == [TInt(1), TInt(32), TInt(m.key), TInt(m.nNew), TInt(m.nTried), TInt(0x4000_0400)]
  {
    hide Buckets, Records, NewList, TriedList;
    ListsKnown(m, m.idCount);
  }

  lemma RecordsAre(m: Man, ids: seq<int>)
    requires forall k :: 0 <= k < |ids| ==> ids[k] in m.mapInfo
    ensures |Records(m, ids)| == |ids|
    ensures forall k :: 0 <= k < |ids| ==> Records(m, ids)[k] == TRec(RecordOf(m.mapInfo[ids[k]]))
  {
  }

  lemma HeaderReads(m: Man, rest: seq<Token>)
    ensures |Header(m)| == 6
    ensures var ts := Header(m) + rest;
      && |ts| >= 6 && (forall k :: 0 <= k < 6 ==> ts[k].TInt?)
      && ts[0].n == 1 && ts[1].n == 32 && ts[2].n == m.key && ts[3].n == m.nNew && ts[4].n == m.nTried
      && Flip30(ts[5].n) == NEW_BUCKET_COUNT
  {
    assert forall k :: 0 <= k < 6 ==> (Header(m) + rest)[k] == Header(m)[k];
  }

  /** The manager after the records of a file are read. */
  function AfterRecords(hs: Hashes, m: Man, news: seq<Record>, trieds: seq<Record>): Man {
    EnterTrieds(hs, EnterNews(Fresh(m.key).(nNew := m.nNew, nTried := m.nTried), news, |news|).(idCount := m.nNew),
                trieds, |trieds|)
  }

  lemma RecordsReady(hs: Hashes, m: Man)
    requires Consistent(hs, m)
    requires forall k :: 0 <= k < |NewList(m, m.idCount)| ==> NewList(m, m.idCount)[k] in m.mapInfo
    requires forall k :: 0 <= k < |TriedList(m, m.idCount)| ==> TriedList(m, m.idCount)[k] in m.mapInfo
    ensures var l := AfterRecords(hs, m, RecordList(m, NewList(m, m.idCount)), RecordList(m, TriedList(m, m.idCount)));
      && Ready(hs, m, l) && TriedCopied(hs, m, Order(m), l)
      && l.nTried == m.nTried && l.idCount == |Order(m)|
  {
    hide Index, Tables, Counts, NewList, TriedList, EnterNews, EnterTrieds;
    var news, trieds := NewList(m, m.idCount), TriedList(m, m.idCount);
    OrderIsListing(hs, m);
    ListLengths(hs, m);
    ListsComplete(m, m.idCount);
    var l0 := Fresh(m.key).(nNew := m.nNew, nTried := m.nTried);
    ReadNews(m, l0, news, |news|);
    assert news[..|news|] == news;
    var e := EnterNews(l0, RecordList(m, news), |news|);
    var l1 := e.(idCount := m.nNew);
    assert Copied(m, news, l1) by {
      forall i | 0 <= i < |news| ensures CopiedEntry(m, news, l1, i) { assert CopiedEntry(m, news, e, i); }
    }
    ReadTrieds(hs, m, l1, news, trieds, |trieds|);
    assert trieds[..|trieds|] == trieds;
  }

  /** The parts of a stream are read back as they were written. */
  lemma PartsRead(head: seq<Token>, m: Man, news: seq<int>, trieds: seq<int>, tail: seq<Token>)
    requires forall k :: 0 <= k < |news| ==> news[k] in m.mapInfo
    requires forall k :: 0 <= k < |trieds| ==> trieds[k] in m.mapInfo
    ensures var ts := head + Records(m, news) + Records(m, trieds) + tail;
      && ReadRecords(ts, |head|, |news|) == Some(RecordList(m, news))
      && ReadRecords(ts, |head| + |news|, |trieds|) == Some(RecordList(m, trieds))
      && |ts| == |head| + |news| + |trieds| + |tail| && ts[|head| + |news| + |trieds|..] == tail
  {
    hide ReadRecords, RecordList;
    var a, b := Records(m, news), Records(m, trieds);
    var ts := head + a + b + tail;
    assert ts == head + a + (b + tail);
    ReadBack(head, m, news, b + tail);
    ReadBack(head + a, m, trieds, tail);
    assert |head + a + b| == |head| + |news| + |trieds|;
  }

  lemma StartReady(hs: Hashes, m: Man, l: Man)
    requires Ready(hs, m, l)
    ensures Linked(m, Order(m), l, l, 0, 0)
  {
    forall s | s in m.vvNew ensures !Before(s, 0, 0) { assert NewSlotOk(hs, m, s); }
    StartLinked(m, Order(m), l);
  }

  lemma BucketsRead(hs: Hashes, m: Man, l: Man, ts: seq<Token>, pos: nat)
    requires Consistent(hs, m)
    requires Ready(hs, m, l) && TriedCopied(hs, m, Order(m), l) && l.nTried == m.nTried && l.idCount == |Order(m)|
    requires pos <= |ts| && ts[pos..] == Buckets(m, 0)
    ensures var e := EnterBuckets(hs, l, ts, pos, 0);
      && e.Some? && Index(e.value) && Prune(e.value, 0) == e.value
      && Renamed(m, Order(m), e.value) && Consistent(hs, e.value)
  {
    hide Index, Tables, Counts, Buckets, EnterBuckets, Renamed, Ready, Linked, TriedCopied, Order;
    StartReady(hs, m, l);
    FillBuckets(hs, m, l, l, ts, pos, 0);
    var r := EnterBuckets(hs, l, ts, pos, 0).value;
    LinkedIsRenamed(hs, m, l, r);
    ReadIndex(hs, m, l, r);
    RenamedTables(hs, m, Order(m), r);
    RenamedCounts(hs, m, r);
    KeyKept(m, Order(m), r);
    ConsistentIsSided(hs, r);
    NothingPruned(r, 0);
  }

  lemma KeyKept(m: Man, order: seq<int>, r: Man)
    requires Renamed(m, order, r)
    ensures r.key == m.key
  {
  }

  lemma StartLinked(m: Man, order: seq<int>, l: Man)
    requires Copied(m, order, l) && l.vvNew == map[]
    requires forall s :: s in m.vvNew ==> !Before(s, 0, 0)
    ensures Linked(m, order, l, l, 0, 0)
  {
    forall i | 0 <= i < |order| ensures LinkedEntry(m, order, l, l, i, 0, 0) {
      assert CopiedEntry(m, order, l, i);
      assert HeldBefore(m, order[i], 0, 0) == {};
    }
  }

  /** Writing a consistent manager and reading the stream into a fresh one succeeds, loses
      no entry, and gives a consistent manager that is the old one with its ids renamed. */
  lemma RoundTrip(hs: Hashes, m: Man)
    requires Consistent(hs, m)
    ensures var r := Unserialize(hs, Serialize(m));
      r.Some? && Renamed(m, Order(m), r.value) && Consistent(hs, r.value)
  {
    hide Consistent, Index, NewList, TriedList, Renamed, Flip30, Buckets, Ready, TriedCopied,
         ReadRecords, RecordList, Records, Header, EnterNews, EnterTrieds, EnterBuckets, Prune, Order;
    ListsKnown(m, m.idCount);
    var news, trieds := NewList(m, m.idCount), TriedList(m, m.idCount);
    var tail := Buckets(m, 0);
    var ts := Serialize(m);
    ListLengths(hs, m);
    CountersFit(hs, m);
    RecordsReady(hs, m);
    assert ts == Header(m) + (Records(m, news) + Records(m, trieds) + tail);
    HeaderReads(m, Records(m, news) + Records(m, trieds) + tail);
    PartsRead(Header(m), m, news, trieds, tail);
    RecordListLength(m, news);
    RecordListLength(m, trieds);
    BucketsRead(hs, m, AfterRecords(hs, m, RecordList(m, news), RecordList(m, trieds)), ts, 6 + |news| + |trieds|);
  }

  lemma RecordListLength(m: Man, ids: seq<int>)
    requires forall k :: 0 <= k < |ids| ==> ids[k] in m.mapInfo
    ensures |RecordList(m, ids)| == |ids|
  {
  }

  // ---------------------------------------------------------------- the loops

  lemma RecordsAppend(m: Man, ids: seq<int>, id: int)
    requires (forall k :: 0 <= k < |ids| ==> ids[k] in m.mapInfo) && id in m.mapInfo
    ensures Records(m, ids + [id]) == Records(m, ids) + [TRec(RecordOf(m.mapInfo[id]))]
  {
  }

  lemma IntsAppend(xs: seq<int>, x: int)
    ensures Ints(xs + [x]) == Ints(xs) + [TInt(x)]
  {
  }

  /** The part of Serialize that writes one bucket: its size, then the index of each entry. */
  method WriteBucket(m: Man, unkIds: map<int, int>, b: int) returns (ts: seq<Token>)
    requires forall p :: 0 <= p < BUCKET_SIZE && (b, p) in m.vvNew ==>
               m.vvNew[(b, p)] in unkIds && unkIds[m.vvNew[(b, p)]] == |NewList(m, m.vvNew[(b, p)])|
    ensures ts == Bucket(m, b)
  {
    var size := 0;
    for i := 0 to BUCKET_SIZE
      invariant size == |BucketIndices(m, b, i)|
    {
      if (b, i) in m.vvNew { size := size + 1; }
    }
    ts := [TInt(size)];
    for i := 0 to BUCKET_SIZE
      invariant ts == [TInt(size)] + Ints(BucketIndices(m, b, i))
    {
      if (b, i) in m.vvNew {
        IntsAppend(BucketIndices(m, b, i), unkIds[m.vvNew[(b, i)]]);
        ts := ts + [TInt(unkIds[m.vvNew[(b, i)]])];
      }
    }
  }

  /** Serialize. The counters it asserts on never reach nNew or nTried early. */
  method Write(hs: Hashes, m: Man) returns (ts: seq<Token>)
    requires Consistent(hs, m)
    ensures ts == Serialize(m)
  {
    hide Index, Tables, Counts, Records;
    ListsKnown(m, m.idCount);
    var news, unkIds := WriteNews(hs, m);
    var trieds := WriteTrieds(hs, m);
    ts := Header(m) + news + trieds;
    ghost var start := ts;
    for b := 0 to NEW_BUCKET_COUNT
      invariant ts + Buckets(m, b) == start + Buckets(m, 0)
    {
      forall p | 0 <= p < BUCKET_SIZE && (b, p) in m.vvNew
        ensures m.vvNew[(b, p)] in unkIds && unkIds[m.vvNew[(b, p)]] == |NewList(m, m.vvNew[(b, p)])|
      {
        IndexWritten(hs, m, (b, p));
        assert m.vvNew[(b, p)] in m.mapInfo;
      }
      var bucket := WriteBucket(m, unkIds, b);
      assert ts + Buckets(m, b) == ts + bucket + Buckets(m, b + 1);
      ts := ts + bucket;
    }
  }

  method WriteNews(hs: Hashes, m: Man) returns (ts: seq<Token>, unkIds: map<int, int>)
    requires Consistent(hs, m)
    ensures (forall k :: 0 <= k < |NewList(m, m.idCount)| ==> NewList(m, m.idCount)[k] in m.mapInfo)
            && ts == Records(m, NewList(m, m.idCount))
    ensures forall id :: id in m.mapInfo ==> id in unkIds && unkIds[id] == |NewList(m, id)|
  {
    hide Consistent, Records, NewList;
    ListLengths(hs, m);
    ConsistentMeans(hs, m);
    ts, unkIds := [], map[];
    var nIds := 0;
    NewListStep(m, 0);
    NoRecords(m);
    for n := 0 to m.idCount
      invariant nIds == |NewList(m, n)|
      invariant (forall k :: 0 <= k < |NewList(m, n)| ==> NewList(m, n)[k] in m.mapInfo)
        && ts == Records(m, NewList(m, n))
      invariant forall id :: id in m.mapInfo && id < n ==> id in unkIds && unkIds[id] == |NewList(m, id)|
    {
      NewListStep(m, n);
      if n in m.mapInfo {
        unkIds := unkIds[n := nIds];
        if m.mapInfo[n].refCount != 0 {
          ListIndex(m, n, m.idCount);
          assert nIds != m.nNew;
          RecordsAppend(m, NewList(m, n), n);
          ts := ts + [TRec(RecordOf(m.mapInfo[n]))];
          nIds := nIds + 1;
        }
      }
    }
  }

  lemma ConsistentMeans(hs: Hashes, m: Man)
    requires Consistent(hs, m)
    ensures Sided(m) && m.idCount >= 0
  {
    ConsistentIsSided(hs, m);
  }

  lemma NewListStep(m: Man, n: nat)
    ensures NewList(m, 0) == []
    ensures NewList(m, n + 1) ==
      if n in m.mapInfo && m.mapInfo[n].refCount != 0 then NewList(m, n) + [n] else NewList(m, n)
  {
  }

  lemma NoRecords(m: Man)
    ensures Records(m, []) == []
  {
  }

  method WriteTrieds(hs: Hashes, m: Man) returns (ts: seq<Token>)
    requires Consistent(hs, m)
    ensures (forall k :: 0 <= k < |TriedList(m, m.idCount)| ==> TriedList(m, m.idCount)[k] in m.mapInfo)
            && ts == Records(m, TriedList(m, m.idCount))
  {
    hide Tables, Counts, Records;
    ListLengths(hs, m);
    ts := [];
    var nIds := 0;
    NoRecords(m);
    for n := 0 to m.idCount
      invariant nIds == |TriedList(m, n)|
      invariant (forall k :: 0 <= k < |TriedList(m, n)| ==> TriedList(m, n)[k] in m.mapInfo)
        && ts == Records(m, TriedList(m, n))
    {
      assert TriedList(m, n + 1) ==
        if n in m.mapInfo && m.mapInfo[n].inTried then TriedList(m, n) + [n] else TriedList(m, n);
      if n in m.mapInfo && m.mapInfo[n].inTried {
        ListIndex(m, n, m.idCount);
        assert nIds != m.nTried;
        RecordsAppend(m, TriedList(m, n), n);
        ts := ts + [TRec(RecordOf(m.mapInfo[n]))];
        nIds := nIds + 1;
      }
    }
  }

  /** What the first n records from a position are. */
  function RecordsAt(ts: seq<Token>, pos: nat, n: nat): seq<Record>
    requires pos + n <= |ts| && forall k :: pos <= k < pos + n ==> ts[k].TRec?
  {
    seq(n, k requires 0 <= k < n => ts[pos + k].rec)
  }

  lemma {:induction false} NewsPrefix(l: Man, ys: seq<Record>, xs: seq<Record>, n: nat)
    requires n <= |ys| <= |xs| && ys == xs[..|ys|]
    ensures EnterNews(l, ys, n) == EnterNews(l, xs, n)
  {
    hide EnterNew;
    if n > 0 { NewsPrefix(l, ys, xs, n - 1); }
  }

  lemma {:induction false} TriedsPrefix(hs: Hashes, l: Man, ys: seq<Record>, xs: seq<Record>, n: nat)
    requires n <= |ys| <= |xs| && ys == xs[..|ys|]
    ensures EnterTrieds(hs, l, ys, n) == EnterTrieds(hs, l, xs, n)
  {
    hide EnterTried;
    if n > 0 { TriedsPrefix(hs, l, ys, xs, n - 1); }
  }

  /** The first loop of Unserialize. */
  method ReadNewEntries(start: Man, ts: seq<Token>, pos: nat, count: int) returns (r: Option<Man>)
    ensures r == match ReadRecords(ts, pos, count)
                 case None => None
                 case Some(rs) => Some(EnterNews(start, rs, |rs|))
  {
    hide EnterNew;
    var l := start;
    var n := 0;
    while n < count
      invariant 0 <= n && (n <= count || n == 0)
      invariant pos + n <= |ts| || n == 0
      invariant forall k :: pos <= k < pos + n ==> ts[k].TRec?
      invariant n > 0 ==> l == EnterNews(start, RecordsAt(ts, pos, n), n)
      invariant n == 0 ==> l == start
    {
      if pos + n >= |ts| || !ts[pos + n].TRec? { return None; }
      ghost var xs := RecordsAt(ts, pos, n + 1);
      if n > 0 { NewsPrefix(start, RecordsAt(ts, pos, n), xs, n); }
      l := EnterNew(l, ts[pos + n].rec);
      n := n + 1;
    }
    if n > 0 { assert RecordsAt(ts, pos, n) == ReadRecords(ts, pos, count).value; }
    r := Some(l);
  }

  /** The second loop of Unserialize. */
  method ReadTriedEntries(hs: Hashes, start: Man, ts: seq<Token>, pos: nat, count: int) returns (r: Option<Man>)
    ensures r == match ReadRecords(ts, pos, count)
                 case None => None
                 case Some(rs) => Some(EnterTrieds(hs, start, rs, |rs|))
  {
    hide EnterTried;
    var l := start;
    var n := 0;
    while n < count
      invariant 0 <= n && (n <= count || n == 0)
      invariant pos + n <= |ts| || n == 0
      invariant forall k :: pos <= k < pos + n ==> ts[k].TRec?
      invariant n > 0 ==> l == EnterTrieds(hs, start, RecordsAt(ts, pos, n), n)
      invariant n == 0 ==> l == start
    {
      if pos + n >= |ts| || !ts[pos + n].TRec? { return None; }
      ghost var xs := RecordsAt(ts, pos, n + 1);
      if n > 0 { TriedsPrefix(hs, start, RecordsAt(ts, pos, n), xs, n); }
      l := EnterTried(hs, l, ts[pos + n].rec);
      n := n + 1;
    }
    if n > 0 { assert RecordsAt(ts, pos, n) == ReadRecords(ts, pos, count).value; }
    r := Some(l);
  }
}
