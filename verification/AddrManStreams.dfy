/** What reading peers.dat gives for any stream at all, not only for one that was written: a
    manager that passes Check_, if the records themselves can pass it. */
module AddrManStreams {
  import opened Basics
  import opened AddrManState
  import opened AddrManProofs
  import opened AddrManSerial

  /** New entries that no slot refers to yet. */
  function Unplaced(l: Man): set<int> {
    set k | k in l.mapInfo && !l.mapInfo[k].inTried && l.mapInfo[k].refCount == 0
  }

  /** While reading: ids below nNew are the new entries, those from there to idCount the tried
      ones, and `left` records of tried entries are still to come. */
  predicate Reading(hs: Hashes, l: Man, left: int) {
    && Tables(hs, l, Unplaced(l))
    && l.nNew == |NewIds(l)| && l.nTried == |TriedIds(l)| + left
    && forall k :: k in l.mapInfo ==> 0 <= k < l.idCount && (l.mapInfo[k].inTried <==> k >= l.nNew)
  }

  /** A record that can become an entry Check_ accepts. */
  predicate Sane(r: Record, tried: bool) { r.lastSuccess >= 0 && (tried ==> r.lastSuccess != 0) }

  // ------------------------------------------------------------- the records

  lemma {:induction false} NewsEntered(l: Man, rs: seq<Record>, n: nat)
    requires n <= |rs| && l.mapInfo == map[] && l.vRandom == []
    ensures
      var r := EnterNews(l, rs, n);
      && r == l.(mapInfo := r.mapInfo, mapAddr := r.mapAddr, vRandom := r.vRandom) && |r.vRandom| == n
      && (forall k :: k in r.mapInfo <==> 0 <= k < n)
      && forall k :: 0 <= k < n ==> r.mapInfo[k] == InfoFrom(rs[k], false, k)
  {
    if n > 0 { NewsEntered(l, rs, n - 1); }
  }

  predicate Idle(i: Info) { !i.inTried && i.refCount == 0 && i.lastTry >= 0 && i.lastSuccess >= 0 }

  /** Entries that are all new and in no slot. */
  lemma NonePlaced(hs: Hashes, r: Man)
    requires r.vvNew == map[] && r.vvTried == map[]
    requires forall k :: k in r.mapInfo ==> Idle(r.mapInfo[k])
    ensures Tables(hs, r, Unplaced(r)) && TriedIds(r) == {} && NewIds(r) == r.mapInfo.Keys
  {
    hide TriedSlot, GetBucketPosition;
    forall k | k in r.mapInfo ensures EntryOk(hs, r, k, Unplaced(r)) { assert Held(r, k) == {}; }
    forall k | k in r.mapInfo ensures k in NewIds(r) && k !in TriedIds(r) { assert Idle(r.mapInfo[k]); }
    assert TriedIds(r) == {};
  }

  lemma NewsRead(hs: Hashes, l: Man, rs: seq<Record>, left: int)
    requires l == Fresh(l.key).(nNew := |rs|, nTried := left) && forall k :: 0 <= k < |rs| ==> Sane(rs[k], false)
    ensures Reading(hs, EnterNews(l, rs, |rs|).(idCount := |rs|), left)
  {
    hide Tables, EnterNews;
    NewsEntered(l, rs, |rs|);
    var r := EnterNews(l, rs, |rs|).(idCount := |rs|);
    forall k | k in r.mapInfo ensures Idle(r.mapInfo[k]) { assert Sane(rs[k], false); }
    NonePlaced(hs, r);
    IntervalSize(0, |rs|, NewIds(r));
  }

  lemma TriedEntered(hs: Hashes, l: Man, rec: Record)
    requires Tables(hs, l, Unplaced(l)) && l.idCount !in l.mapInfo && Sane(rec, true)
    requires TriedSlot(hs, l.key, rec.service) !in l.vvTried
    ensures Tables(hs, EnterTried(hs, l, rec), Unplaced(l))
  {
    hide TriedSlot, GetBucketPosition, Unplaced;
    var r, s, id := EnterTried(hs, l, rec), TriedSlot(hs, l.key, rec.service), l.idCount;
    assert forall k :: Held(r, k) == Held(l, k);
    assert Held(l, id) == {} by { assert forall t :: t in l.vvNew ==> NewSlotOk(hs, l, t); }
    forall k | k in r.mapInfo ensures EntryOk(hs, r, k, Unplaced(l)) {
      if k != id { assert EntryOk(hs, l, k, Unplaced(l)); }
    }
    forall t | t in r.vvNew ensures NewSlotOk(hs, r, t) { assert NewSlotOk(hs, l, t); }
    forall t | t in r.vvTried ensures TriedSlotOk(hs, r, t) { if t != s { assert TriedSlotOk(hs, l, t); } }
  }

  lemma TriedRead(hs: Hashes, l: Man, rec: Record, left: int)
    requires Reading(hs, l, left) && Sane(rec, true) && l.nNew <= l.idCount
    ensures
      var r := EnterTried(hs, l, rec);
      Reading(hs, r, left - 1) && r.key == l.key && r.nNew == l.nNew && r.nNew <= r.idCount
  {
    hide Tables, TriedSlot;
    var r, id := EnterTried(hs, l, rec), l.idCount;
    if TriedSlot(hs, l.key, rec.service) in l.vvTried {
      SameTables(hs, l, r);
    } else {
      assert id !in l.mapInfo;
      TriedEntered(hs, l, rec);
      assert TriedIds(r) == TriedIds(l) + {id} && NewIds(r) == NewIds(l) && Unplaced(r) == Unplaced(l);
    }
  }

  /** The tables do not look at the counters. */
  lemma SameTables(hs: Hashes, l: Man, r: Man)
    requires Tables(hs, l, Unplaced(l)) && r == l.(nTried := r.nTried)
    ensures Tables(hs, r, Unplaced(r)) && NewIds(r) == NewIds(l) && TriedIds(r) == TriedIds(l)
  {
    hide TriedSlot, GetBucketPosition;
    assert forall k :: Held(r, k) == Held(l, k);
    forall k | k in r.mapInfo ensures EntryOk(hs, r, k, Unplaced(r)) { assert EntryOk(hs, l, k, Unplaced(l)); }
    forall t | t in r.vvNew ensures NewSlotOk(hs, r, t) { assert NewSlotOk(hs, l, t); }
    forall t | t in r.vvTried ensures TriedSlotOk(hs, r, t) { assert TriedSlotOk(hs, l, t); }
  }

  lemma {:induction false} TriedsRead(hs: Hashes, l: Man, rs: seq<Record>, n: nat)
    requires n <= |rs| && Reading(hs, l, |rs|) && l.nNew <= l.idCount
    requires forall k :: 0 <= k < |rs| ==> Sane(rs[k], true)
    ensures
      var r := EnterTrieds(hs, l, rs, n);
      Reading(hs, r, |rs| - n) && r.key == l.key && r.nNew == l.nNew && r.nNew <= r.idCount
  {
    hide Reading, EnterTried;
    if n > 0 {
      TriedsRead(hs, l, rs, n - 1);
      TriedRead(hs, EnterTrieds(hs, l, rs, n - 1), rs[n - 1], |rs| - n + 1);
    }
  }

  // ------------------------------------------------------------- the buckets

  /** Whatever index a bucket lists. */
  lemma IndexRead(hs: Hashes, l: Man, b: int, x: int)
    requires Reading(hs, l, 0) && 0 <= b < NEW_BUCKET_COUNT
    ensures Reading(hs, EnterIndex(hs, l, b, x), 0) && EnterIndex(hs, l, b, x).key == l.key
  {
    hide Tables, TriedSlot, GetBucketPosition;
    var r := EnterIndex(hs, l, b, x);
    if r != l {
      var s := (b, GetBucketPosition(hs, l.key, true, b, l.mapInfo[x].service));
      CountedUp(hs, l, x);
      LinkKeeps(hs, l, x, s, Unplaced(l), 0);
      assert Unplaced(r) == Unplaced(l) - {x};
    }
  }

  lemma CountedUp(hs: Hashes, l: Man, x: int)
    requires Tables(hs, l, Unplaced(l)) && x in l.mapInfo
    ensures l.mapInfo[x].refCount >= 0
  {
    assert EntryOk(hs, l, x, Unplaced(l));
  }

  lemma {:induction false} IndicesRead(hs: Hashes, l: Man, b: int, xs: seq<int>, n: nat)
    requires Reading(hs, l, 0) && 0 <= b < NEW_BUCKET_COUNT && n <= |xs|
    ensures Reading(hs, EnterIndices(hs, l, b, xs, n), 0) && EnterIndices(hs, l, b, xs, n).key == l.key
  {
    hide Reading, EnterIndex;
    if n > 0 {
      IndicesRead(hs, l, b, xs, n - 1);
      IndexRead(hs, EnterIndices(hs, l, b, xs, n - 1), b, xs[n - 1]);
    }
  }

  lemma {:induction false} AllBucketsRead(hs: Hashes, l: Man, ts: seq<Token>, pos: nat, b: nat)
    requires Reading(hs, l, 0)
    ensures
      var r := EnterBuckets(hs, l, ts, pos, b);
      r.Some? ==> Reading(hs, r.value, 0) && r.value.key == l.key
    decreases NEW_BUCKET_COUNT - b
  {
    hide Reading, EnterIndices;
    if b < NEW_BUCKET_COUNT && pos < |ts| && ts[pos].TInt? {
      match ReadInts(ts, pos + 1, ts[pos].n)
      case None =>
      case Some(xs) =>
        IndicesRead(hs, l, b, xs, |xs|);
        AllBucketsRead(hs, EnterIndices(hs, l, b, xs, |xs|), ts, pos + 1 + |xs|, b + 1);
    }
  }

  // ------------------------------------------------------------- pruning

  lemma DeleteUnplaced(l: Man, n: int)
    requires Index(l) && n in l.mapInfo
    ensures Unplaced(Delete(l, n)) == Unplaced(l) - {n}
  {
    hide Index;
    MoveLastIndex(l, n);
    var s := MoveLast(l, n);
    assert forall k :: k in l.mapInfo ==> SameRecord(l, s, k);
  }

  /** Dropping the entries without a place leaves none. */
  lemma {:induction false} Pruned(hs: Hashes, l: Man, n: nat)
    requires Index(l) && Tables(hs, l, Unplaced(l)) && Counts(l, 0)
    requires forall k :: k in Unplaced(l) ==> k >= n
    ensures
      var r := Prune(l, n);
      Index(r) && Tables(hs, r, {}) && Counts(r, 0) && r.key == l.key
    decreases l.idCount - n
  {
    hide Index, Tables, Counts, Delete;
    if n >= l.idCount {
      assert Unplaced(l) == {} by { forall k | k in Unplaced(l) ensures false { KnownBelow(l, k); } }
    } else if n in l.mapInfo && !l.mapInfo[n].inTried && l.mapInfo[n].refCount == 0 {
      DeleteIndex(l, n);
      DeleteKeeps(hs, l, n, Unplaced(l), 0);
      DeleteUnplaced(l, n);
      Pruned(hs, Delete(l, n), n + 1);
    } else {
      Pruned(hs, l, n + 1);
    }
  }

  lemma KnownBelow(l: Man, k: int)
    requires Index(l) && k in l.mapInfo
    ensures k < l.idCount
  {
    assert IdOk(l, k);
  }

  // ------------------------------------------------------------- any stream

  predicate RecordsSane(ts: seq<Token>, from: int, to: int, tried: bool) {
    forall k :: 0 <= k < |ts| && from <= k < to && ts[k].TRec? ==> Sane(ts[k].rec, tried)
  }

  /** Whatever the buckets of a stream say, what is read from it is consistent, so that Check_
      passes: collisions lose entries and every counter allows for that. The header must have a
      key and no negative count, and the records must be such as Check_ accepts. */
  lemma AnyStreamConsistent(hs: Hashes, ts: seq<Token>)
    requires |ts| >= 6 && forall k :: 0 <= k < 6 ==> ts[k].TInt?
    requires ts[2].n != 0 && ts[3].n >= 0 && ts[4].n >= 0
    requires RecordsSane(ts, 6, 6 + ts[3].n, false)
    requires RecordsSane(ts, 6 + ts[3].n, 6 + ts[3].n + ts[4].n, true)
    ensures Unserialize(hs, ts).Some? ==> Consistent(hs, Unserialize(hs, ts).value)
    ensures Unserialize(hs, ts).Some? ==> ts[0].n == 1 && ts[1].n == 32 && ts[5].n == 0x4000_0400
  {
    hide Reading, EnterNews, EnterTrieds, EnterBuckets, Index, Tables, Prune;
    if Unserialize(hs, ts).Some? {
      var nNew, nTried := ts[3].n, ts[4].n;
      var news := ReadRecords(ts, 6, nNew).value;
      var trieds := ReadRecords(ts, 6 + nNew, nTried).value;
      var l0 := Fresh(ts[2].n).(nNew := nNew, nTried := nTried);
      NewsRead(hs, l0, news, nTried);
      NewsEntered(l0, news, nNew);
      var l1 := EnterNews(l0, news, nNew).(idCount := nNew);
      TriedsRead(hs, l1, trieds, nTried);
      var l2 := EnterTrieds(hs, l1, trieds, nTried);
      AllBucketsRead(hs, l2, ts, 6 + nNew + nTried, 0);
      var l3 := EnterBuckets(hs, l2, ts, 6 + nNew + nTried, 0).value;
      ReadingEnds(hs, l3);
      Pruned(hs, l3, 0);
    }
  }

  lemma ReadingEnds(hs: Hashes, l: Man)
    requires Reading(hs, l, 0)
    ensures Tables(hs, l, Unplaced(l)) && Counts(l, 0) && forall k :: k in Unplaced(l) ==> k >= 0
  {
  }
}
