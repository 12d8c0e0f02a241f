/** CCheckQueue as a state machine. A step is what one thread does while it holds the mutex,
    or the execution of one check outside it. Thread 0 is the master, the others are the
    workers; there may be any number of them, joining at any time. A check is represented
    by the result it gives when executed. Condition variables may wake up spuriously. */
module CheckQueue {

  datatype Thread =
    | Outside
    | Asleep(notified: bool)
    | Busy(rest: seq<bool>, now: nat, ok: bool)

  /** The controller: none, alive (with its fDone flag), or waiting, in the destructor or not. */
  datatype Control = NoControl | Alive(done: bool) | InWait(final: bool)

  datatype State = State(
    queue: seq<bool>, nIdle: int, nTotal: int, nTodo: int, allOk: bool, batchSize: nat,
    threads: seq<Thread>, control: Control,
    added: seq<bool>,                // the checks added since Wait last returned
    log: seq<(bool, seq<bool>)>)     // what each Wait returned, and the checks added before it

  datatype Step =
    | Construct
    | Destroy
    | Add(checks: seq<bool>, wake: nat)
    | EnterWait(final: bool)
    | Join(worker: nat)
    | Execute(executing: nat)
    | Finish(finishing: nat)
    | Wake(waking: nat)

  predicate AllTrue(bs: seq<bool>) { forall k :: 0 <= k < |bs| ==> bs[k] }

  function Init(n: nat, batchSize: nat): State
    requires n > 0
  {
    State([], 0, 0, 0, true, batchSize, seq(n, _ => Outside), NoControl, [], [])
  }

  predicate IsIdle(s: State) { s.nTotal == s.nIdle && s.nTodo == 0 && s.allOk }

  // ---------------------------------------------------------------- the critical sections

  function Max(a: int, b: int): int { if a < b then b else a }
  function Min(a: int, b: int): int { if a < b then a else b }

  /** How many checks a thread takes: at least one, at most a batch, and no more than its share. */
  function BatchOf(s: State): (n: nat)
    requires s.queue != [] && s.nTotal + s.nIdle + 1 > 0
    ensures 1 <= n <= |s.queue|
  {
    Share(|s.queue|, s.nTotal + s.nIdle + 1);
    Max(1, Min(s.batchSize, |s.queue| / (s.nTotal + s.nIdle + 1)))
  }

  lemma {:induction false} MulAtLeast(d: nat, k: nat)
    requires d > 0
    ensures d * k >= k
  {
    if d > 1 {
      MulAtLeast(d - 1, k);
      assert d * k == (d - 1) * k + k;
    }
  }

  lemma Share(q: nat, d: nat)
    requires d > 0
    ensures 0 <= q / d <= q
  {
    if q / d > 0 { MulAtLeast(d, q / d); }
  }

  function Reverse(bs: seq<bool>): seq<bool> {
    if bs == [] then [] else [bs[|bs| - 1]] + Reverse(bs[..|bs| - 1])
  }

  /** Take a batch from the end of the queue, last check first. */
  function Take(s: State, i: nat): State
    requires s.queue != [] && s.nTotal + s.nIdle + 1 > 0 && i < |s.threads|
  {
    var n := BatchOf(s);
    var rest := |s.queue| - n;
    s.(queue := s.queue[..rest], threads := s.threads[i := Busy(Reverse(s.queue[rest..]), n, s.allOk)])
  }

  lemma {:induction false} ReverseAt(bs: seq<bool>)
    ensures |Reverse(bs)| == |bs| && forall k :: 0 <= k < |bs| ==> Reverse(bs)[k] == bs[|bs| - 1 - k]
  {
    if bs != [] { ReverseAt(bs[..|bs| - 1]); }
  }

  /** The division that gives the share. */
  lemma ShareIs(q: nat, d: nat)
    requires d > 0
    ensures q / d * d <= q < (q / d + 1) * d
  {
    var k := q / d;
    assert (k + 1) * d == k * d + d;
  }

  /** A batch is an equal share of the queue for every worker there is and every idle one once
      more, at most batchSize and at least one, and it is the end of the queue, last check first. */
  lemma TakesShare(s: State, i: nat)
    requires s.queue != [] && s.nTotal + s.nIdle + 1 > 0 && i < |s.threads|
    ensures
      var r := Take(s, i);
      var n, shares := |s.queue| - |r.queue|, s.nTotal + s.nIdle + 1;
      && r.queue <= s.queue && r == s.(queue := r.queue, threads := r.threads)
      && n >= 1 && (n > 1 ==> n <= s.batchSize && n * shares <= |s.queue|)
      && (n < s.batchSize ==> (n + 1) * shares > |s.queue|)
      && (forall j :: 0 <= j < |s.threads| && j != i ==> r.threads[j] == s.threads[j])
      && r.threads[i].Busy? && |r.threads[i].rest| == n == r.threads[i].now && r.threads[i].ok == s.allOk
      && (forall k :: 0 <= k < n ==> r.threads[i].rest[k] == s.queue[|s.queue| - 1 - k])
  {
    hide Reverse;
    var n, shares := BatchOf(s), s.nTotal + s.nIdle + 1;
    var share := |s.queue| / shares;
    ShareIs(|s.queue|, shares);
    ReverseAt(s.queue[|s.queue| - n..]);
    if n < share { MulAtMost(n + 1, share, shares); }
    if n > share { MulAtMost(share + 1, n + 1, shares); }
    if 1 < n < share { MulAtMost(n, share, shares); }
  }

  lemma MulAtMost(a: int, b: int, c: int)
    requires a <= b && c > 0
    ensures a * c <= b * c
  {
    assert b * c == a * c + (b - a) * c;
  }

  function Sleep(s: State, i: nat): State
    requires i < |s.threads|
  {
    s.(nIdle := s.nIdle + 1, threads := s.threads[i := Asleep(false)])
  }

  /** The master leaves Wait. */
  function Return(s: State): State
    requires s.threads != [] && s.control.InWait?
  {
    s.(nTotal := s.nTotal - 1, allOk := true, threads := s.threads[0 := Outside],
       control := if s.control.final then NoControl else Alive(true),
       added := [], log := s.log + [(s.allOk, s.added)])
  }

  /** The part of the critical section every thread goes through: take work, return, or wait. */
  function Settle(s: State, i: nat): State
    requires i < |s.threads| && s.nTotal + s.nIdle + 1 > 0 && (i == 0 ==> s.control.InWait?)
  {
    if s.queue != [] then Take(s, i)
    else if i == 0 && s.nTodo == 0 then Return(s)
    else Sleep(s, i)
  }

  function NotifyMaster(s: State): State
    requires s.threads != []
  {
    if s.threads[0].Asleep? then s.(threads := s.threads[0 := Asleep(true)]) else s
  }

  /** The thread's batch is done, or its wait is over. */
  function Leave(s: State, i: nat): State
    requires i < |s.threads|
  {
    s.(threads := s.threads[i := Outside])
  }

  predicate CanNotify(s: State, i: nat) {
    0 < i < |s.threads| && s.threads[i] == Asleep(false)
  }

  function NotifyWorkers(s: State, count: nat, wake: nat): State {
    if count == 0 then s
    else if count == 1 then
      if CanNotify(s, wake) then s.(threads := s.threads[wake := Asleep(true)]) else s
    else s.(threads := seq(|s.threads|, k requires 0 <= k < |s.threads| =>
                         if CanNotify(s, k) then Asleep(true) else s.threads[k]))
  }

  predicate Enabled(s: State, step: Step) {
    match step
    case Construct => s.control.NoControl? && IsIdle(s)
    case Destroy => s.control == Alive(true)
    case Add(checks, wake) => s.control.Alive?
      && (CanNotify(s, wake) || forall k :: 0 < k < |s.threads| ==> !CanNotify(s, k))
    case EnterWait(final) => s.control.Alive? && (final ==> !s.control.done)
    case Join(i) => 0 < i < |s.threads| && s.threads[i].Outside?
    case Execute(i) => i < |s.threads| && s.threads[i].Busy? && s.threads[i].rest != []
    case Finish(i) => i < |s.threads| && s.threads[i].Busy? && s.threads[i].rest == []
    case Wake(i) => i < |s.threads| && s.threads[i].Asleep?
  }

  /** Constructing a controller asserts that the queue is idle, so Construct is enabled only
      then; AssertIff below says exactly when the assertion is certain to hold. */
  function Do(s: State, step: Step): State
    requires Inv(s) && Enabled(s, step)
  {
    InvBounds(s);
    match step
    case Construct => s.(control := Alive(false))
    case Destroy => s.(control := NoControl)
    case Add(checks, wake) =>
      NotifyWorkers(s.(queue := s.queue + checks, nTodo := s.nTodo + |checks|, added := s.added + checks), |checks|,
        wake)
    case EnterWait(final) => Settle(s.(control := InWait(final), nTotal := s.nTotal + 1), 0)
    case Join(i) => Settle(s.(nTotal := s.nTotal + 1), i)
    case Execute(i) =>
      var t := s.threads[i];
      s.(threads := s.threads[i := Busy(t.rest[1..], t.now, if t.ok then t.rest[0] else false)])
    case Finish(i) =>
      var t := s.threads[i];
      var d := s.(allOk := s.allOk && t.ok, nTodo := s.nTodo - t.now);
      Settle(Leave(if d.nTodo == 0 && i != 0 then NotifyMaster(d) else d, i), i)
    case Wake(i) => Settle(Leave(s.(nIdle := s.nIdle - 1), i), i)
  }

  // ---------------------------------------------------------------- the invariant

  function Now(t: Thread): int { if t.Busy? then t.now else 0 }
  function BusyCount(t: Thread): int { if t.Busy? then 1 else 0 }
  function AsleepCount(t: Thread): int { if t.Asleep? then 1 else 0 }

  function Sum(ts: seq<Thread>, f: Thread -> int): int {
    if ts == [] then 0 else Sum(ts[..|ts| - 1], f) + f(ts[|ts| - 1])
  }

  predicate Succeeding(t: Thread) { t.Busy? ==> t.ok && AllTrue(t.rest) }

  predicate SaneThread(t: Thread) { t.Busy? ==> 1 <= t.now && |t.rest| <= t.now }

  predicate SomeAsleep(s: State) { exists i :: 0 < i < |s.threads| && s.threads[i].Asleep? }

  /** A worker that will look at the queue again. */
  predicate Roused(t: Thread) { t.Busy? || (t.Asleep? && t.notified) }

  predicate SomeRoused(s: State) { exists i :: 0 < i < |s.threads| && Roused(s.threads[i]) }

  predicate AllSucceeding(s: State) { forall i :: 0 <= i < |s.threads| ==> Succeeding(s.threads[i]) }

  /** The invariant while thread `inside` holds the mutex and is in neither a wait nor a
      batch (-1 when no thread does). */
  predicate Core(s: State, inside: int) {
    && s.threads != [] && -1 <= inside < |s.threads|
    && (inside >= 0 ==> s.threads[inside].Outside?)
    && (forall i :: 0 <= i < |s.threads| ==> SaneThread(s.threads[i]))
    // the counters
    && s.nTodo == |s.queue| + Sum(s.threads, Now) && s.nTodo <= |s.added|
    && s.nIdle == Sum(s.threads, AsleepCount)
    && s.nTotal == s.nIdle + Sum(s.threads, BusyCount) + (if inside >= 0 then 1 else 0)
    // the verdict so far, and those returned
    && (AllTrue(s.added) <==> s.allOk && AllTrue(s.queue) && AllSucceeding(s))
    && (forall k :: 0 <= k < |s.log| ==> (s.log[k].0 <==> AllTrue(s.log[k].1)))
    // the master
    && (s.control.InWait? <==> !s.threads[0].Outside? || inside == 0)
    && (s.threads[0].Asleep? ==> s.queue == [] && (s.nTodo == 0 ==> s.threads[0].notified))
    // the workers
    && (s.queue != [] && SomeAsleep(s) && inside <= 0 ==> SomeRoused(s))
  }

  predicate Inv(s: State) { Core(s, -1) }

  // ---------------------------------------------------------------- sums over the threads

  lemma {:induction false} SumUpdate(ts: seq<Thread>, i: nat, t: Thread, f: Thread -> int)
    requires i < |ts|
    ensures Sum(ts[i := t], f) == Sum(ts, f) - f(ts[i]) + f(t)
  {
    var n := |ts| - 1;
    if i < n {
      SumUpdate(ts[..n], i, t, f);
      assert ts[i := t][..n] == ts[..n][i := t];
    } else {
      assert ts[i := t][..n] == ts[..n];
    }
  }

  lemma {:induction false} SumAtLeast(ts: seq<Thread>, i: nat, f: Thread -> int)
    requires i < |ts| && forall k :: 0 <= k < |ts| ==> f(ts[k]) >= 0
    ensures Sum(ts, f) >= f(ts[i])
  {
    var n := |ts| - 1;
    if i < n {
      SumAtLeast(ts[..n], i, f);
    } else if n > 0 {
      SumAtLeast(ts[..n], 0, f);
    }
  }

  lemma {:induction false} SumZero(ts: seq<Thread>, f: Thread -> int)
    requires forall k :: 0 <= k < |ts| ==> f(ts[k]) == 0
    ensures Sum(ts, f) == 0
  {
    if ts != [] { SumZero(ts[..|ts| - 1], f); }
  }

  lemma {:induction false} SumSame(ts: seq<Thread>, us: seq<Thread>, f: Thread -> int)
    requires |ts| == |us| && forall k :: 0 <= k < |ts| ==> f(ts[k]) == f(us[k])
    ensures Sum(ts, f) == Sum(us, f)
  {
    if ts != [] { SumSame(ts[..|ts| - 1], us[..|us| - 1], f); }
  }

  lemma InvBounds(s: State)
    requires Inv(s)
    ensures 0 <= s.nIdle <= s.nTotal && 0 <= s.nTodo
    ensures forall i :: 0 <= i < |s.threads| && s.threads[i].Asleep? ==> s.nIdle >= 1
    ensures forall i :: 0 <= i < |s.threads| && s.threads[i].Busy? ==> s.nTodo >= |s.queue| + s.threads[i].now
  {
    SumAtLeast(s.threads, 0, AsleepCount);
    SumAtLeast(s.threads, 0, BusyCount);
    SumAtLeast(s.threads, 0, Now);
    forall i | 0 <= i < |s.threads| && s.threads[i].Asleep? ensures s.nIdle >= 1 {
      SumAtLeast(s.threads, i, AsleepCount);
    }
    forall i | 0 <= i < |s.threads| && s.threads[i].Busy? ensures s.nTodo >= |s.queue| + s.threads[i].now {
      SumAtLeast(s.threads, i, Now);
    }
  }

  lemma NoneBusy(s: State)
    requires Inv(s) && s.nTodo == 0
    ensures forall i :: 0 <= i < |s.threads| ==> !s.threads[i].Busy?
    ensures s.nTotal == s.nIdle && s.queue == []
  {
    SumAtLeast(s.threads, 0, Now);
    forall i | 0 <= i < |s.threads| ensures !s.threads[i].Busy? {
      assert SaneThread(s.threads[i]);
      SumAtLeast(s.threads, i, Now);
    }
    SumZero(s.threads, BusyCount);
  }

  /** With nothing added since the last Wait, or everything added done and good, the queue
      is idle, and only then. */
  lemma IdleIff(s: State)
    requires Inv(s)
    ensures IsIdle(s) <==> s.nTodo == 0 && AllTrue(s.added)
  {
    if s.nTodo == 0 { NoneBusy(s); }
  }

  // ---------------------------------------------------------------- every step keeps the invariant

  lemma Sums(ts: seq<Thread>, i: nat, t: Thread)
    requires i < |ts|
    ensures Sum(ts[i := t], Now) == Sum(ts, Now) - Now(ts[i]) + Now(t)
    ensures Sum(ts[i := t], BusyCount) == Sum(ts, BusyCount) - BusyCount(ts[i]) + BusyCount(t)
    ensures Sum(ts[i := t], AsleepCount) == Sum(ts, AsleepCount) - AsleepCount(ts[i]) + AsleepCount(t)
  {
    SumUpdate(ts, i, t, Now);
    SumUpdate(ts, i, t, BusyCount);
    SumUpdate(ts, i, t, AsleepCount);
  }

  lemma {:induction false} ReverseKeeps(bs: seq<bool>)
    ensures |Reverse(bs)| == |bs| && (AllTrue(Reverse(bs)) <==> AllTrue(bs))
  {
    if bs != [] {
      var n := |bs| - 1;
      ReverseKeeps(bs[..n]);
      SplitTrue(Reverse(bs), 1);
      SplitTrue(bs, n);
      assert Reverse(bs)[..1] == bs[n..] == [bs[n]];
      assert Reverse(bs)[1..] == Reverse(bs[..n]);
    }
  }

  lemma SplitTrue(bs: seq<bool>, n: nat)
    requires n <= |bs|
    ensures AllTrue(bs) <==> AllTrue(bs[..n]) && AllTrue(bs[n..])
  {
    assert forall k :: n <= k < |bs| ==> bs[k] == bs[n..][k - n];
  }

  /** Replacing one thread's state. */
  lemma OthersSucceed(s: State, r: State, i: nat)
    requires i < |s.threads| == |r.threads| && r.threads == s.threads[i := r.threads[i]]
    requires Succeeding(s.threads[i])
    ensures AllSucceeding(r) <==> AllSucceeding(s) && Succeeding(r.threads[i])
  {
    if AllSucceeding(r) {
      forall k | 0 <= k < |s.threads| ensures Succeeding(s.threads[k]) { assert k != i ==> Succeeding(r.threads[k]); }
    }
  }

  lemma TakeKeeps(s: State, i: nat)
    requires Core(s, i) && s.queue != [] && s.nTotal + s.nIdle + 1 > 0
    ensures Inv(Take(s, i))
  {
    hide BatchOf, Reverse, Sum, AllTrue, AllSucceeding;
    var r := Take(s, i);
    var n := BatchOf(s);
    var rest := |s.queue| - n;
    Sums(s.threads, i, r.threads[i]);
    ReverseKeeps(s.queue[rest..]);
    SplitTrue(s.queue, rest);
    OthersSucceed(s, r, i);
    assert i > 0 ==> Roused(r.threads[i]);
    if i == 0 { SameWorkers(s, r); }
  }

  lemma ReturnKeeps(s: State)
    requires Core(s, 0) && s.queue == [] && s.nTodo == 0
    ensures Inv(Return(s))
    ensures s.allOk <==> AllTrue(s.added)
  {
    var r := Return(s);
    assert r.threads == s.threads;
    forall i | 0 <= i < |s.threads| ensures !s.threads[i].Busy? {
      assert SaneThread(s.threads[i]);
      SumAtLeast(s.threads, i, Now);
    }
    SumZero(s.threads, BusyCount);
  }

  lemma SleepKeeps(s: State, i: nat)
    requires Core(s, i) && s.queue == [] && (i == 0 ==> s.nTodo != 0)
    ensures Inv(Sleep(s, i))
  {
    hide Sum, AllTrue, AllSucceeding;
    Sums(s.threads, i, Asleep(false));
    OthersSucceed(s, Sleep(s, i), i);
  }

  lemma SettleKeeps(s: State, i: nat)
    requires Core(s, i) && s.nTotal + s.nIdle + 1 > 0
    ensures Inv(Settle(s, i))
  {
    hide Core, Take, Return, Sleep;
    CoreControl(s, i);
    if s.queue != [] { TakeKeeps(s, i); }
    else if i == 0 && s.nTodo == 0 { ReturnKeeps(s); }
    else { SleepKeeps(s, i); }
  }

  lemma CoreControl(s: State, i: nat)
    requires Core(s, i)
    ensures i < |s.threads| && (i == 0 ==> s.control.InWait?)
  {
  }

  lemma WakeKeeps(s: State, i: nat)
    requires Inv(s) && i < |s.threads| && s.threads[i].Asleep?
    ensures Core(Leave(s.(nIdle := s.nIdle - 1), i), i)
    ensures s.nIdle >= 1 && s.nTotal >= 1
  {
    hide Sum, AllTrue, AllSucceeding;
    InvBounds(s);
    var r := Leave(s.(nIdle := s.nIdle - 1), i);
    Sums(s.threads, i, Outside);
    OthersSucceed(s, r, i);
  }

  lemma JoinKeeps(s: State, i: nat)
    requires Inv(s) && 0 < i < |s.threads| && s.threads[i].Outside?
    ensures Core(s.(nTotal := s.nTotal + 1), i)
  {
    hide Sum;
    assert AllSucceeding(s.(nTotal := s.nTotal + 1)) <==> AllSucceeding(s);
  }

  lemma EnterKeeps(s: State, final: bool)
    requires Inv(s) && s.control.Alive?
    ensures Core(s.(control := InWait(final), nTotal := s.nTotal + 1), 0)
  {
    hide Sum;
    var r := s.(control := InWait(final), nTotal := s.nTotal + 1);
    assert AllSucceeding(r) <==> AllSucceeding(s);
    SameWorkers(s, r);
  }

  lemma OneFails(s: State, i: nat)
    requires i < |s.threads| && !Succeeding(s.threads[i])
    ensures !AllSucceeding(s)
  {
  }

  lemma SameWorkers(s: State, r: State)
    requires |s.threads| == |r.threads| && forall k :: 0 < k < |s.threads| ==> s.threads[k] == r.threads[k]
    ensures SomeAsleep(s) == SomeAsleep(r) && SomeRoused(s) == SomeRoused(r)
  {
    if SomeAsleep(s) { var k :| 0 < k < |s.threads| && s.threads[k].Asleep?; assert r.threads[k].Asleep?; }
    if SomeAsleep(r) { var k :| 0 < k < |r.threads| && r.threads[k].Asleep?; assert s.threads[k].Asleep?; }
    if SomeRoused(s) { var k :| 0 < k < |s.threads| && Roused(s.threads[k]); assert Roused(r.threads[k]); }
    if SomeRoused(r) { var k :| 0 < k < |r.threads| && Roused(r.threads[k]); assert Roused(s.threads[k]); }
  }

  function Completed(s: State, i: nat): State
    requires i < |s.threads| && s.threads[i].Busy?
  {
    var t := s.threads[i];
    var d := s.(allOk := s.allOk && t.ok, nTodo := s.nTodo - t.now);
    if d.nTodo == 0 && i != 0 then NotifyMaster(d) else d
  }

  lemma FinishKeeps(s: State, i: nat)
    requires Inv(s) && i < |s.threads| && s.threads[i].Busy? && s.threads[i].rest == []
    ensures Core(Leave(Completed(s, i), i), i)
  {
    hide Sum, AllSucceeding;
    var t := s.threads[i];
    var d := s.(allOk := s.allOk && t.ok, nTodo := s.nTodo - t.now);
    var l := Leave(d, i);
    InvBounds(s);
    Sums(s.threads, i, Outside);
    if Succeeding(t) {
      OthersSucceed(s, l, i);
    } else {
      OneFails(s, i);
    }
    if i == 0 { SameWorkers(s, l); }
    if d.nTodo == 0 && i != 0 && s.threads[0].Asleep? {
      var c := Leave(Completed(s, i), i);
      assert c.threads == l.threads[0 := Asleep(true)];
      Sums(l.threads, 0, Asleep(true));
      OthersSucceed(l, c, 0);
    }
  }

  lemma ExecuteKeeps(s: State, i: nat)
    requires Inv(s) && Enabled(s, Execute(i))
    ensures Inv(Do(s, Execute(i)))
  {
    hide Sum, AllSucceeding, AllTrue;
    var r := Do(s, Execute(i));
    var t, u := s.threads[i], r.threads[i];
    Sums(s.threads, i, u);
    SplitTrue(t.rest, 1);
    FirstTrue(t.rest);
    assert Succeeding(t) <==> Succeeding(u);
    assert s.threads == r.threads[i := t];
    if Succeeding(t) { OthersSucceed(s, r, i); } else { OneFails(s, i); OneFails(r, i); }
    SameRousing(s, r);
  }

  lemma FirstTrue(bs: seq<bool>)
    requires bs != []
    ensures AllTrue(bs[..1]) <==> bs[0]
  {
  }

  lemma SameRousing(s: State, r: State)
    requires |s.threads| == |r.threads|
    requires forall k :: 0 < k < |s.threads| ==>
      (s.threads[k].Asleep? <==> r.threads[k].Asleep?) && (Roused(s.threads[k]) ==> Roused(r.threads[k]))
    ensures SomeAsleep(r) ==> SomeAsleep(s)
    ensures SomeRoused(s) ==> SomeRoused(r)
  {
    if SomeAsleep(r) { var k :| 0 < k < |r.threads| && r.threads[k].Asleep?; assert s.threads[k].Asleep?; }
    if SomeRoused(s) { var k :| 0 < k < |s.threads| && Roused(s.threads[k]); assert Roused(r.threads[k]); }
  }

  lemma AddKeeps(s: State, checks: seq<bool>, wake: nat)
    requires Inv(s) && Enabled(s, Add(checks, wake))
    ensures Inv(Do(s, Add(checks, wake)))
  {
    hide Sum, AllTrue, AllSucceeding;
    var r := Do(s, Add(checks, wake));
    SplitTrue(s.queue + checks, |s.queue|);
    SplitTrue(s.added + checks, |s.added|);
    assert (s.queue + checks)[..|s.queue|] == s.queue && (s.queue + checks)[|s.queue|..] == checks;
    assert (s.added + checks)[..|s.added|] == s.added && (s.added + checks)[|s.added|..] == checks;
    forall k | 0 <= k < |s.threads| ensures SameButNotified(s.threads[k], r.threads[k]) {}
    NotifiedSums(s.threads, r.threads);
    NotifiedSucceed(s, r);
    NotifiedRouse(s, checks, wake);
  }

  predicate SameButNotified(t: Thread, u: Thread) {
    t == u || (t.Asleep? && u == Asleep(true))
  }

  lemma NotifiedSums(ts: seq<Thread>, us: seq<Thread>)
    requires |ts| == |us| && forall k :: 0 <= k < |ts| ==> SameButNotified(ts[k], us[k])
    ensures Sum(ts, Now) == Sum(us, Now) && Sum(ts, BusyCount) == Sum(us, BusyCount)
    ensures Sum(ts, AsleepCount) == Sum(us, AsleepCount)
  {
    SumSame(ts, us, Now);
    SumSame(ts, us, BusyCount);
    SumSame(ts, us, AsleepCount);
  }

  lemma NotifiedSucceed(s: State, r: State)
    requires |s.threads| == |r.threads| && forall k :: 0 <= k < |s.threads| ==>
      SameButNotified(s.threads[k], r.threads[k])
    ensures AllSucceeding(s) == AllSucceeding(r)
  {
    if AllSucceeding(s) {
      forall k | 0 <= k < |r.threads| ensures Succeeding(r.threads[k]) { assert Succeeding(s.threads[k]); }
    }
    if AllSucceeding(r) {
      forall k | 0 <= k < |s.threads| ensures Succeeding(s.threads[k]) { assert Succeeding(r.threads[k]); }
    }
  }

  /** After an Add that adds anything, no sleeping worker is left without a roused one. */
  lemma NotifiedRouse(s: State, checks: seq<bool>, wake: nat)
    requires Inv(s) && Enabled(s, Add(checks, wake))
    ensures var r := Do(s, Add(checks, wake));
      r.queue != [] && SomeAsleep(r) ==> SomeRoused(r)
  {
    hide Sum, AllTrue, AllSucceeding;
    var r := Do(s, Add(checks, wake));
    forall k | 0 < k < |s.threads| ensures Roused(s.threads[k]) ==> Roused(r.threads[k]) {}
    if SomeAsleep(r) && |checks| > 0 {
      var a :| 0 < a < |r.threads| && r.threads[a].Asleep?;
      if |checks| == 1 && CanNotify(s, wake) {
        assert Roused(r.threads[wake]);
      } else {
        assert s.threads[a].Asleep? && (CanNotify(s, a) || s.threads[a].notified);
        assert Roused(r.threads[a]);
      }
    }
  }

  /** Every step keeps the invariant. */
  lemma StepKeeps(s: State, step: Step)
    requires Inv(s) && Enabled(s, step)
    ensures Inv(Do(s, step))
  {
    hide Core, Settle, NotifyWorkers, Sum;
    InvBounds(s);
    match step
    case Construct => ControlKeeps(s, Alive(false));
    case Destroy => ControlKeeps(s, NoControl);
    case Add(checks, wake) => AddKeeps(s, checks, wake);
    case EnterWait(final) => EnterKeeps(s, final); SettleKeeps(s.(control := InWait(final), nTotal := s.nTotal + 1), 0);
    case Join(i) => JoinKeeps(s, i); SettleKeeps(s.(nTotal := s.nTotal + 1), i);
    case Execute(i) => ExecuteKeeps(s, i);
    case Finish(i) => FinishKeeps(s, i); SettleKeeps(Leave(Completed(s, i), i), i);
    case Wake(i) => WakeKeeps(s, i); SettleKeeps(Leave(s.(nIdle := s.nIdle - 1), i), i);
  }

  lemma ControlKeeps(s: State, c: Control)
    requires Inv(s) && !s.control.InWait? && !c.InWait?
    ensures Inv(s.(control := c))
  {
    hide Sum;
    SameWorkers(s, s.(control := c));
    NotifiedSucceed(s, s.(control := c));
  }

  // ---------------------------------------------------------------- runs

  lemma InitInv(n: nat, batchSize: nat)
    requires n > 0
    ensures Inv(Init(n, batchSize))
  {
    var s := Init(n, batchSize);
    SumZero(s.threads, Now);
    SumZero(s.threads, BusyCount);
    SumZero(s.threads, AsleepCount);
  }

  /** The steps of a run: each is enabled in the state the steps before it lead to. */
  predicate Legal(n: nat, batchSize: nat, steps: seq<Step>)
    requires n > 0
    decreases |steps|, 0
  {
    steps == [] ||
    var k := |steps| - 1;
    Legal(n, batchSize, steps[..k]) && Enabled(After(n, batchSize, steps[..k]), steps[k])
  }

  /** The state after a run of n - 1 workers and a master. */
  function After(n: nat, batchSize: nat, steps: seq<Step>): (s: State)
    requires n > 0 && Legal(n, batchSize, steps)
    ensures Inv(s)
    decreases |steps|, 1
  {
    if steps == [] then InitInv(n, batchSize); Init(n, batchSize) else
    var k := |steps| - 1;
    StepKeeps(After(n, batchSize, steps[..k]), steps[k]);
    Do(After(n, batchSize, steps[..k]), steps[k])
  }

  /** In every run, in every state: nTodo counts the checks queued and in flight; every Wait
      has returned exactly the conjunction of the checks added since the one before; a
      sleeping master with nothing left to do has been notified; and checks in the queue
      never leave all sleeping workers unnotified. */
  lemma RunFacts(n: nat, batchSize: nat, steps: seq<Step>)
    requires n > 0 && Legal(n, batchSize, steps)
    ensures var s := After(n, batchSize, steps);
      && s.nTodo == |s.queue| + Sum(s.threads, Now)
      && (forall w :: 0 <= w < |s.log| ==> (s.log[w].0 <==> AllTrue(s.log[w].1)))
      && (s.threads[0].Asleep? && s.nTodo == 0 ==> s.threads[0].notified)
      && (s.queue != [] && SomeAsleep(s) ==> SomeRoused(s))
  {
    hide Do, Enabled, Sum;
    var s := After(n, batchSize, steps);
    assert Core(s, -1);
  }

  /** A master inside Wait is never stuck: it is working, or notified, or another thread is
      still working. */
  lemma WaitProgresses(s: State)
    requires Inv(s) && s.control.InWait?
    ensures (s.threads[0].Asleep? && s.threads[0].notified) || exists i :: 0 <= i < |s.threads| && s.threads[i].Busy?
  {
    if forall i :: 0 <= i < |s.threads| ==> !s.threads[i].Busy? {
      SumZero(s.threads, Now);
    }
  }

  /** What is left to do: three units for a queued check, one for a check in a batch, one
      for a batch to be finished. */
  function Remaining(t: Thread): int { if t.Busy? then |t.rest| + 1 else 0 }

  function Work(s: State): int { 3 * |s.queue| + Sum(s.threads, Remaining) }

  lemma {:induction false} ReverseLength(bs: seq<bool>)
    ensures |Reverse(bs)| == |bs|
  {
    if bs != [] { ReverseLength(bs[..|bs| - 1]); }
  }

  lemma SettleWork(s: State, i: nat)
    requires i < |s.threads| && s.threads[i].Outside? && s.nTotal + s.nIdle + 1 > 0 && (i == 0 ==> s.control.InWait?)
    ensures Work(Settle(s, i)) <= Work(s)
    ensures s.queue != [] ==> Work(Settle(s, i)) < Work(s)
  {
    hide Sum, Reverse, BatchOf;
    var r := Settle(s, i);
    SumUpdate(s.threads, i, r.threads[i], Remaining);
    if s.queue != [] { ReverseLength(s.queue[|s.queue| - BatchOf(s)..]); }
  }

  /** Every step that executes a check or finishes a batch, and every wake-up that finds
      work, brings the end nearer; no step but Add moves it away. */
  lemma WorkDecreases(s: State, step: Step)
    requires Inv(s) && Enabled(s, step) && !step.Add?
    ensures Work(Do(s, step)) <= Work(s)
    ensures step.Execute? || step.Finish? || (step.Wake? && s.queue != []) ==> Work(Do(s, step)) < Work(s)
  {
    hide Sum, Core, Settle;
    InvBounds(s);
    match step
    case Construct =>
    case Destroy =>
    case EnterWait(final) =>
      EnterKeeps(s, final);
      CoreControl(s.(control := InWait(final), nTotal := s.nTotal + 1), 0);
      MasterOutside(s);
      SettleWork(s.(control := InWait(final), nTotal := s.nTotal + 1), 0);
    case Join(i) => SettleWork(s.(nTotal := s.nTotal + 1), i);
    case Execute(i) => SumUpdate(s.threads, i, Do(s, step).threads[i], Remaining);
    case Finish(i) =>
      FinishKeeps(s, i);
      CoreControl(Leave(Completed(s, i), i), i);
      CompletedWork(s, i);
      SettleWork(Leave(Completed(s, i), i), i);
    case Wake(i) =>
      WakeKeeps(s, i);
      CoreControl(Leave(s.(nIdle := s.nIdle - 1), i), i);
      SumUpdate(s.threads, i, Outside, Remaining);
      SettleWork(Leave(s.(nIdle := s.nIdle - 1), i), i);
  }

  lemma MasterOutside(s: State)
    requires Inv(s) && !s.control.InWait?
    ensures s.threads[0].Outside?
  {
  }

  lemma CompletedWork(s: State, i: nat)
    requires Inv(s) && i < |s.threads| && s.threads[i].Busy? && s.threads[i].rest == []
    ensures Work(Leave(Completed(s, i), i)) == Work(s) - 1
  {
    hide Sum;
    var c := Completed(s, i);
    SumUpdate(c.threads, i, Outside, Remaining);
    if s.threads[0].Asleep? { SumUpdate(s.threads, 0, Asleep(true), Remaining); }
  }

  /** A step that executes a check, finishes a batch, or wakes up to work. */
  predicate Working(s: State, step: Step) {
    step.Execute? || step.Finish? || (step.Wake? && s.queue != [])
  }

  /** The number of such steps in a run from position k on. */
  function WorkSteps(n: nat, batchSize: nat, steps: seq<Step>, k: nat): nat
    requires n > 0 && Legal(n, batchSize, steps)
    decreases |steps|
  {
    if |steps| <= k then 0 else
    var last := |steps| - 1;
    WorkSteps(n, batchSize, steps[..last], k) +
    if Working(After(n, batchSize, steps[..last]), steps[last]) then 1 else 0
  }

  lemma WorkNonneg(s: State)
    ensures Work(s) >= 0
  {
    RemainingNonneg(s.threads);
  }

  lemma {:induction false} RemainingNonneg(ts: seq<Thread>)
    ensures Sum(ts, Remaining) >= 0
  {
    if ts != [] { RemainingNonneg(ts[..|ts| - 1]); }
  }

  lemma {:induction false} LegalPrefix(n: nat, batchSize: nat, steps: seq<Step>, k: nat)
    requires n > 0 && Legal(n, batchSize, steps) && k <= |steps|
    ensures Legal(n, batchSize, steps[..k])
    decreases |steps|
  {
    if k == |steps| {
      assert steps[..k] == steps;
    } else {
      LegalPrefix(n, batchSize, steps[..|steps| - 1], k);
      assert steps[..|steps| - 1][..k] == steps[..k];
    }
  }

  /** In a stretch of any run in which nothing is added, at most as many steps work as there was
      work at its start; and when that many have, a master in Wait has been notified. */
  lemma {:induction false} WorkEnds(n: nat, batchSize: nat, steps: seq<Step>, k: nat)
    requires n > 0 && Legal(n, batchSize, steps) && k <= |steps|
    requires forall i :: k <= i < |steps| ==> !steps[i].Add?
    ensures Legal(n, batchSize, steps[..k])
    ensures var s, r := After(n, batchSize, steps[..k]), After(n, batchSize, steps);
      && WorkSteps(n, batchSize, steps, k) + Work(r) <= Work(s) && Work(r) >= 0
      && (WorkSteps(n, batchSize, steps, k) == Work(s) && r.control.InWait? ==> r.threads[0] == Asleep(true))
    decreases |steps|
  {
    hide Do, Enabled, Work, Core;
    LegalPrefix(n, batchSize, steps, k);
    var s, r := After(n, batchSize, steps[..k]), After(n, batchSize, steps);
    if k == |steps| {
      assert steps[..k] == steps;
    } else {
      var last := |steps| - 1;
      WorkEnds(n, batchSize, steps[..last], k);
      assert steps[..last][..k] == steps[..k];
      WorkDecreases(After(n, batchSize, steps[..last]), steps[last]);
    }
    WorkNonneg(r);
    if Work(r) == 0 && r.control.InWait? { WorkedOff(r); }
  }

  /** With no work left a master in Wait has been notified. */
  lemma WorkedOff(s: State)
    requires Inv(s) && s.control.InWait? && Work(s) == 0
    ensures s.threads[0] == Asleep(true)
  {
    hide Core, Sum;
    RemainingNonneg(s.threads);
    forall i | 0 <= i < |s.threads| ensures !s.threads[i].Busy? {
      SumAtLeast(s.threads, i, Remaining);
    }
    WaitProgresses(s);
  }

  // ---------------------------------------------------------------- the controller's assertion

  /** The checks a run has added since it last entered Wait. */
  function Pending(steps: seq<Step>): seq<bool> {
    if steps == [] then [] else
    var k := |steps| - 1;
    match steps[k]
    case Add(checks, _) => Pending(steps[..k]) + checks
    case EnterWait(_) => []
    case _ => Pending(steps[..k])
  }

  /** What a step does to the checks the queue knows of. */
  lemma StepAdded(s: State, step: Step)
    requires Inv(s) && Enabled(s, step)
    ensures var r := Do(s, step);
      && (step.Add? ==> !r.control.InWait? && r.added == s.added + step.checks)
      && (step.EnterWait? || s.control.InWait? ==> r.control.InWait? || r.added == [])
      && (!step.Add? && !step.EnterWait? && !s.control.InWait? ==> !r.control.InWait? && r.added == s.added)
  {
    hide Sum, AllTrue, AllSucceeding, BatchOf, Reverse;
    if !s.control.InWait? { MasterOutside(s); }
  }

  /** Outside Wait the checks the queue knows of are the pending ones. */
  lemma {:induction false} AddedIsPending(n: nat, batchSize: nat, steps: seq<Step>)
    requires n > 0 && Legal(n, batchSize, steps)
    ensures var s := After(n, batchSize, steps);
      if s.control.InWait? then Pending(steps) == [] else s.added == Pending(steps)
  {
    hide Core, Do;
    if steps != [] {
      var k := |steps| - 1;
      AddedIsPending(n, batchSize, steps[..k]);
      StepAdded(After(n, batchSize, steps[..k]), steps[k]);
    }
  }

  /** In every run, whenever no controller is alive and nothing is pending the queue is idle, so
      the assertion of the next controller cannot fail. */
  lemma AssertHolds(n: nat, batchSize: nat, steps: seq<Step>)
    requires n > 0 && Legal(n, batchSize, steps)
    requires After(n, batchSize, steps).control.NoControl? && Pending(steps) == []
    ensures IsIdle(After(n, batchSize, steps)) && Legal(n, batchSize, steps + [Construct])
  {
    hide Do;
    AddedIsPending(n, batchSize, steps);
    IdleIff(After(n, batchSize, steps));
    InvBounds(After(n, batchSize, steps));
    assert (steps + [Construct])[..|steps|] == steps;
  }

  /** What the thread that owns the controllers does, without the choices of the scheduler. */
  function Calls(steps: seq<Step>): seq<Step> {
    if steps == [] then [] else
    var k := |steps| - 1;
    match steps[k]
    case Add(checks, _) => Calls(steps[..k]) + [Add(checks, 0)]
    case Construct => Calls(steps[..k]) + [Construct]
    case Destroy => Calls(steps[..k]) + [Destroy]
    case EnterWait(final) => Calls(steps[..k]) + [EnterWait(final)]
    case _ => Calls(steps[..k])
  }

  lemma {:induction false} PendingOfCalls(steps: seq<Step>)
    ensures Pending(Calls(steps)) == Pending(steps)
  {
    if steps != [] {
      var k := |steps| - 1;
      PendingOfCalls(steps[..k]);
      var c := Calls(steps[..k]);
      assert forall step :: (c + [step])[..|c|] == c;
    }
  }

  /** A worker for Add to notify, if there is one. */
  lemma AnyWorker(s: State, checks: seq<bool>) returns (wake: nat)
    requires s.control.Alive?
    ensures Enabled(s, Add(checks, wake))
  {
    if k :| 0 < k < |s.threads| && CanNotify(s, k) { wake := k; } else { wake := 0; }
  }

  lemma Extend(n: nat, batchSize: nat, steps: seq<Step>, step: Step)
    requires n > 0 && Legal(n, batchSize, steps) && Enabled(After(n, batchSize, steps), step)
    ensures Legal(n, batchSize, steps + [step])
    ensures After(n, batchSize, steps + [step]) == Do(After(n, batchSize, steps), step)
  {
    hide Do, Enabled;
    assert (steps + [step])[..|steps|] == steps;
  }

  /** What a step outside Wait does to the controller and to the count of what is left. */
  lemma StepControl(s: State, step: Step)
    requires Inv(s) && Enabled(s, step) && !s.control.InWait?
    ensures var r := Do(s, step);
      match step
      case Construct => r.control == Alive(false)
      case Destroy => r.control.NoControl? && r.nTodo == s.nTodo
      case Add(checks, _) => r.control == s.control && r.nTodo == s.nTodo + |checks|
      case EnterWait(_) => true
      case _ => r.control == s.control
  {
    hide Sum, AllTrue, AllSucceeding, BatchOf, Reverse;
    MasterOutside(s);
  }

  lemma AddCall(steps: seq<Step>, other: seq<Step>, checks: seq<bool>, wake: nat, last: nat)
    requires Calls(steps) == Calls(other)
    ensures Calls(steps + [Add(checks, last)]) == Calls(other + [Add(checks, wake)])
    ensures Pending(steps + [Add(checks, last)]) == Pending(steps) + checks
  {
    assert (steps + [Add(checks, last)])[..|steps|] == steps;
    assert (other + [Add(checks, wake)])[..|other|] == other;
  }

  lemma DestroyCall(steps: seq<Step>, other: seq<Step>)
    requires Calls(steps) == Calls(other)
    ensures Calls(steps + [Destroy]) == Calls(other + [Destroy])
    ensures Pending(steps + [Destroy]) == Pending(steps)
  {
    assert (steps + [Destroy])[..|steps|] == steps;
    assert (other + [Destroy])[..|other|] == other;
  }

  lemma NoCall(steps: seq<Step>, step: Step)
    requires step.Join? || step.Execute? || step.Finish? || step.Wake?
    ensures Calls(steps + [step]) == Calls(steps) && Pending(steps + [step]) == Pending(steps)
  {
    assert (steps + [step])[..|steps|] == steps;
  }

  /** After a Wait, a schedule of the same calls in which no thread touches what is pending. */
  lemma {:induction false} Untouched(n: nat, batchSize: nat, steps: seq<Step>) returns (other: seq<Step>)
    requires n > 0 && Legal(n, batchSize, steps)
    requires var c := After(n, batchSize, steps).control; c.NoControl? || c == Alive(true)
    ensures Legal(n, batchSize, other) && Calls(other) == Calls(steps)
    ensures After(n, batchSize, other).control == After(n, batchSize, steps).control
    ensures After(n, batchSize, other).nTodo >= |Pending(steps)|
    decreases |steps|
  {
    hide Core, Legal, After, Do, Calls, Pending;
    other := steps;
    InvBounds(After(n, batchSize, steps));
    PendingNone(steps);
    if Pending(steps) != [] {
      var t, step := steps[..|steps| - 1], steps[|steps| - 1];
      assert steps == t + [step];
      RunStep(n, batchSize, steps);
      StillPending(n, batchSize, steps);
      StepControl(After(n, batchSize, t), step);
      other := Untouched(n, batchSize, t);
      var was := After(n, batchSize, other);
      if step.Add? {
        var wake := AnyWorker(was, step.checks);
        Extend(n, batchSize, other, Add(step.checks, wake));
        StepControl(was, Add(step.checks, wake));
        AddCall(t, other, step.checks, wake, step.wake);
        other := other + [Add(step.checks, wake)];
      } else if step.Destroy? {
        Extend(n, batchSize, other, Destroy);
        StepControl(was, Destroy);
        DestroyCall(t, other);
        other := other + [Destroy];
      } else {
        NoCall(t, step);
      }
    }
  }

  lemma PendingNone(steps: seq<Step>)
    ensures steps == [] ==> Pending(steps) == []
  {
  }

  /** While something is pending after a Wait, the run was after a Wait before its last step too. */
  lemma StillPending(n: nat, batchSize: nat, steps: seq<Step>)
    requires n > 0 && Legal(n, batchSize, steps) && steps != [] && Pending(steps) != []
    requires var c := After(n, batchSize, steps).control; c.NoControl? || c == Alive(true)
    ensures var k := |steps| - 1;
      var c := After(n, batchSize, steps[..k]).control;
      (c.NoControl? || c == Alive(true)) && !steps[k].EnterWait? && !steps[k].Construct?
  {
    hide Core, Legal, After, Do;
    var k := |steps| - 1;
    RunStep(n, batchSize, steps);
    AddedIsPending(n, batchSize, steps[..k]);
    var s := After(n, batchSize, steps[..k]);
    if !s.control.InWait? { StepControl(s, steps[k]); }
  }

  lemma RunStep(n: nat, batchSize: nat, steps: seq<Step>)
    requires n > 0 && Legal(n, batchSize, steps) && steps != []
    ensures var k := |steps| - 1;
      && Legal(n, batchSize, steps[..k]) && Enabled(After(n, batchSize, steps[..k]), steps[k])
      && After(n, batchSize, steps) == Do(After(n, batchSize, steps[..k]), steps[k])
  {
    hide Do, Enabled;
  }

  ghost predicate SameCalls(n: nat, batchSize: nat, steps: seq<Step>, other: seq<Step>)
    requires n > 0
  {
    Legal(n, batchSize, other) && Calls(other) == Calls(steps) && After(n, batchSize, other).control.NoControl?
  }

  /** The assertion of the next controller holds in every schedule of the same calls exactly when
      nothing was added after the last Wait. */
  lemma AssertIff(n: nat, batchSize: nat, steps: seq<Step>)
    requires n > 0 && Legal(n, batchSize, steps) && After(n, batchSize, steps).control.NoControl?
    ensures (forall other :: SameCalls(n, batchSize, steps, other) ==> IsIdle(After(n, batchSize, other)))
      <==> Pending(Calls(steps)) == []
  {
    hide Legal, After, Calls, Pending, IsIdle;
    PendingOfCalls(steps);
    if Pending(steps) == [] {
      forall other | SameCalls(n, batchSize, steps, other) ensures IsIdle(After(n, batchSize, other)) {
        PendingOfCalls(other);
        AssertHolds(n, batchSize, other);
      }
    } else {
      var other := Untouched(n, batchSize, steps);
      assert SameCalls(n, batchSize, steps, other);
      NotIdle(After(n, batchSize, other));
    }
  }

  lemma NotIdle(s: State)
    requires s.nTodo > 0
    ensures !IsIdle(s)
  {
  }

  /** Adding anything after Wait and destroying the controller at once leaves the queue busy. */
  lemma AddedLate(n: nat, batchSize: nat, steps: seq<Step>, checks: seq<bool>, wake: nat)
    requires n > 0 && Legal(n, batchSize, steps) && After(n, batchSize, steps).control == Alive(true)
    requires checks != [] && Enabled(After(n, batchSize, steps), Add(checks, wake))
    ensures var late := steps + [Add(checks, wake)] + [Destroy];
      && Legal(n, batchSize, late) && After(n, batchSize, late).control.NoControl?
      && !IsIdle(After(n, batchSize, late)) && !Legal(n, batchSize, late + [Construct])
  {
    hide Sum, AllTrue, AllSucceeding, BatchOf, Reverse, Core, Legal, After;
    InvBounds(After(n, batchSize, steps));
    Extend(n, batchSize, steps, Add(checks, wake));
    Extend(n, batchSize, steps + [Add(checks, wake)], Destroy);
    NotAgain(n, batchSize, steps + [Add(checks, wake)] + [Destroy]);
  }

  lemma NotAgain(n: nat, batchSize: nat, steps: seq<Step>)
    requires n > 0 && Legal(n, batchSize, steps) && !IsIdle(After(n, batchSize, steps))
    ensures !Legal(n, batchSize, steps + [Construct])
  {
    hide Do;
    assert (steps + [Construct])[..|steps|] == steps;
  }

  /** For example, without workers and with one check. */
  lemma AssertCanFail()
    ensures var steps := [Construct, EnterWait(false), Add([true], 0), Destroy];
      && Legal(1, 128, steps) && Pending(steps) == [true]
      && After(1, 128, steps).control.NoControl? && !IsIdle(After(1, 128, steps))
  {
    var s0 := [Construct];
    var s1 := [Construct, EnterWait(false)];
    var s2 := [Construct, EnterWait(false), Add([true], 0)];
    var s3 := [Construct, EnterWait(false), Add([true], 0), Destroy];
    assert s0[..0] == [] && s1[..1] == s0 && s2[..2] == s1 && s3[..3] == s2;
    assert Legal(1, 128, s0);
    assert After(1, 128, s0) == Init(1, 128).(control := Alive(false));
    assert Legal(1, 128, s1);
    assert After(1, 128, s1).control == Alive(true);
    assert Legal(1, 128, s2);
    assert After(1, 128, s2).nTodo == 1;
    assert Legal(1, 128, s3);
    assert Pending(s2) == [] + [true];
  }
}
