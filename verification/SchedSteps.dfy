/** The steps of threads and interrupts, and the invariant they keep. */
module SchedSteps {
  import opened Common
  import opened SchedState

  datatype Step = Lock(m: nat) | Unlock(m: nat) | SleepOn(q: nat) | WakeupOn(q: nat) | BroadcastOn(q: nat)
                | Start(t: nat) | Yield | Dispatch

  /** What the code demands of its callers, through its assertions. */
  ghost predicate Enabled(s: State, step: Step) {
    Inv(s) &&
    match step
    case Lock(m) => s.cur.Some? && m < |s.holder| && s.holder[m] != s.cur
    case Unlock(m) => s.cur.Some? && m < |s.holder| && s.holder[m] == s.cur
    case SleepOn(q) => s.cur.Some? && WaitQ(q) in s.queues
    case WakeupOn(q) => WaitQ(q) in s.queues
    case BroadcastOn(q) => WaitQ(q) in s.queues
    case Start(t) => t < |s.status| && s.status[t] == NoState
    case Yield => s.cur.Some?
    case Dispatch => s.cur.None? && s.queues[RunQ] != []
  }

  /** The running thread goes onto a queue. */
  ghost function Park(s: State, q: Qid, status: Status): State
    requires Inv(s) && s.cur.Some? && q in s.queues
  {
    var t := s.cur.value;
    Enqueue(s.(status := s.status[t := status], cur := None), q, t)
  }

  /** `kmutex_lock` */
  ghost function DoLock(s: State, m: nat): State
    requires Enabled(s, Lock(m))
  {
    var t := s.cur.value;
    if s.holder[m].None? then s.(holder := s.holder[m := Some(t)], held := s.held[t := s.held[t] + {m}])
    else Park(s, MutexQ(m), Sleep).(wanted := s.wanted[t := Some(m)])
  }

  /** `kmutex_unlock`: the mutex passes to the thread that has waited longest. */
  ghost function DoUnlock(s: State, m: nat): State
    requires Enabled(s, Unlock(m))
  {
    var t, q := s.cur.value, MutexQ(m);
    var next := if s.queues[q] == [] then None else Some(Last(s, q));
    Wake(s, q).(holder := s.holder[m := next], held := s.held[t := s.held[t] - {m}])
  }

  /** `sched_broadcast_on` */
  ghost function DoBroadcast(s: State, q: Qid): State
    requires Inv(s) && q.WaitQ? && q in s.queues
    decreases |s.queues[q]|
  {
    if s.queues[q] == [] then s else (WakeInv(s, q); DoBroadcast(Wake(s, q), q))
  }

  /**
   * The scheduler's choice: the thread that has been on the run queue longest; it may return from
   * `kmutex_lock` with this.
   */
  ghost function DoDispatch(s: State): State
    requires Enabled(s, Dispatch)
  {
    DequeueKeeps(s, RunQ);
    var t := Last(s, RunQ);
    var s1 := Dequeue(s, RunQ).(cur := Some(t), wanted := s.wanted[t := None]);
    if s.wanted[t].Some? then s1.(held := s.held[t := s.held[t] + {s.wanted[t].value}]) else s1
  }

  /** A step that does not set up anew a run queue with threads on it. */
  ghost predicate Safe(s: State, step: Step)
    requires Enabled(s, step)
  {
    match step
    case Start(t) => Resets(s, t) ==> s.queues[RunQ] == []
    case Yield => Resets(s, s.cur.value) ==> s.queues[RunQ] == []
    case _ => true
  }

  ghost function Next(s: State, step: Step): State
    requires Enabled(s, step)
  {
    match step
    case Lock(m) => DoLock(s, m)
    case Unlock(m) => DoUnlock(s, m)
    case SleepOn(q) => Park(s, WaitQ(q), Sleep)
    case WakeupOn(q) => Wake(s, WaitQ(q))
    case BroadcastOn(q) => DoBroadcast(s, WaitQ(q))
    case Start(t) => MakeRunnable(s, t)
    case Yield => MakeRunnable(s.(cur := None), s.cur.value)
    case Dispatch => DoDispatch(s)
  }

  // ---------------------------------------------------------------------
  // Every step keeps the invariant
  // ---------------------------------------------------------------------

  lemma WakeInv(s: State, q: Qid)
    requires Inv(s) && q.WaitQ? && q in s.queues
    ensures Inv(Wake(s, q)) && q in Wake(s, q).queues
    ensures s.queues[q] != [] ==> |Wake(s, q).queues[q]| == |s.queues[q]| - 1
  {
    var s' := Wake(s, q);
    WakeKeeps(s, q);
    if s.queues[q] != [] {
      forall m | 0 <= m < |s'.holder|
        ensures MutexOk(s', m)
      {
        assert MutexOk(s, m);
      }
      forall t | 0 <= t < |s'.wchan|
        ensures BeliefOk(s', t)
      {
        assert BeliefOk(s, t);
      }
    }
  }

  lemma ParkKeeps(s: State, q: Qid, status: Status)
    requires Inv(s) && s.cur.Some? && q in s.queues && status == if q == RunQ then Run else Sleep
    ensures var s' := Park(s, q, status); Shape(s') && QueuesOk(s') && StatusOk(s')
  {
    var t := s.cur.value;
    var s1 := s.(status := s.status[t := status], cur := None);
    assert forall p | p in s1.queues :: QueueOk(s, p) ==> QueueOk(s1, p);
    EnqueueKeeps(s1, q, t);
  }

  lemma ParkInv(s: State, q: Qid, status: Status)
    requires Inv(s) && s.cur.Some? && q in s.queues && !q.MutexQ? && status == if q == RunQ then Run else Sleep
    ensures Inv(Park(s, q, status))
  {
    var s' := Park(s, q, status);
    ParkKeeps(s, q, status);
    forall m | 0 <= m < |s'.holder|
      ensures MutexOk(s', m)
    {
      assert MutexOk(s, m);
    }
    forall t | 0 <= t < |s'.wchan|
      ensures BeliefOk(s', t)
    {
      assert BeliefOk(s, t);
    }
  }

  /** Queues and status do not depend on who holds what. */
  lemma SameQueues(s: State, s': State)
    requires Shape(s) && QueuesOk(s) && StatusOk(s)
    requires s'.queues == s.queues && s'.size == s.size && s'.status == s.status && s'.wchan == s.wchan
      && s'.cur == s.cur
    requires |s'.holder| == |s.holder| && |s'.wanted| == |s.wanted| && |s'.held| == |s.held|
    ensures Shape(s') && QueuesOk(s') && StatusOk(s')
  {
    forall p | p in s'.queues
      ensures QueueOk(s', p)
    {
      assert QueueOk(s, p);
    }
  }

  lemma LockInv(s: State, m: nat)
    requires Enabled(s, Lock(m))
    ensures Inv(DoLock(s, m))
  {
    var s' := DoLock(s, m);
    assert BeliefOk(s, s.cur.value) && MutexOk(s, m);
    if s.holder[m].None? {
      SameQueues(s, s');
    } else {
      ParkKeeps(s, MutexQ(m), Sleep);
      SameQueues(Park(s, MutexQ(m), Sleep), s');
    }
    LockMutexes(s, m);
    LockBeliefs(s, m);
  }

  lemma LockMutexes(s: State, m: nat)
    requires Enabled(s, Lock(m))
    ensures var s' := DoLock(s, m); Shape(s') ==> forall k | 0 <= k < |s'.holder| :: MutexOk(s', k)
  {
    var s' := DoLock(s, m);
    if Shape(s') {
      forall k | 0 <= k < |s'.holder|
        ensures MutexOk(s', k)
      {
        assert MutexOk(s, k) && QueueOk(s, MutexQ(k));
      }
    }
  }

  lemma LockBeliefs(s: State, m: nat)
    requires Enabled(s, Lock(m))
    ensures var s' := DoLock(s, m); Shape(s') ==> forall x | 0 <= x < |s'.wchan| :: BeliefOk(s', x)
  {
    var s' := DoLock(s, m);
    assert BeliefOk(s, s.cur.value);
    if Shape(s') {
      forall x | 0 <= x < |s'.wchan|
        ensures BeliefOk(s', x)
      {
        assert BeliefOk(s, x);
      }
    }
  }

  lemma UnlockInv(s: State, m: nat)
    requires Enabled(s, Unlock(m))
    ensures Inv(DoUnlock(s, m))
    ensures DoUnlock(s, m).holder[m] != s.cur
  {
    var q := MutexQ(m);
    WakeKeeps(s, q);
    SameQueues(Wake(s, q), DoUnlock(s, m));
    UnlockMutexes(s, m);
    UnlockBeliefs(s, m);
    assert MutexOk(s, m);
    if s.queues[q] != [] {
      DequeueKeeps(s, q);
    }
  }

  lemma UnlockMutexes(s: State, m: nat)
    requires Enabled(s, Unlock(m)) && QueuesOk(DoUnlock(s, m)) && Shape(DoUnlock(s, m))
    ensures var s' := DoUnlock(s, m); forall k | 0 <= k < |s'.holder| :: MutexOk(s', k)
  {
    var s', q := DoUnlock(s, m), MutexQ(m);
    WakeKeeps(s, q);
    forall k | 0 <= k < |s'.holder|
      ensures MutexOk(s', k)
    {
      assert MutexOk(s, k) && QueueOk(s', MutexQ(k));
    }
  }

  lemma UnlockBeliefs(s: State, m: nat)
    requires Enabled(s, Unlock(m)) && Shape(DoUnlock(s, m))
    ensures var s' := DoUnlock(s, m); forall x | 0 <= x < |s'.wchan| :: BeliefOk(s', x)
  {
    var s', q := DoUnlock(s, m), MutexQ(m);
    WakeKeeps(s, q);
    assert QueueOk(s, q);
    forall x | 0 <= x < |s'.wchan|
      ensures BeliefOk(s', x)
    {
      assert BeliefOk(s, x) && BeliefOk(s, s.cur.value) && (s'.holder[m].Some? ==> BeliefOk(s, s'.holder[m].value));
      UnlockBelief(s, s', m, x, s.cur.value, s'.holder[m]);
    }
  }

  /** Thread `t` has passed mutex `m` on to `next`. */
  lemma UnlockBelief(s: State, s': State, m: nat, x: nat, t: nat, next: Option<nat>)
    requires |s.wchan| == |s.wanted| == |s.held| == |s'.wchan| && x < |s.wchan| && t < |s.wchan| && m < |s.holder|
    requires s.holder[m] == Some(t) && s.wchan[t].None?
    requires s'.holder == s.holder[m := next] && s'.held == s.held[t := s.held[t] - {m}] && s'.wanted == s.wanted
    requires
      if next.None? then
        s'.wchan == s.wchan && forall y | 0 <= y < |s.wchan| :: s.wchan[y] != Some(MutexQ(m))
      else
        && next.value < |s.wchan| && s.wchan[next.value] == Some(MutexQ(m))
        && s'.wchan == s.wchan[next.value := Some(RunQ)]
    requires BeliefOk(s, x) && BeliefOk(s, t) && (next.Some? ==> BeliefOk(s, next.value))
    ensures BeliefOk(s', x)
  {
  }

  /** A thread that is on no queue and not running is made runnable. */
  lemma RunnableInv(s: State, t: nat)
    requires Inv(s) && t < |s.wchan| && s.wchan[t].None? && s.cur != Some(t)
    ensures Inv(MakeRunnable(s, t)) <==> (Resets(s, t) ==> s.queues[RunQ] == [])
  {
    assert QueueOk(s, RunQ);
    if !Resets(s, t) {
      EnqueuedInv(s, t, MakeRunnable(s, t));
    } else if s.queues[RunQ] == [] {
      assert Reset(s) == s.(unset := false);
      FlagInv(s);
      EnqueuedInv(s.(unset := false), t, MakeRunnable(s, t));
    } else {
      LostThread(s, t);
    }
  }

  lemma FlagInv(s: State)
    requires Inv(s)
    ensures Inv(s.(unset := false))
  {
    var s' := s.(unset := false);
    SameQueues(s, s');
    forall m | 0 <= m < |s'.holder|
      ensures MutexOk(s', m)
    {
      assert MutexOk(s, m);
    }
    forall x | 0 <= x < |s'.wchan|
      ensures BeliefOk(s', x)
    {
      assert BeliefOk(s, x);
    }
  }

  lemma EnqueuedInv(s: State, t: nat, s': State)
    requires Inv(s) && t < |s.wchan| && s.wchan[t].None? && s.cur != Some(t)
    requires s' == Enqueue(s.(status := s.status[t := Run]), RunQ, t)
    ensures Inv(s')
  {
    var s1 := s.(status := s.status[t := Run]);
    assert forall p | p in s1.queues :: QueueOk(s, p) ==> QueueOk(s1, p);
    EnqueueKeeps(s1, RunQ, t);
    forall m | 0 <= m < |s'.holder|
      ensures MutexOk(s', m)
    {
      assert MutexOk(s, m);
    }
    forall x | 0 <= x < |s'.wchan|
      ensures BeliefOk(s', x)
    {
      assert BeliefOk(s, x);
    }
  }

  /** A thread that was on the run queue is on it no more, though it is marked so. */
  lemma LostThread(s: State, t: nat)
    requires Inv(s) && t < |s.wchan| && s.wchan[t].None? && Resets(s, t) && s.queues[RunQ] != []
    ensures !Inv(MakeRunnable(s, t))
  {
    var s', x := MakeRunnable(s, t), s.queues[RunQ][0];
    assert QueueOk(s, RunQ) && x in s.queues[RunQ];
    assert s'.queues[RunQ] == [t] && s'.wchan[x] == Some(RunQ) && x !in s'.queues[RunQ];
    assert !QueueOk(s', RunQ);
  }

  lemma YieldInv(s: State)
    requires Enabled(s, Yield)
    ensures Inv(Next(s, Yield)) <==> Safe(s, Yield)
  {
    var t, s1 := s.cur.value, s.(cur := None);
    forall p | p in s1.queues
      ensures QueueOk(s1, p)
    {
      assert QueueOk(s, p);
    }
    forall m | 0 <= m < |s1.holder|
      ensures MutexOk(s1, m)
    {
      assert MutexOk(s, m);
    }
    forall x | 0 <= x < |s1.wchan|
      ensures BeliefOk(s1, x)
    {
      assert BeliefOk(s, x);
    }
    RunnableInv(s1, t);
  }

  /** A thread that returns from `kmutex_lock` after sleeping is the holder. */
  lemma DispatchInv(s: State)
    requires Enabled(s, Dispatch)
    ensures Inv(DoDispatch(s))
  {
    DequeueKeeps(s, RunQ);
    var t := Last(s, RunQ);
    var s1 := Dequeue(s, RunQ);
    var s' := DoDispatch(s);
    forall p | p in s'.queues
      ensures QueueOk(s', p)
    {
      assert QueueOk(s1, p);
    }
    assert BeliefOk(s, t);
    forall m | 0 <= m < |s'.holder|
      ensures MutexOk(s', m)
    {
      assert MutexOk(s, m);
    }
    forall x | 0 <= x < |s'.wchan|
      ensures BeliefOk(s', x)
    {
      DispatchBelief(s, s', x);
    }
  }

  lemma DispatchBelief(s: State, s': State, x: nat)
    requires Enabled(s, Dispatch) && s' == DoDispatch(s) && x < |s'.wchan| == |s'.wanted| == |s'.held|
    ensures BeliefOk(s', x)
  {
    DequeueKeeps(s, RunQ);
    assert BeliefOk(s, Last(s, RunQ)) && BeliefOk(s, x);
  }

  /** A broadcast puts the whole queue onto the run queue, in its order. */
  lemma {:induction false} BroadcastMeans(s: State, q: Qid)
    requires Inv(s) && q.WaitQ? && q in s.queues
    ensures Inv(DoBroadcast(s, q))
    ensures DoBroadcast(s, q).queues == s.queues[q := []][RunQ := s.queues[q] + s.queues[RunQ]]
    ensures DoBroadcast(s, q).holder == s.holder
    decreases |s.queues[q]|
  {
    if s.queues[q] == [] {
      assert [] + s.queues[RunQ] == s.queues[RunQ];
    } else {
      WakeInv(s, q);
      WakeKeeps(s, q);
      BroadcastMeans(Wake(s, q), q);
      BroadcastQueues(s.queues, Wake(s, q).queues, q);
    }
  }

  lemma BroadcastQueues(queues: map<Qid, seq<nat>>, w: map<Qid, seq<nat>>, q: Qid)
    requires q in queues && RunQ in queues && q != RunQ && queues[q] != []
    requires var n := |queues[q]| - 1; w == queues[q := queues[q][..n]][RunQ := [queues[q][n]] + queues[RunQ]]
    ensures w[q := []][RunQ := w[q] + w[RunQ]] == queues[q := []][RunQ := queues[q] + queues[RunQ]]
  {
    assert w[q] + w[RunQ] == queues[q] + queues[RunQ];
  }

  /** The invariant of the whole system: a step keeps it if and only if it is safe. */
  lemma NextInv(s: State, step: Step)
    requires Enabled(s, step)
    ensures Inv(Next(s, step)) <==> Safe(s, step)
  {
    match step
    case Lock(m) => LockInv(s, m);
    case Unlock(m) => UnlockInv(s, m);
    case SleepOn(q) => ParkInv(s, WaitQ(q), Sleep);
    case WakeupOn(q) => WakeInv(s, WaitQ(q));
    case BroadcastOn(q) => BroadcastMeans(s, WaitQ(q));
    case Start(t) => RunnableInv(s, t);
    case Yield => YieldInv(s);
    case Dispatch => DispatchInv(s);
  }
}
