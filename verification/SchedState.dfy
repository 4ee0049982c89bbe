/** Threads, queues and mutexes, and what each step of the kernel does to them. */
module SchedState {
  import opened Common
  import opened Lists

  /** The run queue, the wait queue of a mutex, or any other wait queue. */
  datatype Qid = RunQ | MutexQ(m: nat) | WaitQ(q: nat)

  datatype Status = NoState | Run | Sleep

  /**
   * `queues` lists threads from the head; `size`, `status` and `wchan` are the counters and
   * fields kept beside them. `cur` is the thread that is running. `wanted` is the mutex a thread
   * is still locking, and `held` the mutexes it has locked and not unlocked: what the thread
   * itself knows from the calls that have returned. `idle` are the threads of process 0, and
   * `unset` says that none of them has been made runnable yet.
   */
  datatype State = State(
    queues: map<Qid, seq<nat>>, size: map<Qid, int>, status: seq<Status>, wchan: seq<Option<Qid>>,
    holder: seq<Option<nat>>, cur: Option<nat>, wanted: seq<Option<nat>>, held: seq<set<nat>>,
    idle: set<nat>, unset: bool)

  // ---------------------------------------------------------------------
  // What always holds
  // ---------------------------------------------------------------------

  ghost predicate Shape(s: State) {
    && |s.status| == |s.wchan| == |s.wanted| == |s.held| && s.size.Keys == s.queues.Keys
    && RunQ in s.queues && (forall m | 0 <= m < |s.holder| :: MutexQ(m) in s.queues)
    && (forall m: nat | MutexQ(m) in s.queues :: m < |s.holder|)
  }

  /** A queue names each of its threads once, counts them, and each of them points back to it. */
  ghost predicate QueueOk(s: State, q: Qid)
    requires q in s.queues && s.size.Keys == s.queues.Keys
  {
    && Distinct(s.queues[q]) && s.size[q] == |s.queues[q]|
    && forall t: nat :: t in s.queues[q] <==> t < |s.wchan| && s.wchan[t] == Some(q)
  }

  ghost predicate QueuesOk(s: State)
    requires s.size.Keys == s.queues.Keys
  {
    && (forall q | q in s.queues :: QueueOk(s, q))
    && forall t | 0 <= t < |s.wchan| && s.wchan[t].Some? :: s.wchan[t].value in s.queues
  }

  /** Threads on the run queue, and the running thread, can run; threads on other queues sleep. */
  ghost predicate StatusOk(s: State)
    requires |s.status| == |s.wchan|
  {
    && (forall t | 0 <= t < |s.wchan| && s.wchan[t].Some? ::
      s.status[t] == if s.wchan[t] == Some(RunQ) then Run else Sleep)
    && (s.cur.Some? ==> s.cur.value < |s.wchan| && s.wchan[s.cur.value].None? && s.status[s.cur.value] == Run)
  }

  /** A mutex that is waited for has a holder, who is not waiting for it. */
  ghost predicate MutexOk(s: State, m: nat)
    requires m < |s.holder| && MutexQ(m) in s.queues
  {
    && (s.queues[MutexQ(m)] != [] ==> s.holder[m].Some?)
    && (s.holder[m].Some? ==> s.holder[m].value < |s.wchan| && s.holder[m].value !in s.queues[MutexQ(m)])
  }

  /** What a thread believes about mutexes is so. */
  ghost predicate BeliefOk(s: State, t: nat)
    requires t < |s.wchan| == |s.wanted| == |s.held|
  {
    && (forall m | m in s.held[t] :: m < |s.holder| && s.holder[m] == Some(t))
    && (s.wanted[t].Some? ==>
          var m := s.wanted[t].value;
          m < |s.holder| && m !in s.held[t] && s.wchan[t] == Some(if s.holder[m] == Some(t) then RunQ else MutexQ(m)))
    && (forall m: nat :: s.wchan[t] == Some(MutexQ(m)) ==> s.wanted[t] == Some(m))
    && (forall m | 0 <= m < |s.holder| && s.holder[m] == Some(t) :: m in s.held[t] || s.wanted[t] == Some(m))
  }

  ghost predicate Inv(s: State) {
    && Shape(s) && QueuesOk(s) && StatusOk(s)
    && (forall m | 0 <= m < |s.holder| :: MutexOk(s, m))
    && (forall t | 0 <= t < |s.wchan| :: BeliefOk(s, t))
  }

  function Qids(mutexes: nat, waits: nat): set<Qid> {
    {RunQ} + (set m: nat | m < mutexes :: MutexQ(m)) + (set q: nat | q < waits :: WaitQ(q))
  }

  /** Before any thread has started. */
  lemma FirstInv(s: State, mutexes: nat, waits: nat)
    requires s.queues.Keys == s.size.Keys == Qids(mutexes, waits) && |s.holder| == mutexes && s.cur.None?
    requires |s.status| == |s.wchan| == |s.wanted| == |s.held|
    requires forall q | q in s.queues :: s.queues[q] == [] && s.size[q] == 0
    requires forall t | 0 <= t < |s.wchan| :: s.wchan[t].None? && s.wanted[t].None? && s.held[t] == {}
    requires forall m | 0 <= m < |s.holder| :: s.holder[m].None?
    ensures Inv(s)
  {
    assert RunQ in Qids(mutexes, waits);
    forall m: nat
      ensures MutexQ(m) in s.queues <==> m < mutexes
    {
    }
    forall q | q in s.queues
      ensures QueueOk(s, q)
    {
    }
  }

  // ---------------------------------------------------------------------
  // Queue operations
  // ---------------------------------------------------------------------

  /** `ktqueue_enqueue`: to the head of the list. */
  function Enqueue(s: State, q: Qid, t: nat): State
    requires q in s.queues && q in s.size && t < |s.wchan|
  {
    s.(queues := s.queues[q := [t] + s.queues[q]], wchan := s.wchan[t := Some(q)], size := s.size[q := s.size[q] + 1])
  }

  /** `ktqueue_dequeue` of a queue that is not empty: from the end of the list. */
  function Dequeue(s: State, q: Qid): State
    requires q in s.queues && q in s.size && s.queues[q] != [] && Last(s, q) < |s.wchan|
  {
    var n := |s.queues[q]| - 1;
    s.(queues := s.queues[q := s.queues[q][..n]], wchan := s.wchan[s.queues[q][n] := None],
      size := s.size[q := s.size[q] - 1])
  }

  function Last(s: State, q: Qid): nat
    requires q in s.queues && s.queues[q] != []
  {
    s.queues[q][|s.queues[q]| - 1]
  }

  lemma EnqueueKeeps(s: State, q: Qid, t: nat)
    requires Shape(s) && QueuesOk(s) && q in s.queues && t < |s.wchan| && s.wchan[t].None?
    ensures Shape(Enqueue(s, q, t)) && QueuesOk(Enqueue(s, q, t))
  {
    var s' := Enqueue(s, q, t);
    forall p | p in s'.queues
      ensures QueueOk(s', p)
    {
      assert QueueOk(s, p);
    }
  }

  lemma DropLast(s: seq<nat>)
    requires Distinct(s) && s != []
    ensures var n := |s| - 1; Distinct(s[..n]) && forall t: nat :: t in s[..n] <==> t in s && t != s[n]
  {
    var n := |s| - 1;
    assert s == s[..n] + [s[n]];
  }

  lemma DequeueKeeps(s: State, q: Qid)
    requires Shape(s) && QueuesOk(s) && q in s.queues && s.queues[q] != []
    ensures Last(s, q) in s.queues[q] && Last(s, q) < |s.wchan| && s.wchan[Last(s, q)] == Some(q)
    ensures Shape(Dequeue(s, q)) && QueuesOk(Dequeue(s, q)) && Last(s, q) !in Dequeue(s, q).queues[q]
  {
    assert QueueOk(s, q) && Last(s, q) in s.queues[q];
    var s' := Dequeue(s, q);
    DropLast(s.queues[q]);
    forall p | p in s'.queues
      ensures QueueOk(s', p)
    {
      assert QueueOk(s, p);
    }
  }

  // ---------------------------------------------------------------------
  // The steps
  // ---------------------------------------------------------------------

  ghost predicate Waitable(s: State, q: Qid) {
    q in s.queues && s.size.Keys == s.queues.Keys && RunQ in s.queues && q != RunQ
  }

  /** The thread that has waited longest, if any, goes to the run queue. */
  ghost function Wake(s: State, q: Qid): State
    requires Shape(s) && QueuesOk(s) && Waitable(s, q)
  {
    if s.queues[q] == [] then s
    else
      DequeueKeeps(s, q);
      var t := Last(s, q);
      var s1 := Dequeue(s, q);
      Enqueue(s1.(status := s1.status[t := Run]), RunQ, t)
  }

  /** The first time that a thread of process 0 is made runnable, the run queue is set up anew. */
  predicate Resets(s: State, t: nat) { s.unset && t in s.idle }

  ghost function Reset(s: State): State {
    s.(queues := s.queues[RunQ := []], size := s.size[RunQ := 0], unset := false)
  }

  /** `sched_make_runnable` */
  ghost function MakeRunnable(s: State, t: nat): State
    requires RunQ in s.queues && RunQ in s.size && t < |s.wchan| && t < |s.status|
  {
    var s1 := if Resets(s, t) then Reset(s) else s;
    Enqueue(s1.(status := s1.status[t := Run]), RunQ, t)
  }

  lemma WakeKeeps(s: State, q: Qid)
    requires Shape(s) && QueuesOk(s) && StatusOk(s) && Waitable(s, q)
    ensures var s' := Wake(s, q); Shape(s') && QueuesOk(s') && StatusOk(s') && Waitable(s', q)
    ensures var s' := Wake(s, q);
      && s'.holder == s.holder && s'.cur == s.cur && s'.wanted == s.wanted && s'.held == s.held
      && |s'.wchan| == |s.wchan| && s'.idle == s.idle && s'.unset == s.unset
    ensures s.queues[q] != [] ==> var s' := Wake(s, q);
      && s'.queues == s.queues[q := s.queues[q][..|s.queues[q]| - 1]][RunQ := [Last(s, q)] + s.queues[RunQ]]
      && Last(s, q) < |s.wchan| && s.wchan[Last(s, q)] == Some(q) && s'.wchan == s.wchan[Last(s, q) := Some(RunQ)]
  {
    if s.queues[q] != [] {
      DequeueKeeps(s, q);
      WokenQueues(s, q, Last(s, q), Wake(s, q));
    }
  }

  lemma WokenQueues(s: State, q: Qid, t: nat, s': State)
    requires Shape(s) && QueuesOk(s) && StatusOk(s) && Waitable(s, q) && s.queues[q] != [] && t == Last(s, q)
    requires s' == Wake(s, q)
    ensures Shape(s') && QueuesOk(s') && StatusOk(s')
  {
    DequeueKeeps(s, q);
    var s1 := Dequeue(s, q);
    var s2 := s1.(status := s1.status[t := Run]);
    assert forall p | p in s2.queues :: QueueOk(s1, p) ==> QueueOk(s2, p);
    EnqueueKeeps(s2, RunQ, t);
  }
}
