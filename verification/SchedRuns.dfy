/** What holds over whole runs of threads and interrupts. */
module SchedRuns {
  import opened Common
  import opened SchedState
  import opened SchedSteps

  /** A step that the code allows and that is safe leads from `s` to `s'`. */
  ghost predicate Goes(s: State, step: Step, s': State) { Enabled(s, step) && Safe(s, step) && s' == Next(s, step) }

  /**
   * A run: each step is taken in the state the steps before it have led to, and is safe. Steps
   * are defined where the invariant holds; that this is everywhere is for the lemma below to say.
   */
  ghost predicate IsRun(states: seq<State>, steps: seq<Step>) {
    && |states| == |steps| + 1 && Inv(states[0])
    && forall i | 0 <= i < |steps| && Inv(states[i]) :: Goes(states[i], steps[i], states[i + 1])
  }

  /** The invariant holds all along. */
  lemma {:induction false} RunKeepsInv(states: seq<State>, steps: seq<Step>, i: nat)
    requires IsRun(states, steps) && i < |states|
    ensures Inv(states[i]) && |states[i].holder| == |states[0].holder|
  {
    if i > 0 {
      RunKeepsInv(states, steps, i - 1);
      assert Goes(states[i - 1], steps[i - 1], states[i - 1 + 1]);
      NextInv(states[i - 1], steps[i - 1]);
      SameMutexes(states[i - 1], steps[i - 1]);
    }
  }

  lemma SameMutexes(s: State, step: Step)
    requires Enabled(s, step)
    ensures |Next(s, step).holder| == |s.holder|
  {
    match step
    case BroadcastOn(q) => BroadcastMeans(s, WaitQ(q));
    case _ =>
  }

  /**
   * Two threads are started on an empty run queue, and the second is the first of process 0:
   * the first one is marked as being on the run queue, but it is not there.
   */
  lemma ThreadIsLost(s: State, a: nat, b: nat)
    requires Inv(s) && s.queues[RunQ] == [] && s.unset && a !in s.idle && b in s.idle
    requires a < |s.status| && b < |s.status| && s.status[a] == s.status[b] == NoState
    ensures var s1 := Next(s, Start(a)); IsRun([s, s1], [Start(a)]) && Enabled(s1, Start(b)) && !Safe(s1, Start(b))
    ensures var s2 := Next(Next(s, Start(a)), Start(b));
      !Inv(s2) && s2.queues[RunQ] == [b] && a < |s2.wchan| && s2.wchan[a] == Some(RunQ)
  {
    NextInv(s, Start(a));
    var s1 := Next(s, Start(a));
    assert Goes(s, Start(a), s1);
    NextInv(s1, Start(b));
  }

  /** There is such a state: the first one, with a thread of process 0 and another one. */
  lemma ThreadCanBeLost() returns (s: State)
    ensures Inv(s) && s.queues[RunQ] == [] && s.unset && s.idle == {0} && s.status == [NoState, NoState]
  {
    s := State(map[RunQ := []], map[RunQ := 0], [NoState, NoState], [None, None], [], None, [None, None], [{}, {}],
               {0}, true);
    assert Qids(0, 0) == {RunQ};
    FirstInv(s, 0, 0);
  }

  /** No two threads are inside the same mutex. */
  lemma MutualExclusion(states: seq<State>, steps: seq<Step>, i: nat, t: nat, t': nat, m: nat)
    requires IsRun(states, steps) && i < |states| && t < |states[i].held| && t' < |states[i].held|
    requires m in states[i].held[t] && m in states[i].held[t']
    ensures t == t' && m < |states[i].holder| && states[i].holder[m] == Some(t)
  {
    RunKeepsInv(states, steps, i);
    assert BeliefOk(states[i], t) && BeliefOk(states[i], t');
  }

  /** Each thread is on one queue at most. */
  lemma OneQueue(states: seq<State>, steps: seq<Step>, i: nat, t: nat, p: Qid, q: Qid)
    requires IsRun(states, steps) && i < |states| && p in states[i].queues && q in states[i].queues
    requires t in states[i].queues[p] && t in states[i].queues[q]
    ensures p == q
  {
    RunKeepsInv(states, steps, i);
    assert QueueOk(states[i], p) && QueueOk(states[i], q);
  }

  // ---------------------------------------------------------------------
  // First come, first served
  // ---------------------------------------------------------------------

  /** What one step does to the queue `q` and the holder `h` of mutex `m`. */
  ghost predicate MutexStep(step: Step, m: nat, cur: Option<nat>, q: seq<nat>, h: Option<nat>, q': seq<nat>,
    h': Option<nat>) {
    if step == Unlock(m) then
      if q == [] then q' == [] && h' == None else q' == q[..|q| - 1] && h' == Some(q[|q| - 1])
    else if step == Lock(m) && cur.Some? then
      if h == None then q' == q && h' == cur else q' == [cur.value] + q && h' == h
    else q' == q && h' == h
  }

  lemma StepOnMutex(s: State, step: Step, m: nat, s': State)
    requires Goes(s, step, s') && m < |s.holder|
    ensures MutexQ(m) in s'.queues && |s'.holder| == |s.holder|
    ensures MutexStep(step, m, s.cur, s.queues[MutexQ(m)], s.holder[m], s'.queues[MutexQ(m)], s'.holder[m])
  {
    match step
    case Unlock(k) => UnlockOnMutex(s, k, m, s');
    case Lock(k) => LockOnMutex(s, k, m, s');
    case WakeupOn(q) => WakeKeeps(s, WaitQ(q));
    case BroadcastOn(q) => BroadcastMeans(s, WaitQ(q));
    case _ => QueueOnMutex(s, step, m, s');
  }

  lemma UnlockOnMutex(s: State, k: nat, m: nat, s': State)
    requires Goes(s, Unlock(k), s') && m < |s.holder|
    ensures MutexQ(m) in s'.queues && |s'.holder| == |s.holder|
    ensures MutexStep(Unlock(k), m, s.cur, s.queues[MutexQ(m)], s.holder[m], s'.queues[MutexQ(m)], s'.holder[m])
  {
    WakeKeeps(s, MutexQ(k));
  }

  lemma LockOnMutex(s: State, k: nat, m: nat, s': State)
    requires Goes(s, Lock(k), s') && m < |s.holder|
    ensures MutexQ(m) in s'.queues && |s'.holder| == |s.holder|
    ensures MutexStep(Lock(k), m, s.cur, s.queues[MutexQ(m)], s.holder[m], s'.queues[MutexQ(m)], s'.holder[m])
  {
  }

  /** Steps that put the running thread on a queue of another kind, or take it from one. */
  lemma QueueOnMutex(s: State, step: Step, m: nat, s': State)
    requires Goes(s, step, s') && m < |s.holder| && (step.SleepOn? || step.Start? || step.Yield? || step.Dispatch?)
    ensures MutexQ(m) in s'.queues && |s'.holder| == |s.holder|
    ensures s'.queues[MutexQ(m)] == s.queues[MutexQ(m)] && s'.holder[m] == s.holder[m]
  {
  }

  ghost function Unlocks(steps: seq<Step>, m: nat): nat {
    if steps == [] then 0 else Unlocks(steps[..|steps| - 1], m) + if steps[|steps| - 1] == Unlock(m) then 1 else 0
  }

  /**
   * `u` threads of the old queue `q` have been served: the queue is what is left of it behind
   * newcomers, and the holder is the thread served last.
   */
  ghost predicate Served(q: seq<nat>, h: Option<nat>, u: nat, late: seq<nat>, q': seq<nat>, h': Option<nat>) {
    && u <= |q| && q' == late + q[..|q| - u]
    && (u > 0 ==> h' == Some(q[|q| - u]))
    && (u == 0 && q != [] ==> h' == h)
  }

  lemma ServedStep(step: Step, m: nat, cur: Option<nat>, q: seq<nat>, h: Option<nat>, u: nat, late: seq<nat>,
                   q1: seq<nat>, h1: Option<nat>, q2: seq<nat>, h2: Option<nat>, u': nat) returns (late': seq<nat>)
    requires Served(q, h, u, late, q1, h1) && MutexStep(step, m, cur, q1, h1, q2, h2)
    requires (q1 != [] ==> h1.Some?) && (q != [] ==> h.Some?)
    requires u' == u + (if step == Unlock(m) then 1 else 0) && u' <= |q|
    ensures Served(q, h, u', late', q2, h2)
  {
    late' := late;
    if step == Unlock(m) {
      assert q1[..|q1| - 1] == late + q[..|q| - u - 1];
    } else if step == Lock(m) && cur.Some? && h1.Some? {
      late' := [cur.value] + late;
      assert q2 == late' + q[..|q| - u];
    }
  }

  lemma Shorter(states: seq<State>, steps: seq<Step>, n: nat)
    requires IsRun(states, steps) && n <= |steps|
    ensures IsRun(states[..n + 1], steps[..n])
  {
  }

  /** While no more threads than were waiting at first have been served, they have been served in order. */
  lemma {:induction false} ServedInOrder(states: seq<State>, steps: seq<Step>, m: nat) returns (late: seq<nat>)
    requires IsRun(states, steps) && m < |states[0].holder|
    requires Unlocks(steps, m) <= |states[0].queues[MutexQ(m)]|
    ensures var s0, s := states[0], states[|steps|];
      Inv(s) && m < |s.holder| &&
      Served(s0.queues[MutexQ(m)], s0.holder[m], Unlocks(steps, m), late, s.queues[MutexQ(m)], s.holder[m])
    decreases |steps|
  {
    if steps == [] {
      late := [];
    } else {
      var n := |steps| - 1;
      Shorter(states, steps, n);
      late := ServedInOrder(states[..n + 1], steps[..n], m);
      var s0, s, s' := states[0], states[n], states[n + 1];
      RunKeepsInv(states, steps, n);
      assert Goes(s, steps[n], s');
      NextInv(s, steps[n]);
      StepOnMutex(s, steps[n], m, s');
      assert MutexOk(s, m) && MutexOk(s0, m);
      late := ServedStep(steps[n], m, s.cur, s0.queues[MutexQ(m)], s0.holder[m], Unlocks(steps[..n], m), late,
                         s.queues[MutexQ(m)], s.holder[m], s'.queues[MutexQ(m)], s'.holder[m], Unlocks(steps, m));
    }
  }

  /** The k-th thread in the queue waits through k - 1 unlocks and has the mutex after the k-th, whoever comes later. */
  lemma KthWaiter(states: seq<State>, steps: seq<Step>, m: nat, k: nat)
    requires IsRun(states, steps) && m < |states[0].holder| && 1 <= k <= |states[0].queues[MutexQ(m)]|
    ensures var q, s := states[0].queues[MutexQ(m)], states[|steps|];
      && (Unlocks(steps, m) < k ==>
        Inv(s) && m < |s.holder| && q[|q| - k] in s.queues[MutexQ(m)]
        && s.holder[m] != Some(q[|q| - k]))
      && (Unlocks(steps, m) == k ==> m < |s.holder| && s.holder[m] == Some(q[|q| - k]))
  {
    var q, s, u := states[0].queues[MutexQ(m)], states[|steps|], Unlocks(steps, m);
    if u <= k {
      var late := ServedInOrder(states, steps, m);
      if u < k {
        assert q[|q| - k] == q[..|q| - u][|q| - k];
        assert q[|q| - k] in q[..|q| - u];
        assert MutexOk(s, m);
      }
    }
  }

  // ---------------------------------------------------------------------
  // First on the run queue, first to run
  // ---------------------------------------------------------------------

  ghost function Dispatches(steps: seq<Step>): nat {
    if steps == [] then 0 else Dispatches(steps[..|steps| - 1]) + if steps[|steps| - 1] == Dispatch then 1 else 0
  }

  /** A dispatch takes the end of the run queue, and every other step only puts threads in front of what is there. */
  lemma StepOnRunQueue(s: State, step: Step, s': State) returns (more: seq<nat>)
    requires Goes(s, step, s')
    ensures RunQ in s.queues && RunQ in s'.queues
    ensures step == Dispatch ==>
      var q := s.queues[RunQ]; q != [] && s'.queues[RunQ] == q[..|q| - 1] && s'.cur == Some(q[|q| - 1])
    ensures step != Dispatch ==> s'.queues[RunQ] == more + s.queues[RunQ]
  {
    var q := s.queues[RunQ];
    match step
    case Lock(m) =>
      more := [];
      assert more + q == q;
    case Unlock(m) => more := WakeOnRunQueue(s, MutexQ(m));
    case SleepOn(_) =>
      more := [];
      assert more + q == q;
    case WakeupOn(w) => more := WakeOnRunQueue(s, WaitQ(w));
    case BroadcastOn(w) =>
      more := s.queues[WaitQ(w)];
      BroadcastMeans(s, WaitQ(w));
    case Start(t) => more := [t];
    case Yield => more := [s.cur.value];
    case Dispatch => more := [];
  }

  lemma WakeOnRunQueue(s: State, w: Qid) returns (more: seq<nat>)
    requires Inv(s) && w in s.queues && w != RunQ
    ensures Wake(s, w).queues[RunQ] == more + s.queues[RunQ]
  {
    WakeKeeps(s, w);
    if s.queues[w] == [] {
      more := [];
      assert more + s.queues[RunQ] == s.queues[RunQ];
    } else {
      more := [Last(s, w)];
    }
  }

  /** While no more dispatches than threads were there at first: the queue is what is left of them behind newcomers. */
  lemma {:induction false} RunInOrder(states: seq<State>, steps: seq<Step>) returns (late: seq<nat>)
    requires IsRun(states, steps) && RunQ in states[0].queues && Dispatches(steps) <= |states[0].queues[RunQ]|
    ensures var q, s := states[0].queues[RunQ], states[|steps|];
      Inv(s) && RunQ in s.queues && s.queues[RunQ] == late + q[..|q| - Dispatches(steps)]
    decreases |steps|
  {
    var q := states[0].queues[RunQ];
    if steps == [] {
      late := [];
      assert late + q[..|q|] == q;
    } else {
      var n := |steps| - 1;
      Shorter(states, steps, n);
      late := RunInOrder(states[..n + 1], steps[..n]);
      assert Goes(states[n], steps[n], states[n + 1]);
      late := RunStep(states[n], steps[n], states[n + 1], q, Dispatches(steps[..n]), late);
    }
  }

  lemma RunStep(s: State, step: Step, s': State, q: seq<nat>, u: nat, late: seq<nat>) returns (late': seq<nat>)
    requires Goes(s, step, s') && RunQ in s.queues
    requires u + (if step == Dispatch then 1 else 0) <= |q| && s.queues[RunQ] == late + q[..|q| - u]
    ensures Inv(s') && RunQ in s'.queues
    ensures s'.queues[RunQ] == late' + q[..|q| - (u + if step == Dispatch then 1 else 0)]
  {
    NextInv(s, step);
    var more := StepOnRunQueue(s, step, s');
    late' := Shrunk(q, u, late, more, step == Dispatch, s.queues[RunQ], s'.queues[RunQ]);
  }

  /** The k-th thread on the run queue stays through k - 1 dispatches, and the k-th runs it, whoever comes later. */
  lemma {:induction false} KthToRun(states: seq<State>, steps: seq<Step>, k: nat)
    requires IsRun(states, steps) && RunQ in states[0].queues && 1 <= k <= |states[0].queues[RunQ]|
    ensures var q, s := states[0].queues[RunQ], states[|steps|];
      && (Dispatches(steps) < k ==> RunQ in s.queues && q[|q| - k] in s.queues[RunQ])
      && (Dispatches(steps) == k && steps[|steps| - 1] == Dispatch ==> s.cur == Some(q[|q| - k]))
  {
    var q, u := states[0].queues[RunQ], Dispatches(steps);
    if u < k {
      var late := RunInOrder(states, steps);
      StillThere(q, u, k, late);
    } else if u == k && steps[|steps| - 1] == Dispatch {
      RunsInTurn(states, steps, k);
    }
  }

  lemma {:induction false} RunsInTurn(states: seq<State>, steps: seq<Step>, k: nat)
    requires IsRun(states, steps) && RunQ in states[0].queues && 1 <= k <= |states[0].queues[RunQ]|
    requires Dispatches(steps) == k && steps[|steps| - 1] == Dispatch
    ensures var q := states[0].queues[RunQ]; states[|steps|].cur == Some(q[|q| - k])
  {
    var q, n := states[0].queues[RunQ], |steps| - 1;
    Shorter(states, steps, n);
    var late := RunInOrder(states[..n + 1], steps[..n]);
    EndOfRest(q, k, late);
    assert Goes(states[n], steps[n], states[n + 1]);
    var more := StepOnRunQueue(states[n], steps[n], states[n + 1]);
  }

  lemma StillThere(q: seq<nat>, u: nat, k: nat, late: seq<nat>)
    requires u < k <= |q|
    ensures q[|q| - k] in late + q[..|q| - u]
  {
    assert (late + q[..|q| - u])[|late| + |q| - k] == q[|q| - k];
  }

  lemma EndOfRest(q: seq<nat>, k: nat, late: seq<nat>)
    requires 1 <= k <= |q|
    ensures var rest := late + q[..|q| - (k - 1)]; rest != [] && rest[|rest| - 1] == q[|q| - k]
  {
  }

  // ---------------------------------------------------------------------
  // First asleep, first woken
  // ---------------------------------------------------------------------

  ghost function Wakeups(steps: seq<Step>, w: nat): nat {
    if steps == [] then 0 else Wakeups(steps[..|steps| - 1], w) + if steps[|steps| - 1] == WakeupOn(w) then 1 else 0
  }

  /** A wakeup moves the end of the queue to the run queue; other steps but a broadcast only put threads in front. */
  lemma StepOnWaitQueue(s: State, step: Step, w: nat, s': State) returns (more: seq<nat>)
    requires Goes(s, step, s') && WaitQ(w) in s.queues && step != BroadcastOn(w)
    ensures WaitQ(w) in s'.queues && RunQ in s'.queues
    ensures step == WakeupOn(w) && s.queues[WaitQ(w)] != [] ==>
      var q := s.queues[WaitQ(w)];
      s'.queues[WaitQ(w)] == q[..|q| - 1] && s'.queues[RunQ] == [q[|q| - 1]] + s.queues[RunQ]
    ensures step != WakeupOn(w) ==> s'.queues[WaitQ(w)] == more + s.queues[WaitQ(w)]
  {
    var q := s.queues[WaitQ(w)];
    if step == WakeupOn(w) {
      WakeKeeps(s, WaitQ(w));
      more := [];
    } else if step == SleepOn(w) {
      more := [s.cur.value];
    } else {
      ElsewhereOnWaitQueue(s, step, w, s');
      more := [];
      assert more + q == q;
    }
  }

  lemma ElsewhereOnWaitQueue(s: State, step: Step, w: nat, s': State)
    requires Goes(s, step, s') && WaitQ(w) in s.queues
    requires step != BroadcastOn(w) && step != WakeupOn(w) && step != SleepOn(w)
    ensures WaitQ(w) in s'.queues && RunQ in s'.queues && s'.queues[WaitQ(w)] == s.queues[WaitQ(w)]
  {
    match step
    case Unlock(m) => WakeElsewhere(s, MutexQ(m), WaitQ(w));
    case WakeupOn(x) => WakeElsewhere(s, WaitQ(x), WaitQ(w));
    case BroadcastOn(x) => BroadcastMeans(s, WaitQ(x));
    case _ => QueueElsewhere(s, step, w, s');
  }

  lemma WakeElsewhere(s: State, x: Qid, y: Qid)
    requires Inv(s) && x in s.queues && x != RunQ && y in s.queues && y != x && y != RunQ
    ensures var s' := Wake(s, x); y in s'.queues && RunQ in s'.queues && s'.queues[y] == s.queues[y]
  {
    WakeKeeps(s, x);
  }

  lemma QueueElsewhere(s: State, step: Step, w: nat, s': State)
    requires Goes(s, step, s') && WaitQ(w) in s.queues && step != SleepOn(w)
    requires step.Lock? || step.SleepOn? || step.Start? || step.Yield? || step.Dispatch?
    ensures WaitQ(w) in s'.queues && RunQ in s'.queues && s'.queues[WaitQ(w)] == s.queues[WaitQ(w)]
  {
  }

  /** Without a broadcast and with no more wakeups than there were sleepers, those have been woken in order. */
  lemma {:induction false} WokenInOrder(states: seq<State>, steps: seq<Step>, w: nat) returns (late: seq<nat>)
    requires IsRun(states, steps) && WaitQ(w) in states[0].queues && BroadcastOn(w) !in steps
    requires Wakeups(steps, w) <= |states[0].queues[WaitQ(w)]|
    ensures var q, s := states[0].queues[WaitQ(w)], states[|steps|];
      Inv(s) && WaitQ(w) in s.queues && s.queues[WaitQ(w)] == late + q[..|q| - Wakeups(steps, w)]
    decreases |steps|
  {
    var q := states[0].queues[WaitQ(w)];
    if steps == [] {
      late := [];
      assert late + q[..|q|] == q;
    } else {
      var n := |steps| - 1;
      Shorter(states, steps, n);
      late := WokenInOrder(states[..n + 1], steps[..n], w);
      assert Goes(states[n], steps[n], states[n + 1]);
      late := WokenStep(states[n], steps[n], w, states[n + 1], q, Wakeups(steps[..n], w), late);
    }
  }

  lemma WokenStep(s: State, step: Step, w: nat, s': State, q: seq<nat>, u: nat, late: seq<nat>)
    returns (late': seq<nat>)
    requires Goes(s, step, s') && WaitQ(w) in s.queues && step != BroadcastOn(w)
    requires u + (if step == WakeupOn(w) then 1 else 0) <= |q| && s.queues[WaitQ(w)] == late + q[..|q| - u]
    ensures Inv(s') && WaitQ(w) in s'.queues
    ensures s'.queues[WaitQ(w)] == late' + q[..|q| - (u + if step == WakeupOn(w) then 1 else 0)]
  {
    NextInv(s, step);
    var more := StepOnWaitQueue(s, step, w, s');
    late' := Shrunk(q, u, late, more, step == WakeupOn(w), s.queues[WaitQ(w)], s'.queues[WaitQ(w)]);
  }

  /** A queue that is what is left of `q` behind newcomers loses its end, or has more put in front of it. */
  lemma Shrunk(q: seq<nat>, u: nat, late: seq<nat>, more: seq<nat>, taken: bool, q1: seq<nat>, q2: seq<nat>)
    returns (late': seq<nat>)
    requires u + (if taken then 1 else 0) <= |q| && q1 == late + q[..|q| - u]
    requires if taken then q1 != [] ==> q2 == q1[..|q1| - 1] else q2 == more + q1
    ensures q2 == late' + q[..|q| - (u + if taken then 1 else 0)]
  {
    if taken {
      late' := late;
      assert q1[..|q1| - 1] == late + q[..|q| - u - 1];
    } else {
      late' := more + late;
      assert more + (late + q[..|q| - u]) == more + late + q[..|q| - u];
    }
  }

  /** The k-th sleeper sleeps through k - 1 wakeups, and the k-th puts it on the run queue. */
  lemma {:induction false} KthToWake(states: seq<State>, steps: seq<Step>, w: nat, k: nat)
    requires IsRun(states, steps) && WaitQ(w) in states[0].queues && BroadcastOn(w) !in steps
    requires 1 <= k <= |states[0].queues[WaitQ(w)]|
    ensures var q, s := states[0].queues[WaitQ(w)], states[|steps|];
      && (Wakeups(steps, w) < k ==> WaitQ(w) in s.queues && q[|q| - k] in s.queues[WaitQ(w)])
      && (Wakeups(steps, w) == k && steps[|steps| - 1] == WakeupOn(w) ==>
            RunQ in s.queues && s.queues[RunQ] != [] && s.queues[RunQ][0] == q[|q| - k])
  {
    var q, u, n := states[0].queues[WaitQ(w)], Wakeups(steps, w), |steps| - 1;
    if u < k {
      var late := WokenInOrder(states, steps, w);
      StillThere(q, u, k, late);
    } else if u == k && steps[n] == WakeupOn(w) {
      Shorter(states, steps, n);
      var late := WokenInOrder(states[..n + 1], steps[..n], w);
      EndOfRest(q, k, late);
      RunKeepsInv(states, steps, n);
      assert Goes(states[n], WakeupOn(w), states[n + 1]);
      var more := StepOnWaitQueue(states[n], WakeupOn(w), w, states[n + 1]);
    }
  }
}
