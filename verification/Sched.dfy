/** The scheduler and the mutexes, as the kernel runs them. */
module Sched {
  import opened Common
  import opened SchedState
  import opened SchedSteps

  class Kernel {
    var queues: map<Qid, seq<nat>>
    var size: map<Qid, int>
    var status: seq<Status>
    var wchan: seq<Option<Qid>>
    var holder: seq<Option<nat>>
    var cur: Option<nat>
    ghost var wanted: seq<Option<nat>>
    ghost var held: seq<set<nat>>
    /** Threads of process 0, and whether one of them has yet to be made runnable for the first time. */
    const idle: set<nat>
    var unset: bool

    /** `sched_init`, `sched_queue_init` and `kmutex_init`: empty queues, free mutexes, and threads not yet started. */
    constructor (threads: nat, mutexes: nat, waits: nat, idle: set<nat>)
      ensures Inv(Now()) && |status| == threads && |holder| == mutexes && cur.None? && this.idle == idle && unset
      ensures forall t | 0 <= t < threads :: status[t] == NoState
      ensures forall q: nat | q < waits :: WaitQ(q) in queues
    {
      var ids := Qids(mutexes, waits);
      this.idle, unset := idle, true;
      ghost var none := {};
      queues, size := map q | q in ids :: [], map q | q in ids :: 0;
      status, wchan := seq(threads, _ => NoState), seq(threads, _ => None);
      holder, cur := seq(mutexes, _ => None), None;
      wanted, held := seq(threads, _ => None), seq(threads, _ => none);
      new;
      FirstInv(Now(), mutexes, waits);
    }

    ghost function Now(): State
      reads this
    {
      State(queues, size, status, wchan, holder, cur, wanted, held, idle, unset)
    }

    /** `ktqueue_enqueue` */
    method Enq(q: Qid, t: nat)
      requires q in queues && q in size && t < |wchan| && wchan[t].None?
      modifies this`queues, this`size, this`wchan
      ensures Now() == Enqueue(old(Now()), q, t)
    {
      queues := queues[q := [t] + queues[q]];
      wchan := wchan[t := Some(q)];
      size := size[q := size[q] + 1];
    }

    /** `ktqueue_dequeue` */
    method Deq(q: Qid) returns (r: Option<nat>)
      requires Shape(Now()) && QueuesOk(Now()) && q in queues
      modifies this`queues, this`size, this`wchan
      ensures old(queues)[q] == [] ==> r == None && Now() == old(Now())
      ensures old(queues)[q] != [] ==>
        r == Some(Last(old(Now()), q)) && r.value < |old(wchan)|
        && Now() == Dequeue(old(Now()), q)
    {
      if queues[q] == [] {
        return None;
      }
      DequeueKeeps(Now(), q);
      var n := |queues[q]| - 1;
      var t := queues[q][n];
      queues := queues[q := queues[q][..n]];
      wchan := wchan[t := None];
      size := size[q := size[q] - 1];
      r := Some(t);
    }

    /** `sched_sleep_on`, up to the switch to another thread. */
    method Sleeping(q: Qid)
      requires Inv(Now()) && cur.Some? && q in queues
      modifies this`queues, this`size, this`wchan, this`status, this`cur
      ensures Now() == Park(old(Now()), q, Sleep)
    {
      var t := cur.value;
      status := status[t := Sleep];
      Enq(q, t);
      cur := None;
    }

    method SleepOn(q: nat)
      requires Enabled(Now(), Step.SleepOn(q))
      modifies this`queues, this`size, this`wchan, this`status, this`cur
      ensures Now() == Next(old(Now()), Step.SleepOn(q)) && Inv(Now())
    {
      NextInv(Now(), Step.SleepOn(q));
      Sleeping(WaitQ(q));
    }

    /** `sched_wakeup_on`: wake the thread that has waited longest. */
    method Waking(q: Qid) returns (r: Option<nat>)
      requires Inv(Now()) && q in queues && q != RunQ
      modifies this`queues, this`size, this`wchan, this`status
      ensures Now() == Wake(old(Now()), q)
      ensures r == if old(queues)[q] == [] then None else Some(Last(old(Now()), q))
    {
      if queues[q] == [] {
        return None;
      }
      DequeueKeeps(Now(), q);
      r := Deq(q);
      var t := r.value;
      assert status[t] == Sleep;
      status := status[t := Run];
      Enq(RunQ, t);
    }

    method WakeupOn(q: nat) returns (r: Option<nat>)
      requires Enabled(Now(), Step.WakeupOn(q))
      modifies this`queues, this`size, this`wchan, this`status
      ensures Now() == Next(old(Now()), Step.WakeupOn(q)) && Inv(Now())
      ensures r == if old(queues)[WaitQ(q)] == [] then None else Some(Last(old(Now()), WaitQ(q)))
    {
      NextInv(Now(), Step.WakeupOn(q));
      r := Waking(WaitQ(q));
    }

    /** `sched_broadcast_on` */
    method BroadcastOn(q: nat)
      requires Enabled(Now(), Step.BroadcastOn(q))
      modifies this`queues, this`size, this`wchan, this`status
      ensures Now() == Next(old(Now()), Step.BroadcastOn(q)) && Inv(Now())
      ensures queues == old(queues)[WaitQ(q) := []][RunQ := old(queues)[WaitQ(q)] + old(queues)[RunQ]]
    {
      ghost var s0 := Now();
      BroadcastMeans(s0, WaitQ(q));
      while queues[WaitQ(q)] != []
        invariant Inv(Now()) && WaitQ(q) in queues && DoBroadcast(Now(), WaitQ(q)) == DoBroadcast(s0, WaitQ(q))
        decreases |queues[WaitQ(q)]|
      {
        WakeInv(Now(), WaitQ(q));
        WakeKeeps(Now(), WaitQ(q));
        var t := Waking(WaitQ(q));
      }
    }

    /** `kmutex_lock`, up to the switch to another thread if the mutex is taken. */
    method Lock(m: nat)
      requires Enabled(Now(), Step.Lock(m))
      modifies this
      ensures Now() == Next(old(Now()), Step.Lock(m)) && Inv(Now())
    {
      ghost var s := Now();
      NextInv(s, Step.Lock(m));
      ghost var t := cur.value;
      if holder[m] == None {
        holder := holder[m := cur];
        held := held[t := held[t] + {m}];
      } else {
        Sleeping(MutexQ(m));
        wanted := wanted[t := Some(m)];
      }
    }

    /** `kmutex_unlock` */
    method Unlock(m: nat)
      requires Enabled(Now(), Step.Unlock(m))
      modifies this
      ensures Now() == Next(old(Now()), Step.Unlock(m)) && Inv(Now()) && holder[m] != cur
    {
      ghost var s, t := Now(), cur.value;
      NextInv(s, Step.Unlock(m));
      UnlockInv(s, m);
      WakeKeeps(s, MutexQ(m));
      var next := Waking(MutexQ(m));
      holder := holder[m := next];
      held := held[t := held[t] - {m}];
    }

    /** `sched_make_runnable` */
    method Runnable(t: nat)
      requires Inv(Now()) && t < |wchan| && wchan[t].None?
      modifies this`queues, this`size, this`wchan, this`status, this`unset
      ensures Now() == MakeRunnable(old(Now()), t)
    {
      if t in idle && unset {
        queues, size := queues[RunQ := []], size[RunQ := 0];
        unset := false;
      }
      status := status[t := Run];
      Enq(RunQ, t);
    }

    /** A new thread is made runnable. */
    method Start(t: nat)
      requires Enabled(Now(), Step.Start(t))
      modifies this`queues, this`size, this`wchan, this`status, this`unset
      ensures Now() == Next(old(Now()), Step.Start(t)) && (Inv(Now()) <==> Safe(old(Now()), Step.Start(t)))
    {
      NextInv(Now(), Step.Start(t));
      assert wchan[t].None?;
      Runnable(t);
    }

    /** The running thread is made runnable, and then gives way. */
    method Yield()
      requires Enabled(Now(), Step.Yield)
      modifies this`queues, this`size, this`wchan, this`status, this`cur, this`unset
      ensures Now() == Next(old(Now()), Step.Yield) && (Inv(Now()) <==> Safe(old(Now()), Step.Yield))
    {
      NextInv(Now(), Step.Yield);
      Runnable(cur.value);
      cur := None;
    }

    /** `sched_switch`, when there is a thread to switch to. */
    method Dispatch()
      requires Enabled(Now(), Step.Dispatch)
      modifies this
      ensures Now() == Next(old(Now()), Step.Dispatch) && Inv(Now())
    {
      ghost var s := Now();
      NextInv(s, Step.Dispatch);
      DequeueKeeps(s, RunQ);
      cur := Deq(RunQ);
      ghost var t := cur.value;
      if wanted[t].Some? {
        held := held[t := held[t] + {wanted[t].value}];
      }
      wanted := wanted[t := None];
    }
  }
}
