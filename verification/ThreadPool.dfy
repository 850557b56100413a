/** The thread pool's code, one method for each stretch that runs under the lock or between two
    accesses to shared state. Every method is the step of its name in ThreadPoolSpec. */
module ThreadPools {
  import opened ThreadPoolSpec

  class ThreadPool<T> {
    var queue: seq<T>
    var workers: seq<Worker<T>>       // the thread table, by thread id
    var current: nat
    var idle: int
    var tasks: int
    var running: bool
    var destructor: Phase
    const config: Config
    ghost var accepted: seq<T>
    ghost var popped: seq<T>
    ghost var ran: seq<T>
    ghost var exited: nat

    ghost function Snapshot(): State<T>
      reads this
    {
      State(queue, workers, destructor, current, idle, tasks, accepted, popped, ran, exited)
    }

    ghost predicate Valid()
      reads this
    {
      && Inv(config, Snapshot()) && running == destructor.Open?
      && (queue != [] ==> forall i :: 0 <= i < |workers| ==> !workers[i].Waiting?)
    }

    /** Construction and `start`: first every thread is made, then every thread is started. */
    constructor (config: Config)
      ensures Valid() && this.config == config && Snapshot() == Start(config)
      ensures |workers| == current == idle == config.init && forall i :: 0 <= i < |workers| ==> workers[i].Ready?
      ensures queue == [] && tasks == 0 && running && accepted == popped == ran == []
    {
      hide Inv;
      this.config := config;
      queue, workers, current, idle, tasks := [], [], 0, 0, 0;
      running, destructor := false, Open;
      accepted, popped, ran, exited := [], [], [], 0;
      new;
      running := true;
      current := config.init;
      CreateThreads();
      StartThreads();
      StartHolds<T>(config);
    }

    /** The first loop of `start`: a thread object for every initial thread. */
    method CreateThreads()
      requires workers == []
      modifies this`workers
      ensures workers == AllReady(config.init)
    {
      for i := 0 to config.init
        invariant workers == AllReady(i)
      {
        AllReadyNext<T>(i);
        workers := workers + [Ready];
      }
    }

    /** The second loop: every thread is started and counted as idle. */
    method StartThreads()
      modifies this`idle
      ensures idle == old(idle) + config.init
    {
      for i := 0 to config.init
        invariant idle == old(idle) + i
      {
        idle := idle + 1;
      }
    }

    /** The locked part of `submitTask`, after the wait for room: rejected if there is none. */
    method SubmitTask(t: T) returns (ok: bool)
      requires Valid() && !destructor.Destroyed?
      modifies this`queue, this`workers, this`current, this`idle, this`tasks, this`accepted
      ensures Valid() && Snapshot() == Apply(config, old(Snapshot()), Submit(t))
      ensures ok <==> |old(queue)| < config.maxTasks
      ensures queue == old(queue) + if ok then [t] else []
      ensures accepted == old(accepted) + if ok then [t] else []
      ensures forall i :: 0 <= i < |old(workers)| ==>
        i < |workers| && workers[i] == if ok && old(workers)[i].Waiting? then Woken else old(workers)[i]
      ensures var more := if ok && config.mode.Cached? && |queue| > old(idle) && old(current) < config.maxThreads then 1 else 0;
        && |workers| == |old(workers)| + more && (more == 1 ==> workers[|old(workers)|].Ready?)
        && current == old(current) + more && idle == old(idle) + more
    {
      hide Inv;
      QueueCounted(config, Snapshot());
      Keep(config, Snapshot(), Submit(t));
      if |queue| >= config.maxTasks {
        return false;
      }
      Enqueue(t);
      Grow();
      return true;
    }

    /** The task goes to the end of the queue and all waiting workers are notified. */
    method Enqueue(t: T)
      modifies this`queue, this`accepted, this`tasks, this`workers
      ensures queue == old(queue) + [t] && accepted == old(accepted) + [t] && tasks == old(tasks) + 1
      ensures workers == Notified(old(workers))
    {
      queue, accepted := queue + [t], accepted + [t];
      tasks := tasks + 1;
      workers := Notified(workers);
    }

    /** In cached mode, one more thread when more tasks than idle threads are there and the limit
        allows it. */
    method Grow()
      modifies this`workers, this`current, this`idle
      ensures if config.mode.Cached? && tasks > old(idle) && old(current) < config.maxThreads
        then workers == old(workers) + [Ready] && current == old(current) + 1 && idle == old(idle) + 1
        else workers == old(workers) && current == old(current) && idle == old(idle)
    {
      if config.mode == Cached && tasks > idle && current < config.maxThreads {
        workers := workers + [Ready];
        current := current + 1;
        idle := idle + 1;
      }
    }

    /** A worker takes the lock and goes once through the test of `threadFunc`: it leaves with a
        task, leaves the pool, or starts waiting. */
    method TakeOrLeave(w: nat)
      requires Valid() && !destructor.Destroyed? && w < |workers| && (workers[w].Ready? || workers[w].Woken?)
      modifies this`queue, this`workers, this`tasks, this`popped, this`destructor, this`exited
      ensures Valid() && Snapshot() == Apply(config, old(Snapshot()), Pass(w))
      ensures if old(queue) == []
        then queue == [] && workers == old(workers)[w := if running then Waiting else Gone]
        else
          && [workers[w].task] + queue == old(queue) && popped == old(popped) + [workers[w].task]
          && workers == old(workers)[w := Holding(old(queue)[0])]
      ensures destructor == if old(queue) == [] && !running && old(destructor).Asleep? then Awake else old(destructor)
    {
      hide Inv, Passed;
      Keep(config, Snapshot(), Step<T>.Pass(w));
      if |queue| == 0 {
        Leave(w);
      } else {
        Take(w);
      }
    }

    method Leave(w: nat)
      requires queue == [] && w < |workers| && running == destructor.Open?
      modifies this`workers, this`destructor, this`exited
      ensures Snapshot() == Passed(old(Snapshot()), w)
      ensures workers == old(workers)[w := if running then Waiting else Gone]
      ensures destructor == if !running && old(destructor).Asleep? then Awake else old(destructor)
    {
      if !running {
        workers := workers[w := Gone];
        exited := exited + 1;
        if destructor.Asleep? { destructor := Awake; }
      } else {
        workers := workers[w := Waiting];
      }
    }

    method Take(w: nat)
      requires queue != [] && w < |workers| && forall i :: 0 <= i < |workers| ==> !workers[i].Waiting?
      modifies this`queue, this`workers, this`tasks, this`popped
      ensures Snapshot() == Passed(old(Snapshot()), w)
      ensures [old(queue)[0]] + queue == old(queue) && popped == old(popped) + [old(queue)[0]]
      ensures workers == old(workers)[w := Holding(old(queue)[0])]
    {
      var task := queue[0];
      queue, popped := queue[1..], popped + [task];
      tasks := tasks - 1;
      workers := workers[w := Holding(task)];
      if |queue| != 0 {
        NobodyWaits(workers);
        workers := Notified(workers);
      }
    }

    /** A wait of a cached worker times out: it leaves if it idled for long enough and the pool has
        more threads than at the start, else it tests the queue again. */
    method TimeOut(w: nat, idledLong: bool) returns (left: bool)
      requires Valid() && !destructor.Destroyed? && config.mode.Cached? && w < |workers| && workers[w].Woken?
      modifies this`workers, this`current, this`idle
      ensures Valid() && left == (idledLong && old(current) > config.init)
      ensures left ==> workers == old(workers)[w := Gone] && current == old(current) - 1 && idle == old(idle) - 1
      ensures Snapshot() == if left then Apply(config, old(Snapshot()), Reap(w)) else old(Snapshot())
    {
      hide Inv;
      left := idledLong && current > config.init;
      if left {
        Keep(config, Snapshot(), Step<T>.Reap(w));
        workers := workers[w := Gone];
        current := current - 1;
        idle := idle - 1;
      }
    }

    /** Outside the lock, a worker takes itself off the idle count before its task, */
    method BeginTask(w: nat) returns (task: T)
      requires Valid() && !destructor.Destroyed? && w < |workers| && workers[w].Holding?
      modifies this`workers, this`idle
      ensures Valid() && Snapshot() == Apply(config, old(Snapshot()), Begin(w))
      ensures old(workers)[w] == Holding(task) && workers == old(workers)[w := Running(task)] && idle == old(idle) - 1
    {
      hide Inv;
      Keep(config, Snapshot(), Step<T>.Begin(w));
      task := workers[w].task;
      idle := idle - 1;
      workers := workers[w := Running(task)];
    }

    /** runs it, */
    method RunTask(w: nat, task: T)
      requires Valid() && !destructor.Destroyed? && w < |workers| && workers[w] == Running(task)
      modifies this`workers, this`ran
      ensures Valid() && Snapshot() == Apply(config, old(Snapshot()), Run(w))
      ensures ran == old(ran) + [task] && workers == old(workers)[w := Ran]
    {
      hide Inv;
      Keep(config, Snapshot(), Step<T>.Run(w));
      ran := ran + [task];
      workers := workers[w := Ran];
    }

    /** and puts itself back on the idle count after it. */
    method FinishTask(w: nat)
      requires Valid() && !destructor.Destroyed? && w < |workers| && workers[w].Ran?
      modifies this`workers, this`idle
      ensures Valid() && Snapshot() == Apply(config, old(Snapshot()), Rest(w))
      ensures workers == old(workers)[w := Ready] && idle == old(idle) + 1
    {
      hide Inv;
      Keep(config, Snapshot(), Step<T>.Rest(w));
      idle := idle + 1;
      workers := workers[w := Ready];
    }

    /** The destructor up to its wait: the flag, then under the lock the notification and the first
        test of the thread table. */
    method Shutdown() returns (done: bool)
      requires Valid() && destructor.Open?
      modifies this`running, this`destructor, this`workers
      ensures Valid() && !running && Snapshot() == Apply(config, Apply(config, old(Snapshot()), Shut), Lock)
      ensures done <==> forall i :: 0 <= i < |workers| ==> workers[i].Gone?
      ensures destructor == if done then Destroyed else Asleep
      ensures |workers| == |old(workers)| && forall i :: 0 <= i < |workers| ==>
        workers[i] == if old(workers)[i].Waiting? then Woken else old(workers)[i]
    {
      hide Inv;
      Keep(config, Snapshot(), Step<T>.Shut);
      Keep(config, Apply(config, Snapshot(), Shut), Step<T>.Lock);
      running := false;
      destructor := Closing;
      workers := Notified(workers);
      done := Empty(workers);
      destructor := if done then Destroyed else Asleep;
    }

    /** The destructor wakes and tests the thread table again. */
    method WaitForWorkers() returns (done: bool)
      requires Valid() && destructor.Awake?
      modifies this`destructor
      ensures Valid() && Snapshot() == Apply(config, old(Snapshot()), Recheck)
      ensures done <==> forall i :: 0 <= i < |workers| ==> workers[i].Gone?
      ensures destructor == if done then Destroyed else Asleep
    {
      hide Inv;
      Keep(config, Snapshot(), Step<T>.Recheck);
      done := Empty(workers);
      destructor := if done then Destroyed else Asleep;
    }
  }

  /** Nobody is woken where nobody waits. */
  lemma NobodyWaits<T>(ws: seq<Worker<T>>)
    requires forall i :: 0 <= i < |ws| ==> !ws[i].Waiting?
    ensures Notified(ws) == ws
  {
  }

  lemma {:induction false} AllReadyNext<T>(n: nat)
    ensures AllReady<T>(n) + [Ready] == AllReady(n + 1)
  {
    if n > 0 { AllReadyNext<T>(n - 1); }
  }
}
