/** What holds of every run of the thread pool: when an accepted task is certain to run, and in
    which order tasks run. */
module ThreadPoolSafety {
  import opened ThreadPoolSpec

  ghost predicate Runs<T>(c: Config, s: State<T>, tr: seq<Step<T>>)
    decreases |tr|
  {
    tr != [] ==> Enabled(c, s, tr[0]) && Runs(c, Apply(c, s, tr[0]), tr[1..])
  }

  ghost function After<T>(c: Config, s: State<T>, tr: seq<Step<T>>): State<T>
    requires Runs(c, s, tr)
    decreases |tr|
  {
    if tr == [] then s else After(c, Apply(c, s, tr[0]), tr[1..])
  }

  lemma {:induction false} RunKeeps<T>(c: Config, s: State<T>, tr: seq<Step<T>>)
    requires Inv(c, s) && Runs(c, s, tr)
    ensures Inv(c, After(c, s, tr))
    decreases |tr|
  {
    if tr != [] {
      hide Inv, Apply;
      Keep(c, s, tr[0]);
      RunKeeps(c, Apply(c, s, tr[0]), tr[1..]);
    }
  }

  lemma {:induction false} RunsConcat<T>(c: Config, s: State<T>, a: seq<Step<T>>, b: seq<Step<T>>)
    requires Runs(c, s, a) && Runs(c, After(c, s, a), b)
    ensures Runs(c, s, a + b) && After(c, s, a + b) == After(c, After(c, s, a), b)
    decreases |a|
  {
    hide Apply, Enabled;
    if a == [] {
      assert a + b == b;
    } else {
      RunsConcat(c, Apply(c, s, a[0]), a[1..], b);
      assert (a + b)[0] == a[0] && (a + b)[1..] == a[1..] + b;
    }
  }

  lemma {:induction false} AwakeRun<T>(c: Config, s: State<T>, tr: seq<Step<T>>)
    requires Runs(c, s, tr) && (s.queue != [] ==> forall i :: 0 <= i < |s.workers| ==> !s.workers[i].Waiting?)
    ensures var t := After(c, s, tr);
      t.queue != [] ==> forall i :: 0 <= i < |t.workers| ==> !t.workers[i].Waiting?
    decreases |tr|
  {
    hide Apply, Enabled;
    if tr != [] {
      NoneSleeps(c, s, tr[0]);
      AwakeRun(c, Apply(c, s, tr[0]), tr[1..]);
    }
  }

  /** No lost wake-up in any run: while tasks wait, no worker sleeps. */
  lemma NoLostWakeUp<T>(c: Config, tr: seq<Step<T>>)
    requires Runs(c, Start(c), tr)
    ensures var t := After(c, Start(c), tr);
      t.queue != [] ==> forall i :: 0 <= i < |t.workers| ==> !t.workers[i].Waiting?
  {
    AwakeRun(c, Start(c), tr);
  }

  // ---- no task lost -----------------------------------------------------------------------------

  /** Enough workers that no schedule can take them all away from a waiting task: one is awake and
      on its way to the queue, or reaping cannot reach them all, or there is no reaping. */
  ghost predicate Manned<T>(c: Config, s: State<T>) {
    Tally(Engaged, s.workers) > 0 || s.exited < c.init || (c.mode.Fixed? && Tally(Live, s.workers) > 0)
  }

  /** Every task that is accepted leaves a manned pool. */
  ghost predicate Safe<T>(c: Config, s: State<T>, tr: seq<Step<T>>)
    requires Runs(c, s, tr)
    decreases |tr|
  {
    tr != [] ==>
      && (tr[0].Submit? && Accepts(c, s) ==> Manned(c, Apply(c, s, tr[0])))
      && Safe(c, Apply(c, s, tr[0]), tr[1..])
  }

  lemma MannedMoved<T>(c: Config, s: State<T>, t: State<T>, w: nat, y: Worker<T>)
    requires Manned(c, s) && w < |s.workers| && t.workers == s.workers[w := y] && t.exited == s.exited
    requires Weight(Engaged, y) >= Weight(Engaged, s.workers[w])
    requires c.mode.Fixed? ==> Weight(Live, y) >= Weight(Live, s.workers[w])
    ensures Manned(c, t)
  {
    hide Tally;
    TallySet(Engaged, s.workers, w, y);
    TallySet(Live, s.workers, w, y);
  }

  /** As long as tasks wait, no step other than a submission takes a manned pool's workers away. */
  lemma MannedKept<T>(c: Config, s: State<T>, x: Step<T>)
    requires Inv(c, s) && Enabled(c, s, x) && (s.queue != [] ==> Manned(c, s))
    requires x.Submit? && Accepts(c, s) ==> Manned(c, Apply(c, s, x))
    ensures Apply(c, s, x).queue != [] ==> Manned(c, Apply(c, s, x))
  {
    hide Tally, Carried, Inv;
    if s.queue != [] {
      match x
      case Submit(t) =>
      case Pass(w) =>
        var ws := s.workers[w := Holding(s.queue[0])];
        TallySet(Engaged, s.workers, w, ws[w]);
        TallyNotified(Engaged, ws);
      case Wake(w) => MannedMoved(c, s, Apply(c, s, x), w, Woken);
      case Reap(w) => MannedMoved(c, s, Apply(c, s, x), w, Gone);
      case Begin(w) => MannedMoved(c, s, Apply(c, s, x), w, Running(s.workers[w].task));
      case Run(w) => MannedMoved(c, s, Apply(c, s, x), w, Ran);
      case Rest(w) => MannedMoved(c, s, Apply(c, s, x), w, Ready);
      case Lock => TallyNotified(Engaged, s.workers); TallyNotified(Live, s.workers);
      case _ =>
    }
  }

  lemma {:induction false} MannedRun<T>(c: Config, s: State<T>, tr: seq<Step<T>>)
    requires Inv(c, s) && Runs(c, s, tr) && Safe(c, s, tr) && (s.queue != [] ==> Manned(c, s))
    ensures After(c, s, tr).queue != [] ==> Manned(c, After(c, s, tr))
    decreases |tr|
  {
    hide Inv, Apply, Manned, Enabled;
    if tr != [] {
      Keep(c, s, tr[0]);
      MannedKept(c, s, tr[0]);
      MannedRun(c, Apply(c, s, tr[0]), tr[1..]);
    }
  }

  lemma NoneLeft<T>(c: Config, s: State<T>)
    requires Inv(c, s) && Tally(Live, s.workers) == 0
    ensures !Manned(c, s) && Carried(s.workers) == multiset{}
  {
    BusyLive(s.workers);
    NothingCarried(s.workers);
  }

  lemma AllRan<T>(c: Config, s: State<T>)
    requires Inv(c, s) && Tally(Live, s.workers) == 0 && s.queue == []
    ensures s.popped == s.accepted && multiset(s.ran) == multiset(s.accepted)
  {
    NoneLeft(c, s);
    assert s.accepted == s.popped;
  }

  /** No lost task: if every accepted submission leaves a manned pool, then once the thread table is
      empty, which is what the destructor waits for, the tasks taken are the tasks accepted, in
      order, and each has run exactly as often as it was submitted. */
  lemma NoTaskLost<T>(c: Config, tr: seq<Step<T>>)
    requires Runs(c, Start(c), tr) && Safe(c, Start(c), tr)
    requires Empty(After(c, Start(c), tr).workers)
    ensures var s := After(c, Start(c), tr);
      s.queue == [] && s.popped == s.accepted && multiset(s.ran) == multiset(s.accepted)
  {
    hide Inv, Manned;
    StartHolds<T>(c);
    RunKeeps(c, Start(c), tr);
    MannedRun(c, Start(c), tr);
    EmptyTable(After(c, Start(c), tr).workers);
    NoneLeft(c, After(c, Start(c), tr));
    AllRan(c, After(c, Start(c), tr));
  }

  lemma {:induction false} FirstSafe<T>(c: Config, s: State<T>, tr: seq<Step<T>>)
    requires c.init >= 1 && Inv(c, s) && Runs(c, s, tr)
    requires forall i, j :: 0 <= i < j < |tr| && tr[i].Shut? ==> !tr[j].Submit?
    requires s.phase.Open? || forall i :: 0 <= i < |tr| ==> !tr[i].Submit?
    ensures Safe(c, s, tr)
    decreases |tr|
  {
    hide Inv, Apply, Enabled, Manned;
    if tr != [] {
      var t := Apply(c, s, tr[0]);
      Keep(c, s, tr[0]);
      OpenUntilShut(c, s, tr[0]);
      assert tr[0].Shut? ==> forall i :: 0 <= i < |tr[1..]| ==> !tr[1..][i].Submit?;
      FirstSafe(c, t, tr[1..]);
    }
  }

  lemma OpenUntilShut<T>(c: Config, s: State<T>, x: Step<T>)
    requires c.init >= 1 && Inv(c, s) && Enabled(c, s, x)
    ensures x.Submit? && s.phase.Open? ==> Manned(c, Apply(c, s, x))
    ensures s.phase.Open? && !x.Shut? ==> Apply(c, s, x).phase.Open?
  {
    hide Tally, Carried, Notified;
  }

  /** A pool started with at least one thread to which nothing is submitted once shutdown begins
      loses no task, in either mode and in every interleaving. */
  lemma NoTaskLostBeforeShutdown<T>(c: Config, tr: seq<Step<T>>)
    requires c.init >= 1 && Runs(c, Start(c), tr)
    requires forall i, j :: 0 <= i < j < |tr| && tr[i].Shut? ==> !tr[j].Submit?
    requires Empty(After(c, Start(c), tr).workers)
    ensures var s := After(c, Start(c), tr);
      s.popped == s.accepted && multiset(s.ran) == multiset(s.accepted)
  {
    hide Inv;
    StartHolds<T>(c);
    FirstSafe(c, Start(c), tr);
    NoTaskLost(c, tr);
  }

  /** A task submitted by a task of the pool is safe even during shutdown. */
  lemma InsideSafe<T>(c: Config, s: State<T>, w: nat, t: T)
    requires w < |s.workers| && s.workers[w].Running? && Enabled(c, s, Submit(t))
    ensures Manned(c, Apply(c, s, Submit(t)))
  {
    var ws := Apply(c, s, Submit(t)).workers;
    assert ws[w].Running?;
    TallyZero(Engaged, ws);
    assert Weight(Engaged, ws[w]) == 1;
  }

  // ---- exactly when a task can be lost ------------------------------------------------------------

  ghost predicate NoSubmit<T>(tr: seq<Step<T>>) {
    forall i :: 0 <= i < |tr| ==> !tr[i].Submit?
  }

  lemma {:induction false} NoSubmitSafe<T>(c: Config, s: State<T>, tr: seq<Step<T>>)
    requires Runs(c, s, tr) && NoSubmit(tr)
    ensures Safe(c, s, tr)
    decreases |tr|
  {
    if tr != [] {
      hide Apply, Enabled, Manned;
      assert !tr[0].Submit?;
      assert forall i :: 0 <= i < |tr[1..]| ==> tr[1..][i] == tr[i + 1];
      NoSubmitSafe(c, Apply(c, s, tr[0]), tr[1..]);
    }
  }

  lemma LiveWorker<T>(ws: seq<Worker<T>>) returns (w: nat)
    requires Tally(Live, ws) > 0
    ensures w < |ws| && !ws[w].Gone?
  {
    TallyZero(Live, ws);
    w :| 0 <= w < |ws| && Weight(Live, ws[w]) != 0;
  }

  /** In an unmanned pool with tasks waiting, a worker that wakes may be reaped. */
  lemma ReapStep<T>(c: Config, s: State<T>, w: nat)
    requires Inv(c, s) && s.queue != [] && !Manned(c, s) && w < |s.workers| && s.workers[w].Woken?
    ensures Enabled(c, s, Reap(w))
    ensures var t := Apply(c, s, Step<T>.Reap(w));
      Inv(c, t) && !Manned(c, t) && t.queue == s.queue && Tally(Live, t.workers) < Tally(Live, s.workers)
  {
    hide Tally, Carried;
    TallySet(Live, s.workers, w, Gone);
    TallySet(Engaged, s.workers, w, Gone);
    KeepMoved(c, s, Step<T>.Reap(w), w);
  }

  lemma WakeStep<T>(c: Config, s: State<T>, w: nat)
    requires Inv(c, s) && s.queue != [] && !Manned(c, s) && w < |s.workers| && s.workers[w].Waiting?
    ensures Enabled(c, s, Wake(w))
    ensures var t := Apply(c, s, Step<T>.Wake(w));
      Inv(c, t) && !Manned(c, t) && t.queue == s.queue && Tally(Live, t.workers) == Tally(Live, s.workers)
  {
    hide Tally, Carried;
    TallySet(Live, s.workers, w, Woken);
    TallySet(Engaged, s.workers, w, Woken);
    KeepMoved(c, s, Step<T>.Wake(w), w);
  }

  /** A schedule without submissions after which no worker is left and the same tasks wait. */
  ghost predicate Strands<T>(c: Config, s: State<T>, tr: seq<Step<T>>) {
    && Runs(c, s, tr) && NoSubmit(tr)
    && Tally(Live, After(c, s, tr).workers) == 0 && After(c, s, tr).queue == s.queue
  }

  lemma FirstStep<T>(c: Config, s: State<T>, x: Step<T>, r: seq<Step<T>>)
    requires Enabled(c, s, x) && !x.Submit? && Apply(c, s, x).queue == s.queue && Strands(c, Apply(c, s, x), r)
    ensures Strands(c, s, [x] + r)
  {
    hide Apply, Enabled, Tally;
    assert ([x] + r)[1..] == r;
  }

  lemma NoStep<T>(c: Config, s: State<T>)
    requires Tally(Live, s.workers) == 0
    ensures Strands(c, s, [])
  {
  }

  /** The unlucky schedule of an unmanned pool: every worker left times out and is reaped. */
  lemma {:induction false} ReapAll<T>(c: Config, s: State<T>) returns (tr: seq<Step<T>>)
    requires Inv(c, s) && s.queue != [] && !Manned(c, s)
    ensures Strands(c, s, tr)
    decreases Tally(Live, s.workers), 1
  {
    hide Inv, Manned, Apply, Tally, Enabled, Strands;
    if Tally(Live, s.workers) == 0 {
      NoStep(c, s);
      return [];
    }
    var w := SleepingWorker(c, s);
    if s.workers[w].Waiting? {
      WakeStep(c, s, w);
      WakesUp(c, s, w);
      var r := ReapOne(c, Apply(c, s, Wake(w)), w);
      FirstStep(c, s, Wake(w), r);
      tr := [Wake(w)] + r;
    } else {
      tr := ReapOne(c, s, w);
    }
  }

  lemma WakesUp<T>(c: Config, s: State<T>, w: nat)
    requires Enabled(c, s, Wake(w))
    ensures |Apply(c, s, Step<T>.Wake(w)).workers| == |s.workers| && Apply(c, s, Step<T>.Wake(w)).workers[w].Woken?
  {
  }

  lemma SleepingWorker<T>(c: Config, s: State<T>) returns (w: nat)
    requires !Manned(c, s) && Tally(Live, s.workers) > 0
    ensures w < |s.workers| && (s.workers[w].Waiting? || s.workers[w].Woken?)
  {
    w := LiveWorker(s.workers);
    TallyZero(Engaged, s.workers);
    assert Weight(Engaged, s.workers[w]) == 0;
  }

  lemma {:induction false} ReapOne<T>(c: Config, s: State<T>, w: nat) returns (tr: seq<Step<T>>)
    requires Inv(c, s) && s.queue != [] && !Manned(c, s) && w < |s.workers| && s.workers[w].Woken?
    ensures Strands(c, s, tr)
    decreases Tally(Live, s.workers), 0
  {
    hide Inv, Manned, Apply, Tally, Enabled, Strands;
    ReapStep(c, s, w);
    var r := ReapAll(c, Apply(c, s, Reap(w)));
    FirstStep(c, s, Reap(w), r);
    tr := [Reap(w)] + r;
  }

  /** From any state in which tasks wait: some schedule strands them for good exactly when the pool
      is not manned. */
  lemma LossIff<T>(c: Config, s: State<T>)
    requires Inv(c, s) && s.queue != []
    ensures !Manned(c, s) <==>
      exists tr :: Runs(c, s, tr) && NoSubmit(tr) && Empty(After(c, s, tr).workers) && After(c, s, tr).queue != []
  {
    hide Inv, Manned, Runs;
    if !Manned(c, s) {
      var tr := ReapAll(c, s);
      EmptyTable(After(c, s, tr).workers);
    } else {
      forall tr | Runs(c, s, tr) && NoSubmit(tr) && Empty(After(c, s, tr).workers)
        ensures After(c, s, tr).queue == []
      {
        NoSubmitSafe(c, s, tr);
        MannedRun(c, s, tr);
        RunKeeps(c, s, tr);
        EmptyTable(After(c, s, tr).workers);
        NoneLeft(c, After(c, s, tr));
      }
    }
  }

  // ---- order ------------------------------------------------------------------------------------

  /** One worker: what it took is what ran, then what it holds. */
  ghost predicate InTurn<T>(s: State<T>) {
    && |s.workers| == 1
    && s.popped == s.ran + if s.workers[0].Holding? || s.workers[0].Running? then [s.workers[0].task] else []
  }

  lemma TurnKept<T>(c: Config, s: State<T>, x: Step<T>)
    requires c.mode.Fixed? && Enabled(c, s, x) && InTurn(s)
    ensures InTurn(Apply(c, s, x))
  {
    hide Notified;
    OneNotified(s.workers);
    if x.Pass? && s.queue != [] { OneNotified(s.workers[x.w := Holding(s.queue[0])]); }
  }

  lemma OneNotified<T>(ws: seq<Worker<T>>)
    requires |ws| == 1
    ensures Notified(ws) == [Roused(ws[0])]
  {
  }

  lemma {:induction false} SingleRun<T>(c: Config, s: State<T>, tr: seq<Step<T>>)
    requires c.mode.Fixed? && Runs(c, s, tr) && InTurn(s)
    ensures InTurn(After(c, s, tr))
    decreases |tr|
  {
    hide Apply, Enabled, InTurn;
    if tr != [] {
      TurnKept(c, s, tr[0]);
      SingleRun(c, Apply(c, s, tr[0]), tr[1..]);
    }
  }

  /** With one worker, tasks run in the order in which they were accepted. */
  lemma SingleWorkerInOrder<T>(c: Config, tr: seq<Step<T>>)
    requires c.mode.Fixed? && c.init == 1 && Runs(c, Start(c), tr)
    ensures After(c, Start(c), tr).ran <= After(c, Start(c), tr).accepted
  {
    var s := After(c, Start(c), tr);
    StartHolds<T>(c);
    RunKeeps(c, Start(c), tr);
    SingleRun(c, Start(c), tr);
  }
}
