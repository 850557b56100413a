/** How the destructor ends: it always comes to rest, and exactly which configurations let it sleep
    on an empty thread table. */
module ThreadPoolShutdown {
  import opened ThreadPoolSpec
  import opened ThreadPoolSafety

  /** The destructor sleeps although the table is empty: only a spurious wake-up can help it. */
  ghost predicate Stuck<T>(s: State<T>) {
    s.phase.Asleep? && Tally(Live, s.workers) == 0
  }

  /** How many more steps the pool can take once the destructor holds the lock. */
  ghost function Measure<T>(s: State<T>): nat {
    4 * |s.queue| + Tally(Left, s.workers) + if s.phase.Awake? then 1 else 0
  }

  /** Once the destructor holds the lock, every step but a submission and a spurious wake-up of the
      destructor brings the pool nearer to rest. */
  lemma MeasureDrops<T>(c: Config, s: State<T>, x: Step<T>)
    requires Inv(c, s) && !s.phase.Open? && !s.phase.Closing? && Enabled(c, s, x) && !x.Submit? && !x.WakeDestructor?
    ensures var t := Apply(c, s, x);
      !t.phase.Open? && !t.phase.Closing? && Measure(t) < Measure(s)
  {
    hide Tally, Carried, Conserved, Counted, Notified;
    match x
    case Pass(w) => PassDrops(s, w);
    case Wake(w) => TallySet(Dozing, s.workers, w, Woken);
    case Reap(w) => TallySet(Left, s.workers, w, Gone);
    case Begin(w) => TallySet(Left, s.workers, w, Running(s.workers[w].task));
    case Run(w) => TallySet(Left, s.workers, w, Ran);
    case Rest(w) => TallySet(Left, s.workers, w, Ready);
    case _ =>
  }

  lemma PassDrops<T>(s: State<T>, w: nat)
    requires !s.phase.Open? && !s.phase.Closing?
    requires w < |s.workers| && (s.workers[w].Ready? || s.workers[w].Woken?)
    ensures var t := Passed(s, w);
      !t.phase.Open? && !t.phase.Closing? && Measure(t) < Measure(s)
  {
    hide Tally, Notified;
    var y := if s.queue != [] then Holding(s.queue[0]) else Gone;
    TallySet(Left, s.workers, w, y);
    TallyNotified(Left, s.workers[w := y]);
  }

  lemma {:induction false} FewLeft<T>(ws: seq<Worker<T>>)
    ensures Tally(Left, ws) <= 5 * |ws|
  {
    if ws != [] { FewLeft(ws[1..]); }
  }

  /** Once the destructor has taken the lock, every schedule is finite: four steps for each waiting
      task, five for each worker and one for the destructor. */
  lemma {:induction false} ShutdownBounded<T>(c: Config, s: State<T>, tr: seq<Step<T>>)
    requires Inv(c, s) && !s.phase.Open? && !s.phase.Closing? && Runs(c, s, tr)
    requires forall i :: 0 <= i < |tr| ==> !tr[i].Submit? && !tr[i].WakeDestructor?
    ensures |tr| <= Measure(s) <= 4 * |s.queue| + 5 * |s.workers| + 1
    ensures !After(c, s, tr).phase.Open? && !After(c, s, tr).phase.Closing?
    decreases |tr|
  {
    FewLeft(s.workers);
    if tr != [] {
      hide Inv, Apply, Enabled, Tally;
      Keep(c, s, tr[0]);
      MeasureDrops(c, s, tr[0]);
      ShutdownBounded(c, Apply(c, s, tr[0]), tr[1..]);
    }
  }

  /** A stopping pool has a next step unless the destructor is done, or asleep on an empty table: no
      other deadlock. */
  lemma NextStep<T>(c: Config, s: State<T>) returns (x: Step<T>)
    requires Inv(c, s) && (s.phase.Asleep? || s.phase.Awake?)
    requires s.phase.Asleep? ==> exists i :: 0 <= i < |s.workers| && !s.workers[i].Gone?
    ensures Enabled(c, s, x) && !x.Submit? && !x.WakeDestructor?
  {
    if s.phase.Awake? {
      return Recheck;
    }
    hide Conserved, Counted;
    var w :| 0 <= w < |s.workers| && !s.workers[w].Gone?;
    TallyZero(Dozing, s.workers);
    assert Weight(Dozing, s.workers[w]) == 0;
    match s.workers[w]
    case Ready => return Pass(w);
    case Woken => return Pass(w);
    case Holding(_) => return Begin(w);
    case Running(_) => return Run(w);
    case Ran => return Rest(w);
  }

  /** So a schedule that can be continued by no step of its own has ended well or stuck. */
  lemma ComesToRest<T>(c: Config, s: State<T>, tr: seq<Step<T>>)
    requires Inv(c, s) && !s.phase.Open? && !s.phase.Closing? && Runs(c, s, tr)
    requires forall i :: 0 <= i < |tr| ==> !tr[i].Submit? && !tr[i].WakeDestructor?
    requires forall x: Step<T> :: !x.Submit? && !x.WakeDestructor? ==> !Enabled(c, After(c, s, tr), x)
    ensures var t := After(c, s, tr);
      t.phase.Destroyed? || (t.phase.Asleep? && forall i :: 0 <= i < |t.workers| ==> t.workers[i].Gone?)
  {
    hide Inv, Enabled;
    var t := After(c, s, tr);
    ShutdownBounded(c, s, tr);
    RunKeeps(c, s, tr);
    if !t.phase.Destroyed? && !(t.phase.Asleep? && forall i :: 0 <= i < |t.workers| ==> t.workers[i].Gone?) {
      var _ := NextStep(c, t);
    }
  }

  // ---- which pools can get stuck --------------------------------------------------------------

  /** A cached pool that may grow beyond its first threads and accepts tasks. */
  predicate Risky(c: Config) {
    c.mode.Cached? && c.init < c.maxThreads && c.maxTasks > 0
  }

  /** In every other pool the number of threads never changes, so nobody is reaped, and the last
      worker to leave wakes the destructor. */
  ghost predicate Steady<T>(c: Config, s: State<T>) {
    s.current == c.init && !Stuck(s)
  }

  lemma SteadyKept<T>(c: Config, s: State<T>, x: Step<T>)
    requires Inv(c, s) && !Risky(c) && Steady(c, s) && Enabled(c, s, x)
    ensures Steady(c, Apply(c, s, x))
  {
    hide Tally, Carried, Conserved;
    match x
    case Submit(t) => TallyNotified(Live, s.workers);
    case Pass(w) =>
      var y := if s.queue != [] then Holding(s.queue[0]) else if s.phase.Open? then Waiting else Gone;
      TallySet(Live, s.workers, w, y);
      TallyNotified(Live, s.workers[w := y]);
    case Wake(w) => TallySet(Live, s.workers, w, Woken);
    case Begin(w) => TallySet(Live, s.workers, w, Running(s.workers[w].task));
    case Run(w) => TallySet(Live, s.workers, w, Ran);
    case Rest(w) => TallySet(Live, s.workers, w, Ready);
    case Lock => EmptyTable(Notified(s.workers));
    case Recheck => EmptyTable(s.workers);
    case _ =>
  }

  lemma {:induction false} SteadyRun<T>(c: Config, s: State<T>, tr: seq<Step<T>>)
    requires Inv(c, s) && !Risky(c) && Steady(c, s) && Runs(c, s, tr)
    ensures Steady(c, After(c, s, tr))
    decreases |tr|
  {
    hide Inv, Apply, Enabled, Steady;
    if tr != [] {
      Keep(c, s, tr[0]);
      SteadyKept(c, s, tr[0]);
      SteadyRun(c, Apply(c, s, tr[0]), tr[1..]);
    }
  }

  // ---- a schedule into the trap ---------------------------------------------------------------

  /** k workers in state a, then n - k in state b. */
  function Row<T>(n: nat, k: nat, a: Worker<T>, b: Worker<T>): (ws: seq<Worker<T>>)
    ensures |ws| == n && forall i :: 0 <= i < n ==> ws[i] == if i < k then a else b
  {
    seq(n, i => if i < k then a else b)
  }

  lemma RowNext<T>(n: nat, k: nat, a: Worker<T>, b: Worker<T>, z: seq<Worker<T>>)
    requires k < n
    ensures (Row(n, k, a, b) + z)[k := a] == Row(n, k + 1, a, b) + z
  {
  }

  lemma RowEnds<T>(n: nat, a: Worker<T>, b: Worker<T>, c: Worker<T>, z: seq<Worker<T>>)
    ensures Row(n, n, a, b) + z == Row(n, 0, c, a) + z
  {
    assert Row(n, n, a, b) == Row(n, 0, c, a);
  }

  /** A state described by what the schedule needs of it. */
  ghost predicate At<T>(s: State<T>, ws: seq<Worker<T>>, phase: Phase, current: nat, idle: int) {
    s.workers == ws && s.queue == [] && s.tasks == 0 && s.phase == phase && s.current == current && s.idle == idle
  }

  ghost predicate Leads<T(!new)>(c: Config, s: State<T>, t: State<T>) {
    exists tr :: Runs(c, s, tr) && After(c, s, tr) == t
  }

  lemma LeadsOn<T(!new)>(c: Config, s: State<T>, t: State<T>, u: State<T>)
    requires Leads(c, s, t) && Leads(c, t, u)
    ensures Leads(c, s, u)
  {
    var a :| Runs(c, s, a) && After(c, s, a) == t;
    var b :| Runs(c, t, b) && After(c, t, b) == u;
    RunsConcat(c, s, a, b);
  }

  lemma LeadsStep<T(!new)>(c: Config, s: State<T>, x: Step<T>)
    requires Enabled(c, s, x)
    ensures Leads(c, s, Apply(c, s, x))
  {
    assert [x][1..] == [] && After(c, Apply(c, s, x), []) == Apply(c, s, x);
    assert Runs(c, s, [x]) && After(c, s, [x]) == Apply(c, s, x);
  }

  /** Two more steps at the end of a way. */
  lemma LeadsThen<T(!new)>(c: Config, s: State<T>, t: State<T>, x: Step<T>) returns (u: State<T>)
    requires Leads(c, s, t) && Enabled(c, t, x)
    ensures Leads(c, s, u) && u == Apply(c, t, x)
  {
    u := Apply(c, t, x);
    LeadsStep(c, t, x);
    LeadsOn(c, s, t, u);
  }

  lemma NoneWaiting<T>(ws: seq<Worker<T>>)
    requires forall i :: 0 <= i < |ws| ==> !ws[i].Waiting?
    ensures Notified(ws) == ws
  {
  }

  /** Give every one of the first threads a task of its own. */
  lemma {:induction false} Occupied<T(!new)>(c: Config, t: T, k: nat) returns (s: State<T>)
    requires Risky(c) && k <= c.init
    ensures Leads(c, Start(c), s) && At(s, Row(c.init, k, Running(t), Ready), Open, c.init, c.init - k)
  {
    if k == 0 {
      s := Start(c);
      assert Runs(c, s, []) && After(c, s, []) == s;
      assert s.workers == Row(c.init, 0, Running(t), Ready);
    } else {
      s := Occupied(c, t, k - 1);
      s := OneMoreBusy(c, t, k, s);
    }
  }

  lemma OneMoreBusy<T(!new)>(c: Config, t: T, k: nat, r: State<T>) returns (s: State<T>)
    requires Risky(c) && 0 < k <= c.init && Leads(c, Start(c), r)
    requires At(r, Row(c.init, k - 1, Running(t), Ready), Open, c.init, c.init - (k - 1))
    ensures Leads(c, Start(c), s) && At(s, Row(c.init, k, Running(t), Ready), Open, c.init, c.init - k)
  {
    hide Leads, Notified;
    NoneWaiting(r.workers);
    s := LeadsThen(c, Start(c), r, Submit(t));
    s := LeadsThen(c, Start(c), s, Pass(k - 1));
    s := LeadsThen(c, Start(c), s, Begin(k - 1));
    assert s.workers == Row(c.init, k, Running(t), Ready);
  }

  /** One task more brings one thread more, which runs it and waits. */
  lemma Grown<T(!new)>(c: Config, t: T) returns (s: State<T>)
    requires Risky(c)
    ensures Leads(c, Start(c), s)
    ensures At(s, Row(c.init, 0, Ready, Running(t)) + [Waiting], Open, c.init + 1, 1)
  {
    hide Leads;
    var n := c.init;
    s := Occupied(c, t, n);
    RowEnds(n, Running(t), Ready, Ready, []);
    NoneWaiting(s.workers);
    s := LeadsThen(c, Start(c), s, Submit(t));
    s := LeadsThen(c, Start(c), s, Pass(n));
    s := LeadsThen(c, Start(c), s, Begin(n));
    s := LeadsThen(c, Start(c), s, Run(n));
    s := LeadsThen(c, Start(c), s, Rest(n));
    s := LeadsThen(c, Start(c), s, Pass(n));
    assert s.workers == Row(n, 0, Ready, Running(t)) + [Waiting];
  }

  /** The first k threads finish their tasks. */
  lemma {:induction false} Finished<T(!new)>(c: Config, t: T, k: nat) returns (s: State<T>)
    requires Risky(c) && k <= c.init
    ensures Leads(c, Start(c), s)
    ensures At(s, Row(c.init, k, Ready, Running(t)) + [Waiting], Open, c.init + 1, 1 + k)
  {
    if k == 0 {
      s := Grown(c, t);
    } else {
      hide Leads;
      s := Finished(c, t, k - 1);
      RowNext(c.init, k - 1, Ready, Running(t), [Waiting]);
      s := LeadsThen(c, Start(c), s, Run(k - 1));
      s := LeadsThen(c, Start(c), s, Rest(k - 1));
    }
  }

  /** Shutdown begins and the first k threads leave; the destructor looks each time and sleeps on. */
  lemma {:induction false} Leaving<T(!new)>(c: Config, t: T, k: nat) returns (s: State<T>)
    requires Risky(c) && k <= c.init
    ensures Leads(c, Start(c), s)
    ensures At(s, Row(c.init, k, Gone, Ready) + [Woken], Asleep, c.init + 1, 1 + c.init)
  {
    hide Leads;
    var n := c.init;
    if k == 0 {
      s := Finished(c, t, n);
      RowEnds(n, Ready, Running(t), Gone, [Woken]);
      assert Notified(s.workers) == Row(n, n, Ready, Running(t)) + [Woken];
      s := LeadsThen(c, Start(c), s, Shut);
      s := LeadsThen(c, Start(c), s, Lock);
      assert s.workers[n].Woken?;
    } else {
      s := Leaving(c, t, k - 1);
      RowNext<T>(n, k - 1, Gone, Ready, [Woken]);
      s := LeadsThen(c, Start(c), s, Pass(k - 1));
      assert s.workers[n].Woken?;
      s := LeadsThen(c, Start(c), s, Recheck);
    }
  }

  /** The last thread is reaped, and nobody wakes the destructor. */
  lemma Trapped<T(!new)>(c: Config, t: T) returns (s: State<T>)
    requires Risky(c)
    ensures Leads(c, Start(c), s) && Stuck(s)
  {
    hide Leads;
    s := Leaving(c, t, c.init);
    s := LeadsThen(c, Start(c), s, Reap(c.init));
    EmptyTable(s.workers);
  }

  /** The destructor can be left asleep on an empty table exactly in pools that may grow. */
  lemma StuckIff<T(!new)>(c: Config, t: T)
    ensures c.mode.Cached? && c.init < c.maxThreads && c.maxTasks > 0 <==>
      exists tr: seq<Step<T>> ::
        && Runs(c, Start(c), tr) && After(c, Start(c), tr).phase.Asleep?
        && forall i :: 0 <= i < |After(c, Start(c), tr).workers| ==> After(c, Start(c), tr).workers[i].Gone?
  {
    StuckRuns(c, t);
    forall tr: seq<Step<T>> | Runs(c, Start(c), tr) {
      EmptyTable(After(c, Start(c), tr).workers);
    }
  }

  lemma StuckRuns<T(!new)>(c: Config, t: T)
    ensures Risky(c) <==> exists tr: seq<Step<T>> :: Runs(c, Start(c), tr) && Stuck(After(c, Start(c), tr))
  {
    hide Inv, Steady;
    if Risky(c) {
      var s := Trapped(c, t);
      var tr: seq<Step<T>> :| Runs(c, Start(c), tr) && After(c, Start(c), tr) == s;
      assert Stuck(After(c, Start(c), tr));
    } else {
      StartHolds<T>(c);
      assert Steady(c, Start<T>(c)) by { StartSteady<T>(c); }
      forall tr: seq<Step<T>> | Runs(c, Start(c), tr) ensures !Stuck(After(c, Start(c), tr)) {
        SteadyRun(c, Start(c), tr);
        SteadySafe(c, After(c, Start(c), tr));
      }
    }
  }

  /** In every other pool the destructor returns: it takes the lock, and from there every schedule
      that goes on as long as it can ends with the pool destroyed. */
  lemma DestructorReturns<T>(c: Config, before: seq<Step<T>>, rest: seq<Step<T>>)
    requires !(c.mode.Cached? && c.init < c.maxThreads && c.maxTasks > 0) && Runs(c, Start(c), before)
    requires var s := After(c, Start(c), before);
      && !s.phase.Open? && !s.phase.Closing? && Runs(c, s, rest)
      && (forall i :: 0 <= i < |rest| ==> !rest[i].Submit? && !rest[i].WakeDestructor?)
      && (forall x: Step<T> :: !x.Submit? && !x.WakeDestructor? ==> !Enabled(c, After(c, s, rest), x))
    ensures After(c, After(c, Start(c), before), rest).phase.Destroyed?
  {
    hide Inv, Steady, Enabled;
    StartHolds<T>(c);
    StartSteady<T>(c);
    RunKeeps(c, Start(c), before);
    SteadyRun(c, Start(c), before);
    var s := After(c, Start(c), before);
    SteadyRun(c, s, rest);
    SteadySafe(c, After(c, s, rest));
    EmptyTable(After(c, s, rest).workers);
    ComesToRest(c, s, rest);
  }

  lemma StartSteady<T>(c: Config)
    ensures Steady<T>(c, Start(c))
  {
  }

  lemma SteadySafe<T>(c: Config, s: State<T>)
    requires Steady(c, s)
    ensures !Stuck(s)
  {
  }
}
