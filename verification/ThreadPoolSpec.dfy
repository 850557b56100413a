/** The thread pool as a step system. Every step is one critical section, or one access to an
    atomic counter between two of them; timeouts and spurious wake-ups may happen at any time. */
module ThreadPoolSpec {

  datatype Mode = Fixed | Cached

  /** What `start` and the setters fix before the first task. */
  datatype Config = Config(mode: Mode, init: nat, maxThreads: nat, maxTasks: nat)

  /** Where a worker stands in its loop. Gone workers are no longer in the thread table. */
  datatype Worker<T> =
    | Ready                  // at the top of the loop, about to take the lock
    | Waiting                // blocked on the not-empty condition
    | Woken                  // notified or timed out, about to take the lock again
    | Holding(task: T)       // lock released, task taken, still counted as idle
    | Running(task: T)       // no longer counted as idle
    | Ran                    // task finished, not yet counted as idle again
    | Gone

  /** Where the destructor stands. */
  datatype Phase =
    | Open                   // not begun
    | Closing                // running flag cleared, lock not yet taken
    | Asleep                 // blocked on the exit condition
    | Awake                  // notified, about to test the thread table again
    | Destroyed

  datatype State<T> = State(
    queue: seq<T>, workers: seq<Worker<T>>, phase: Phase,
    current: nat, idle: int, tasks: int,           // the atomic counters
    accepted: seq<T>, popped: seq<T>, ran: seq<T>, // what was submitted, taken and run, in order
    exited: nat)                                   // how many workers left because of shutdown

  datatype Step<T> =
    | Submit(t: T)           // submitTask: accept or, when the queue stays full, reject
    | Pass(w: nat)           // a worker takes the lock: pop, leave, or wait
    | Wake(w: nat)           // a wait times out or wakes spuriously
    | Reap(w: nat)           // a cached worker that idled too long leaves
    | Begin(w: nat) | Run(w: nat) | Rest(w: nat)
    | Shut | Lock | Recheck | WakeDestructor

  function Roused<T>(x: Worker<T>): Worker<T> {
    if x.Waiting? then Woken else x
  }

  /** `notify_all` on the not-empty condition. */
  function Notified<T>(ws: seq<Worker<T>>): (r: seq<Worker<T>>)
    ensures |r| == |ws| && forall i :: 0 <= i < |ws| ==> r[i] == Roused(ws[i])
  {
    if ws == [] then [] else [Roused(ws[0])] + Notified(ws[1..])
  }

  /** `threads_.empty()` */
  predicate Empty<T>(ws: seq<Worker<T>>) {
    forall i :: 0 <= i < |ws| ==> ws[i].Gone?
  }

  function AllReady<T>(n: nat): (ws: seq<Worker<T>>)
    ensures |ws| == n && forall i :: 0 <= i < n ==> ws[i].Ready?
  {
    if n == 0 then [] else [Ready] + AllReady(n - 1)
  }

  /** The pool as `start` leaves it. */
  ghost function Start<T>(c: Config): State<T> {
    State([], AllReady(c.init), Open, c.init, c.init, 0, [], [], [], 0)
  }

  predicate Accepts<T>(c: Config, s: State<T>) {
    |s.queue| < c.maxTasks
  }

  /** Whether an accepted task brings a new worker. */
  predicate Spawns<T>(c: Config, s: State<T>) {
    c.mode.Cached? && s.tasks + 1 > s.idle && s.current < c.maxThreads
  }

  predicate Enabled<T>(c: Config, s: State<T>, x: Step<T>) {
    && !s.phase.Destroyed?
    && match x
       case Submit(t) => true
       case Pass(w) => w < |s.workers| && (s.workers[w].Ready? || s.workers[w].Woken?)
       case Wake(w) => w < |s.workers| && s.workers[w].Waiting?
       case Reap(w) => w < |s.workers| && s.workers[w].Woken? && c.mode.Cached? && s.current > c.init
       case Begin(w) => w < |s.workers| && s.workers[w].Holding?
       case Run(w) => w < |s.workers| && s.workers[w].Running?
       case Rest(w) => w < |s.workers| && s.workers[w].Ran?
       case Shut => s.phase.Open?
       case Lock => s.phase.Closing?
       case Recheck => s.phase.Awake?
       case WakeDestructor => s.phase.Asleep?
  }

  ghost function Submitted<T>(c: Config, s: State<T>, t: T): State<T> {
    if !Accepts(c, s) then s else
    var ws := Notified(s.workers);
    var r := s.(queue := s.queue + [t], tasks := s.tasks + 1, accepted := s.accepted + [t], workers := ws);
    if Spawns(c, s) then r.(workers := ws + [Ready], current := s.current + 1, idle := s.idle + 1) else r
  }

  ghost function Passed<T>(s: State<T>, w: nat): State<T>
    requires w < |s.workers|
  {
    if s.queue != [] then
      var ws := s.workers[w := Holding(s.queue[0])];
      s.(queue := s.queue[1..], tasks := s.tasks - 1, popped := s.popped + [s.queue[0]],
         workers := if |s.queue| > 1 then Notified(ws) else ws)
    else if s.phase.Open? then s.(workers := s.workers[w := Waiting])
    else s.(workers := s.workers[w := Gone], exited := s.exited + 1,
            phase := if s.phase.Asleep? then Awake else s.phase)
  }

  /** The destructor tests the thread table: done, or back to sleep. */
  ghost function Tested<T>(s: State<T>): State<T> {
    s.(phase := if Empty(s.workers) then Destroyed else Asleep)
  }

  ghost function Apply<T>(c: Config, s: State<T>, x: Step<T>): State<T>
    requires Enabled(c, s, x)
  {
    match x
    case Submit(t) => Submitted(c, s, t)
    case Pass(w) => Passed(s, w)
    case Wake(w) => s.(workers := s.workers[w := Woken])
    case Reap(w) => s.(workers := s.workers[w := Gone], current := s.current - 1, idle := s.idle - 1)
    case Begin(w) => s.(workers := s.workers[w := Running(s.workers[w].task)], idle := s.idle - 1)
    case Run(w) => s.(workers := s.workers[w := Ran], ran := s.ran + [s.workers[w].task])
    case Rest(w) => s.(workers := s.workers[w := Ready], idle := s.idle + 1)
    case Shut => s.(phase := Closing)
    case Lock => Tested(s.(workers := Notified(s.workers)))
    case Recheck => Tested(s)
    case WakeDestructor => s.(phase := Awake)
  }

  // ---- counting workers ---------------------------------------------------------------------

  datatype Kind = Live | Busy | Engaged | Dozing | Left

  function Weight<T>(k: Kind, x: Worker<T>): nat {
    match k
    case Live => if x.Gone? then 0 else 1                                 // in the thread table
    case Busy => if x.Running? || x.Ran? then 1 else 0                    // not counted as idle
    case Engaged => if x.Gone? || x.Waiting? || x.Woken? then 0 else 1    // cannot be reaped before its next pop
    case Dozing => if x.Waiting? then 1 else 0
    case Left =>                                                          // how many more steps it can take, at least
      match x case Gone => 0 case Ran => 3 case Running(_) => 4 case Holding(_) => 5 case _ => 2
  }

  ghost function Tally<T>(k: Kind, ws: seq<Worker<T>>): nat {
    if ws == [] then 0 else Weight(k, ws[0]) + Tally(k, ws[1..])
  }

  lemma {:induction false} TallySet<T>(k: Kind, ws: seq<Worker<T>>, w: nat, x: Worker<T>)
    requires w < |ws|
    ensures Tally(k, ws[w := x]) == Tally(k, ws) - Weight(k, ws[w]) + Weight(k, x)
    ensures Tally(k, ws) >= Weight(k, ws[w])
  {
    if w > 0 {
      assert ws[w := x][1..] == ws[1..][w - 1 := x];
      TallySet(k, ws[1..], w - 1, x);
    } else {
      assert ws[w := x][1..] == ws[1..];
    }
  }

  lemma {:induction false} TallyAdd<T>(k: Kind, ws: seq<Worker<T>>, x: Worker<T>)
    ensures Tally(k, ws + [x]) == Tally(k, ws) + Weight(k, x)
  {
    if ws == [] {
      assert ws + [x] == [x];
    } else {
      assert (ws + [x])[1..] == ws[1..] + [x];
      TallyAdd(k, ws[1..], x);
    }
  }

  lemma {:induction false} TallyNotified<T>(k: Kind, ws: seq<Worker<T>>)
    ensures Tally(k, Notified(ws)) == if k.Dozing? then 0 else Tally(k, ws)
  {
    if ws != [] {
      assert Notified(ws)[1..] == Notified(ws[1..]);
      TallyNotified(k, ws[1..]);
    }
  }

  lemma {:induction false} TallyZero<T>(k: Kind, ws: seq<Worker<T>>)
    ensures Tally(k, ws) == 0 <==> forall i :: 0 <= i < |ws| ==> Weight(k, ws[i]) == 0
  {
    if ws != [] {
      TallyZero(k, ws[1..]);
      assert forall i :: 0 <= i < |ws| ==> i == 0 || ws[i] == ws[1..][i - 1];
      assert forall i :: 0 <= i < |ws[1..]| ==> ws[1..][i] == ws[i + 1];
    }
  }

  lemma EmptyTable<T>(ws: seq<Worker<T>>)
    ensures Empty(ws) <==> Tally(Live, ws) == 0
  {
    TallyZero(Live, ws);
    assert forall i :: 0 <= i < |ws| ==> (ws[i].Gone? <==> Weight(Live, ws[i]) == 0);
  }

  /** All tallies of a table in which one worker moved. */
  lemma Moved<T>(ws: seq<Worker<T>>, w: nat, x: Worker<T>)
    requires w < |ws|
    ensures forall k :: Tally(k, ws[w := x]) == Tally(k, ws) - Weight(k, ws[w]) + Weight(k, x)
  {
    forall k: Kind ensures Tally(k, ws[w := x]) == Tally(k, ws) - Weight(k, ws[w]) + Weight(k, x) { TallySet(k, ws, w, x); }
  }

  lemma NotifiedTallies<T>(ws: seq<Worker<T>>)
    ensures forall k: Kind :: Tally(k, Notified(ws)) == if k.Dozing? then 0 else Tally(k, ws)
  {
    forall k: Kind ensures Tally(k, Notified(ws)) == if k.Dozing? then 0 else Tally(k, ws) { TallyNotified(k, ws); }
  }

  lemma AddedTallies<T>(ws: seq<Worker<T>>, x: Worker<T>)
    ensures forall k: Kind :: Tally(k, ws + [x]) == Tally(k, ws) + Weight(k, x)
  {
    forall k: Kind ensures Tally(k, ws + [x]) == Tally(k, ws) + Weight(k, x) { TallyAdd(k, ws, x); }
  }

  // ---- tasks in workers' hands -----------------------------------------------------------------

  function InHand<T>(x: Worker<T>): multiset<T> {
    if x.Holding? || x.Running? then multiset{x.task} else multiset{}
  }

  ghost function Carried<T>(ws: seq<Worker<T>>): multiset<T> {
    if ws == [] then multiset{} else InHand(ws[0]) + Carried(ws[1..])
  }

  lemma {:induction false} CarriedSet<T>(ws: seq<Worker<T>>, w: nat, x: Worker<T>)
    requires w < |ws|
    ensures Carried(ws[w := x]) + InHand(ws[w]) == Carried(ws) + InHand(x)
  {
    hide InHand;
    if w > 0 {
      assert ws[w := x][1..] == ws[1..][w - 1 := x];
      CarriedSet(ws[1..], w - 1, x);
      var rest, after := Carried(ws[1..]), Carried(ws[1..][w - 1 := x]);
      Shift(InHand(ws[0]), after, rest, InHand(ws[w]), InHand(x));
    } else {
      assert ws[w := x][1..] == ws[1..];
      Swap(InHand(x), InHand(ws[0]), Carried(ws[1..]));
    }
  }

  lemma Swap<T>(a: multiset<T>, b: multiset<T>, c: multiset<T>)
    ensures (a + c) + b == (b + c) + a
  {
  }

  lemma Shift<T>(a: multiset<T>, after: multiset<T>, before: multiset<T>, h: multiset<T>, k: multiset<T>)
    requires after + h == before + k
    ensures (a + after) + h == (a + before) + k
  {
    assert (a + after) + h == a + (after + h) && (a + before) + k == a + (before + k);
  }

  lemma {:induction false} CarriedNotified<T>(ws: seq<Worker<T>>)
    ensures Carried(Notified(ws)) == Carried(ws)
  {
    if ws != [] {
      assert Notified(ws)[1..] == Notified(ws[1..]);
      CarriedNotified(ws[1..]);
    }
  }

  lemma {:induction false} CarriedAdd<T>(ws: seq<Worker<T>>, x: Worker<T>)
    ensures Carried(ws + [x]) == Carried(ws) + InHand(x)
  {
    if ws == [] {
      assert ws + [x] == [x];
    } else {
      assert (ws + [x])[1..] == ws[1..] + [x];
      CarriedAdd(ws[1..], x);
    }
  }

  lemma {:induction false} NothingCarried<T>(ws: seq<Worker<T>>)
    requires Tally(Engaged, ws) == 0
    ensures Carried(ws) == multiset{}
  {
    if ws != [] { NothingCarried(ws[1..]); }
  }

  lemma HandKept<T>(ws: seq<Worker<T>>, w: nat, x: Worker<T>)
    requires w < |ws| && InHand(x) == InHand(ws[w])
    ensures Carried(ws[w := x]) == Carried(ws)
  {
    CarriedSet(ws, w, x);
    Cancel(Carried(ws[w := x]), Carried(ws), InHand(x));
  }

  lemma Cancel<T>(a: multiset<T>, b: multiset<T>, c: multiset<T>)
    requires a + c == b + c
    ensures a == b
  {
    assert a == (a + c) - c && b == (b + c) - c;
  }

  /** Taking a task moves it from the queue into a hand. */
  lemma HandFilled<T>(s: State<T>, w: nat, t: T)
    requires w < |s.workers| && InHand(s.workers[w]) == multiset{}
    requires multiset(s.popped) == multiset(s.ran) + Carried(s.workers)
    ensures multiset(s.popped + [t]) == multiset(s.ran) + Carried(s.workers[w := Holding(t)])
  {
    hide Carried;
    CarriedSet(s.workers, w, Holding(t));
    OneMore(s.popped, t);
    var before, after := Carried(s.workers), Carried(s.workers[w := Holding(t)]);
    assert after == before + multiset{t} by { assert after + multiset{} == after; }
  }

  /** Running a task moves it from a hand into the log. */
  lemma HandEmptied<T>(s: State<T>, w: nat, t: T)
    requires w < |s.workers| && s.workers[w] == Running(t)
    requires multiset(s.popped) == multiset(s.ran) + Carried(s.workers)
    ensures multiset(s.popped) == multiset(s.ran + [t]) + Carried(s.workers[w := Ran])
  {
    hide Carried;
    CarriedSet(s.workers, w, Ran);
    OneMore(s.ran, t);
    var before, after := Carried(s.workers), Carried(s.workers[w := Ran]);
    assert after + multiset{t} == before by { assert before + multiset{} == before; }
  }

  lemma OneMore<T>(s: seq<T>, t: T)
    ensures multiset(s + [t]) == multiset(s) + multiset{t}
  {
  }

  // ---- the invariant of every step -----------------------------------------------------------------

  ghost predicate Conserved<T>(s: State<T>) {
    && s.tasks == |s.queue|
    && s.accepted == s.popped + s.queue
    && multiset(s.popped) == multiset(s.ran) + Carried(s.workers)
  }

  ghost predicate Counted<T>(c: Config, s: State<T>) {
    && s.current == Tally(Live, s.workers) + s.exited
    && s.idle == s.current - Tally(Busy, s.workers)
    && c.init <= s.current <= (if c.mode.Cached? && c.maxThreads > c.init then c.maxThreads else c.init)
    && |s.queue| <= c.maxTasks
  }

  ghost predicate Phased<T>(s: State<T>) {
    && (s.exited > 0 ==> !s.phase.Open?)
    && (!s.phase.Open? && !s.phase.Closing? ==> Tally(Dozing, s.workers) == 0)
    && (s.phase.Destroyed? ==> Tally(Live, s.workers) == 0)
  }

  ghost predicate Inv<T>(c: Config, s: State<T>) {
    Conserved(s) && Counted(c, s) && Phased(s)
  }

  lemma {:induction false} BusyLive<T>(ws: seq<Worker<T>>)
    ensures Tally(Busy, ws) <= Tally(Engaged, ws) <= Tally(Live, ws)
  {
    if ws != [] { BusyLive(ws[1..]); }
  }

  lemma {:induction false} StartInv<T>(n: nat)
    ensures Tally(Live, AllReady<T>(n)) == n && Tally(Busy, AllReady<T>(n)) == 0
    ensures Carried(AllReady<T>(n)) == multiset{}
  {
    if n > 0 { StartInv<T>(n - 1); }
  }

  lemma StartHolds<T>(c: Config)
    ensures Inv<T>(c, Start(c))
  {
    StartInv<T>(c.init);
  }

  lemma ConservedMoved<T>(c: Config, s: State<T>, x: Step<T>, w: nat)
    requires Conserved(s) && Enabled(c, s, x)
    requires x == Wake(w) || x == Reap(w) || x == Begin(w) || x == Run(w) || x == Rest(w)
    ensures Conserved(Apply(c, s, x))
  {
    if x.Run? {
      hide Carried;
      HandEmptied(s, w, s.workers[w].task);
    } else {
      var t := Apply(c, s, x);
      MovedHands(c, s, x, w);
      hide Carried, Conserved, InHand, Apply, Enabled;
      HandKept(s.workers, w, t.workers[w]);
      ConservedSame(s, t);
    }
  }

  /** Every move of a worker but the run itself leaves the tasks where they are. */
  lemma MovedHands<T>(c: Config, s: State<T>, x: Step<T>, w: nat)
    requires Enabled(c, s, x) && (x == Wake(w) || x == Reap(w) || x == Begin(w) || x == Rest(w))
    ensures var t := Apply(c, s, x);
      && w < |s.workers| == |t.workers| && t.workers == s.workers[w := t.workers[w]]
      && InHand(t.workers[w]) == InHand(s.workers[w]) && t.tasks == s.tasks
      && t.queue == s.queue && t.accepted == s.accepted && t.popped == s.popped && t.ran == s.ran
  {
    hide Submitted, Passed, Tested, Notified;
    match x
    case Wake(_) => assert Apply(c, s, x).workers == s.workers[w := Woken];
    case Reap(_) => assert Apply(c, s, x).workers == s.workers[w := Gone];
    case Begin(_) => assert Apply(c, s, x).workers == s.workers[w := Running(s.workers[w].task)];
    case Rest(_) => assert Apply(c, s, x).workers == s.workers[w := Ready];
  }

  lemma ConservedSame<T>(s: State<T>, t: State<T>)
    requires Conserved(s) && Carried(t.workers) == Carried(s.workers) && t.tasks == s.tasks
    requires t.queue == s.queue && t.accepted == s.accepted && t.popped == s.popped && t.ran == s.ran
    ensures Conserved(t)
  {
  }

  /** The counters stay exact when they change by what the moved worker's weight changes. */
  lemma CountedMoved<T>(c: Config, s: State<T>, t: State<T>, w: nat, y: Worker<T>)
    requires Counted(c, s) && Phased(s) && !s.phase.Destroyed? && w < |s.workers|
    requires t.workers == s.workers[w := y] && !y.Waiting?
    requires t.queue == s.queue && t.exited == s.exited && t.phase == s.phase
    requires c.init <= t.current <= s.current
    requires t.current - s.current == Weight(Live, y) - Weight(Live, s.workers[w])
    requires t.idle - t.current == s.idle - s.current - Weight(Busy, y) + Weight(Busy, s.workers[w])
    ensures Counted(c, t) && Phased(t)
  {
    hide Tally;
    Moved(s.workers, w, y);
  }

  lemma KeepMoved<T>(c: Config, s: State<T>, x: Step<T>, w: nat)
    requires Inv(c, s) && Enabled(c, s, x)
    requires x == Wake(w) || x == Reap(w) || x == Begin(w) || x == Run(w) || x == Rest(w)
    ensures Inv(c, Apply(c, s, x))
  {
    hide Tally, Carried, Counted, Phased;
    ConservedMoved(c, s, x, w);
    CountedInit(c, s);
    CountedMoved(c, s, Apply(c, s, x), w, Apply(c, s, x).workers[w]);
  }

  lemma CountedInit<T>(c: Config, s: State<T>)
    requires Counted(c, s)
    ensures c.init <= s.current
  {
  }

  lemma CountedSubmit<T>(c: Config, s: State<T>, t: T)
    requires Counted(c, s) && Phased(s) && !s.phase.Destroyed?
    ensures Counted(c, Submitted(c, s, t)) && Phased(Submitted(c, s, t))
  {
    hide Tally, Notified;
    var ws := Notified(s.workers);
    NotifiedTallies(s.workers);
    AddedTallies(ws, Ready);
  }

  lemma ConservedSubmit<T>(c: Config, s: State<T>, t: T)
    requires Conserved(s)
    ensures Conserved(Submitted(c, s, t))
  {
    hide Carried, Notified;
    var ws := Notified(s.workers);
    CarriedNotified(s.workers);
    CarriedAdd(ws, Ready);
    assert Carried(ws + [Ready]) == Carried(ws);
    assert s.accepted + [t] == s.popped + (s.queue + [t]);
  }

  lemma KeepSubmit<T>(c: Config, s: State<T>, t: T)
    requires Inv(c, s) && Enabled(c, s, Submit(t))
    ensures Inv(c, Apply(c, s, Submit(t)))
  {
    hide Conserved, Counted, Phased, Submitted;
    CountedSubmit(c, s, t);
    ConservedSubmit(c, s, t);
  }

  lemma ConservedPass<T>(s: State<T>, w: nat)
    requires Conserved(s) && w < |s.workers| && (s.workers[w].Ready? || s.workers[w].Woken?)
    ensures Conserved(Passed(s, w))
  {
    if s.queue != [] {
      hide Carried, Notified;
      HandFilled(s, w, s.queue[0]);
      CarriedNotified(s.workers[w := Holding(s.queue[0])]);
      FirstOut(s.accepted, s.popped, s.queue);
    } else {
      hide Carried, Conserved;
      var y := Passed(s, w).workers[w];
      HandKept(s.workers, w, y);
      ConservedSame(s, Passed(s, w));
    }
  }

  lemma FirstOut<T>(all: seq<T>, out: seq<T>, q: seq<T>)
    requires all == out + q && q != []
    ensures all == (out + [q[0]]) + q[1..]
  {
  }

  lemma CountedPass<T>(c: Config, s: State<T>, w: nat)
    requires Counted(c, s) && Phased(s) && Enabled(c, s, Step<T>.Pass(w))
    ensures Counted(c, Passed(s, w)) && Phased(Passed(s, w))
  {
    hide Tally, Notified;
    if s.queue != [] {
      var ws := s.workers[w := Holding(s.queue[0])];
      Moved(s.workers, w, ws[w]);
      NotifiedTallies(ws);
    } else {
      Moved(s.workers, w, if s.phase.Open? then Waiting else Gone);
    }
  }

  lemma KeepPass<T>(c: Config, s: State<T>, w: nat)
    requires Inv(c, s) && Enabled(c, s, Step<T>.Pass(w))
    ensures Inv(c, Apply(c, s, Pass(w)))
  {
    hide Conserved, Counted, Phased, Passed;
    ConservedPass(s, w);
    CountedPass(c, s, w);
  }

  lemma KeepDestructor<T>(c: Config, s: State<T>, x: Step<T>)
    requires Inv(c, s) && Enabled(c, s, x) && (x.Shut? || x.Lock? || x.Recheck? || x.WakeDestructor?)
    ensures Inv(c, Apply(c, s, x))
  {
    hide Tally, Carried;
    NotifiedTallies(s.workers);
    CarriedNotified(s.workers);
    EmptyTable(s.workers);
    EmptyTable(Notified(s.workers));
  }

  /** Conservation of tasks, exactness of the counters and the phase facts survive every step. */
  lemma Keep<T>(c: Config, s: State<T>, x: Step<T>)
    requires Inv(c, s) && Enabled(c, s, x)
    ensures Inv(c, Apply(c, s, x))
  {
    hide Inv, Apply;
    match x
    case Submit(t) => KeepSubmit(c, s, t);
    case Pass(w) => KeepPass(c, s, w);
    case Wake(w) => KeepMoved(c, s, x, w);
    case Reap(w) => KeepMoved(c, s, x, w);
    case Begin(w) => KeepMoved(c, s, x, w);
    case Run(w) => KeepMoved(c, s, x, w);
    case Rest(w) => KeepMoved(c, s, x, w);
    case _ => KeepDestructor(c, s, x);
  }

  lemma QueueCounted<T>(c: Config, s: State<T>)
    requires Inv(c, s)
    ensures s.tasks == |s.queue|
  {
  }

  /** No lost wake-up: a worker never sleeps while tasks wait. Every step keeps that. */
  lemma NoneSleeps<T>(c: Config, s: State<T>, x: Step<T>)
    requires Enabled(c, s, x) && (s.queue != [] ==> forall i :: 0 <= i < |s.workers| ==> !s.workers[i].Waiting?)
    ensures var t := Apply(c, s, x);
      t.queue != [] ==> forall i :: 0 <= i < |t.workers| ==> !t.workers[i].Waiting?
  {
  }

  /** What the counters and logs say in any state of the invariant: nothing underflows, the tasks
      taken are the oldest accepted ones in order, and each is in one worker's hand or has run. */
  lemma Meaning<T>(c: Config, s: State<T>)
    requires Inv(c, s)
    ensures 0 <= s.idle <= s.current && s.tasks == |s.queue| <= c.maxTasks
    ensures s.popped <= s.accepted
    ensures multiset(s.accepted) == multiset(s.ran) + Carried(s.workers) + multiset(s.queue)
  {
    BusyLive(s.workers);
    assert multiset(s.popped + s.queue) == multiset(s.popped) + multiset(s.queue);
  }
}
