/**
  The thread pool of src/WorkerPool.cc as a transition system: any number of
  worker threads, any number of concurrent calls of WaitForResults, one mutex,
  two condition variables, and the destructor.

  Every stretch of code that runs with queueMtx held is one atomic step. A
  thread inside condition_variable::wait is Asleep (workers) or Sleeping
  (callers); once notified it competes for the mutex again before it does
  anything else.
*/
module WorkerPool {
  import opened Common

  // ----- the fields behind the mutex -----

  /** What queueMtx protects. An order is named by the number of orders added before it. */
  datatype Shared = Shared(queue: seq<nat>, active: int, done: bool)

  /** What a worker does with the result of its test at the top of its loop. */
  datatype Decision = Leave | GoToSleep | Take(order: nat)

  function AfterCheck(m: Shared): (r: (Shared, Decision)) {
    if m.done then (m, Leave)
    else if m.queue == [] then (m, GoToSleep)
    else (m.(queue := m.queue[1..], active := m.active + 1), Take(m.queue[0]))
  }

  function AfterReport(m: Shared): (r: (Shared, bool)) {
    (m.(active := m.active - 1), m.queue == [] && m.active - 1 <= 0)
  }

  predicate HaveResults(m: Shared) {
    m.done || (m.queue == [] && m.active == 0)
  }

  /** No order waits and none is being worked on. */
  predicate Quiet(m: Shared) {
    m.queue == [] && m.active == 0
  }

  /** The mutable object the threads share; each method is one critical section. */
  class WorkerPoolPrivate {
    var workOrders: seq<nat>
    var activeOrders: int
    var done: bool

    function Mem(): Shared
      reads this
    {
      Shared(workOrders, activeOrders, done)
    }

    constructor ()
      ensures Mem() == Shared([], 0, false)
    {
      workOrders, activeOrders, done := [], 0, false;
    }

    /** One test of the worker's wait loop, and the removal of an order if there is one. */
    method CheckForOrder() returns (decision: Decision)
      modifies this
      ensures (Mem(), decision) == AfterCheck(old(Mem()))
    {
      if !done && workOrders == [] {
        return GoToSleep;
      }
      if done {
        return Leave;
      }
      activeOrders := activeOrders + 1;
      decision := Take(workOrders[0]);
      workOrders := workOrders[1..];
    }

    method ReportOrder() returns (notifyAll: bool)
      modifies this
      ensures (Mem(), notifyAll) == AfterReport(old(Mem()))
    {
      activeOrders := activeOrders - 1;
      notifyAll := workOrders == [] && activeOrders <= 0;
    }

    method AddWork(order: nat)
      modifies this
      ensures Mem() == old(Mem()).(queue := old(workOrders) + [order])
    {
      workOrders := workOrders + [order];
    }

    method SetDone()
      modifies this
      ensures Mem() == old(Mem()).(done := true)
    {
      done := true;
    }
  }

  // ----- the whole system -----

  /** How far a worker got with the order it took. */
  datatype Phase = WorkPending | CallbackPending | ReportPending

  datatype Worker = Idle | Asleep | Running(order: nat, phase: Phase) | Exited

  /** One call of WaitForResults. */
  datatype Caller =
    | Entering(timed: bool)
    | Sleeping(timed: bool)
    | Woken(timed: bool, timedOut: bool)
    | Returned(result: bool)

  /** How far the destructor got. */
  datatype Closing = Open | DoneSet | Joining | Closed

  /** added, worked and calledBack are history: which orders were added, and whose
      work function and callback have returned. */
  datatype State = State(
    mem: Shared,
    workers: seq<Worker>,
    callers: seq<Caller>,
    closing: Closing,
    added: nat,
    worked: set<nat>,
    calledBack: set<nat>)

  datatype Step =
    | AddWork(woken: Option<nat>)
    | CheckForOrder(w: nat)
    | SpuriousWake(w: nat)
    | RunWork(w: nat)
    | RunCallback(w: nat)
    | ReportOrder(w: nat)
    | CallWait(timed: bool)
    | EnterWait(c: nat)
    | WakeTimed(c: nat, timedOut: bool)
    | ResumeWait(c: nat)
    | SetDone
    | NotifyWorkers
    | JoinWorkers

  predicate Init(s: State) {
    && s.mem == Shared([], 0, false)
    && (forall w :: 0 <= w < |s.workers| ==> s.workers[w] == Idle)
    && |s.workers| >= 1
    && s.callers == []
    && s.closing == Open
    && s.added == 0 && s.worked == {} && s.calledBack == {}
  }

  /** notify_one wakes one sleeping worker if there is one. The predicate-free wait
      has no spurious wake-ups: only timed callers have a WakeTimed step. */
  predicate Enabled(s: State, step: Step) {
    match step
    case AddWork(None) => Asleep !in s.workers
    case AddWork(Some(w)) => w < |s.workers| && s.workers[w] == Asleep
    case CheckForOrder(w) => w < |s.workers| && s.workers[w] == Idle
    case SpuriousWake(w) => w < |s.workers| && s.workers[w] == Asleep
    case RunWork(w) => w < |s.workers| && s.workers[w].Running? && s.workers[w].phase == WorkPending
    case RunCallback(w) => w < |s.workers| && s.workers[w].Running? && s.workers[w].phase == CallbackPending
    case ReportOrder(w) => w < |s.workers| && s.workers[w].Running? && s.workers[w].phase == ReportPending
    case CallWait(_) => true
    case EnterWait(c) => c < |s.callers| && s.callers[c].Entering?
    case WakeTimed(c, _) => c < |s.callers| && s.callers[c] == Sleeping(true)
    case ResumeWait(c) => c < |s.callers| && s.callers[c].Woken?
    case SetDone => s.closing == Open
    case NotifyWorkers => s.closing == DoneSet
    case JoinWorkers => s.closing == Joining && forall w :: 0 <= w < |s.workers| ==> s.workers[w] == Exited
  }

  function WakeWorkers(ws: seq<Worker>): seq<Worker> {
    seq(|ws|, i requires 0 <= i < |ws| => if ws[i] == Asleep then Idle else ws[i])
  }

  function WakeCallers(cs: seq<Caller>): seq<Caller> {
    seq(|cs|, i requires 0 <= i < |cs| => if cs[i].Sleeping? then Woken(cs[i].timed, false) else cs[i])
  }

  /** The state of a caller after it looked at haveResults with the mutex held. */
  function AfterEnter(m: Shared, c: Caller): Caller
    requires c.Entering?
  {
    if HaveResults(m) then Returned(!m.done) else Sleeping(c.timed)
  }

  function AfterResume(m: Shared, c: Caller): Caller
    requires c.Woken?
  {
    if !c.timed || HaveResults(m) then Returned(!m.done)
    else if c.timedOut then Returned(false)
    else Sleeping(true)
  }

  function Apply(s: State, step: Step): State
    requires Enabled(s, step)
  {
    match step
    case AddWork(woken) =>
      s.(mem := s.mem.(queue := s.mem.queue + [s.added]), added := s.added + 1,
      workers := if woken.Some? then s.workers[woken.value := Idle] else s.workers)
    case CheckForOrder(w) =>
      var (m, d) := AfterCheck(s.mem);
      s.(mem := m, workers := s.workers[w :=
        match d case Leave => Exited case GoToSleep => Asleep case Take(o) => Running(o, WorkPending)])
    case SpuriousWake(w) =>
      s.(workers := s.workers[w := Idle])
    case RunWork(w) =>
      s.(workers := s.workers[w := s.workers[w].(phase := CallbackPending)],
      worked := s.worked + {s.workers[w].order})
    case RunCallback(w) =>
      s.(workers := s.workers[w := s.workers[w].(phase := ReportPending)],
      calledBack := s.calledBack + {s.workers[w].order})
    case ReportOrder(w) =>
      var (m, notifyAll) := AfterReport(s.mem);
      s.(mem := m, workers := s.workers[w := Idle],
      callers := if notifyAll then WakeCallers(s.callers) else s.callers)
    case CallWait(timed) =>
      s.(callers := s.callers + [Entering(timed)])
    case EnterWait(c) =>
      s.(callers := s.callers[c := AfterEnter(s.mem, s.callers[c])])
    case WakeTimed(c, timedOut) =>
      s.(callers := s.callers[c := Woken(true, timedOut)])
    case ResumeWait(c) =>
      s.(callers := s.callers[c := AfterResume(s.mem, s.callers[c])])
    case SetDone =>
      s.(mem := s.mem.(done := true), closing := DoneSet)
    case NotifyWorkers =>
      s.(workers := WakeWorkers(s.workers), closing := Joining)
    case JoinWorkers =>
      s.(callers := WakeCallers(s.callers), closing := Closed)
  }

  /** The steps taken by worker step.w. */
  predicate IsWorkerStep(step: Step) {
    step.CheckForOrder? || step.SpuriousWake? || step.RunWork? || step.RunCallback? || step.ReportOrder?
  }

  // ----- counting workers -----

  datatype Kind = IsIdle | IsAsleep | IsRunning | IsExited

  function KindOf(w: Worker): Kind {
    match w case Idle => IsIdle case Asleep => IsAsleep case Running(_, _) => IsRunning case Exited => IsExited
  }

  function Count(ws: seq<Worker>, k: Kind): nat {
    if ws == [] then 0 else Count(ws[1..], k) + (if KindOf(ws[0]) == k then 1 else 0)
  }

  lemma {:induction false} CountUpdate(ws: seq<Worker>, i: nat, x: Worker, k: Kind)
    requires i < |ws|
    ensures Count(ws[i := x], k) + (if KindOf(ws[i]) == k then 1 else 0)
         == Count(ws, k) + (if KindOf(x) == k then 1 else 0)
  {
    if i == 0 {
      assert ws[0 := x][1..] == ws[1..];
    } else {
      assert ws[i := x][1..] == ws[1..][i - 1 := x];
      CountUpdate(ws[1..], i - 1, x, k);
    }
  }

  lemma {:induction false} CountZero(ws: seq<Worker>, k: Kind)
    ensures Count(ws, k) == 0 <==> forall i :: 0 <= i < |ws| ==> KindOf(ws[i]) != k
  {
    if ws != [] {
      CountZero(ws[1..], k);
      assert forall i :: 1 <= i < |ws| ==> ws[i] == ws[1..][i - 1];
    }
  }

  lemma {:induction false} CountWakeWorkers(ws: seq<Worker>)
    ensures Count(WakeWorkers(ws), IsRunning) == Count(ws, IsRunning)
  {
    if ws != [] {
      assert WakeWorkers(ws)[1..] == WakeWorkers(ws[1..]);
      CountWakeWorkers(ws[1..]);
    }
  }

  // ----- the invariant -----

  /** Orders below this number have been taken from the queue. */
  function Taken(s: State): int {
    s.added - |s.mem.queue|
  }

  ghost predicate HeldBy(s: State, o: nat, w: nat) {
    w < |s.workers| && s.workers[w].Running? && s.workers[w].order == o
  }

  ghost predicate Held(s: State, o: nat) {
    exists w: nat :: HeldBy(s, o, w)
  }

  /** Work and callback of order o have both returned and its worker moved on. */
  ghost predicate Finished(s: State, o: nat) {
    o in s.worked && o in s.calledBack && !Held(s, o)
  }

  /** The queue holds exactly the orders that were not taken, oldest first. */
  ghost predicate QueueIsFifo(s: State) {
    && |s.mem.queue| <= s.added
    && forall i :: 0 <= i < |s.mem.queue| ==> s.mem.queue[i] == Taken(s) + i
  }

  ghost predicate HoldersConsistent(s: State) {
    && (forall o: nat, w: nat :: HeldBy(s, o, w) ==>
          && o < Taken(s)
          && (o in s.worked <==> s.workers[w].phase != WorkPending)
          && (o in s.calledBack <==> s.workers[w].phase == ReportPending))
    && (forall o: nat, w: nat, v: nat :: HeldBy(s, o, w) && HeldBy(s, o, v) ==> w == v)
  }

  ghost predicate HistoryConsistent(s: State) {
    && (forall o: nat :: o in s.worked || o in s.calledBack ==> o < Taken(s))
    && (forall o: nat :: o < Taken(s) ==> Held(s, o) || (o in s.worked && o in s.calledBack))
  }

  ghost predicate ActiveIsExact(s: State) {
    s.mem.active == Count(s.workers, IsRunning)
  }

  ghost predicate ClosingConsistent(s: State) {
    && (s.mem.done <==> s.closing != Open)
    && (s.closing in {Joining, Closed} ==> Asleep !in s.workers)
    && (s.closing == Closed ==> forall w :: 0 <= w < |s.workers| ==> s.workers[w] == Exited)
    && (Exited in s.workers ==> s.mem.done)
  }

  /** While the pool is open, a sleeping worker means that every queued order has an
      awake worker of its own on the way to it. */
  ghost predicate NoLostOrder(s: State) {
    !s.mem.done && Asleep in s.workers ==> |s.mem.queue| <= Count(s.workers, IsIdle)
  }

  /** A sleeping caller still has something to wait for. */
  ghost predicate NoLostCaller(s: State) {
    (exists c :: 0 <= c < |s.callers| && s.callers[c].Sleeping?) ==> !Quiet(s.mem)
  }

  /** The last thing the destructor does is to wake the callers; none sleeps afterwards. */
  ghost predicate CallersReleased(s: State) {
    s.closing == Closed ==> forall c :: 0 <= c < |s.callers| ==> !s.callers[c].Sleeping?
  }

  ghost predicate Inv(s: State) {
    && |s.workers| >= 1
    && QueueIsFifo(s)
    && HoldersConsistent(s)
    && HistoryConsistent(s)
    && ActiveIsExact(s)
    && ClosingConsistent(s)
    && NoLostOrder(s)
    && NoLostCaller(s)
    && CallersReleased(s)
  }

  lemma InitInv(s: State)
    requires Init(s)
    ensures Inv(s)
  {
    CountZero(s.workers, IsRunning);
  }

  /** A holder held its order before the step too, or has just taken it from the queue's head. */
  lemma HolderBefore(s: State, step: Step, o: nat, w: nat)
    requires Inv(s) && Enabled(s, step) && HeldBy(Apply(s, step), o, w)
    ensures HeldBy(s, o, w) || (step == CheckForOrder(w) && o == Taken(s))
    ensures var t := Apply(s, step);
      && o < Taken(t)
      && (o in t.worked <==> t.workers[w].phase != WorkPending)
      && (o in t.calledBack <==> t.workers[w].phase == ReportPending)
  {
    if HeldBy(s, o, w) {
      if step.RunWork? || step.RunCallback? {
        assert HeldBy(s, s.workers[step.w].order, step.w);
      }
    }
  }

  lemma StepKeepsQueue(s: State, step: Step)
    requires Inv(s) && Enabled(s, step)
    ensures QueueIsFifo(Apply(s, step))
  {
    hide HoldersConsistent, HistoryConsistent, Count, ActiveIsExact, ClosingConsistent, NoLostOrder, NoLostCaller,
      CallersReleased, WakeCallers, WakeWorkers, AfterEnter, AfterResume;
  }

  lemma StepKeepsHistory(s: State, step: Step)
    requires Inv(s) && Enabled(s, step)
    ensures HistoryConsistent(Apply(s, step))
  {
    hide Count, ActiveIsExact, ClosingConsistent, NoLostOrder, NoLostCaller, CallersReleased, WakeCallers, AfterEnter,
      AfterResume;
    var t := Apply(s, step);
    forall o: nat | o < Taken(t)
      ensures Held(t, o) || (o in t.worked && o in t.calledBack)
    {
      if o < Taken(s) && Held(s, o) {
        var w: nat :| HeldBy(s, o, w);
        if t.workers[w].Running? {
          assert HeldBy(t, o, w);
        }
      } else if o >= Taken(s) {
        assert HeldBy(t, o, step.w);
      }
    }
  }

  lemma StepKeepsOrders(s: State, step: Step)
    requires Inv(s) && Enabled(s, step)
    ensures var t := Apply(s, step);
      QueueIsFifo(t) && HoldersConsistent(t) && HistoryConsistent(t)
  {
    hide Count, ActiveIsExact, ClosingConsistent, NoLostOrder, NoLostCaller, CallersReleased, WakeCallers, AfterEnter,
      AfterResume, QueueIsFifo, HistoryConsistent, WakeWorkers;
    StepKeepsQueue(s, step);
    StepKeepsHistory(s, step);
    var t := Apply(s, step);
    forall o: nat, w: nat | HeldBy(t, o, w)
      ensures o < Taken(t)
      ensures o in t.worked <==> t.workers[w].phase != WorkPending
      ensures o in t.calledBack <==> t.workers[w].phase == ReportPending
      ensures HeldBy(s, o, w) || (step == CheckForOrder(w) && o == Taken(s))
    {
      HolderBefore(s, step, o, w);
    }
  }

  lemma StepKeepsCounts(s: State, step: Step)
    requires Inv(s) && Enabled(s, step)
    ensures var t := Apply(s, step);
      ActiveIsExact(t) && ClosingConsistent(t)
  {
    hide Count, QueueIsFifo, HoldersConsistent, HistoryConsistent, NoLostOrder, NoLostCaller, CallersReleased;
    var t := Apply(s, step);
    match step
    case AddWork(Some(w)) =>
      CountUpdate(s.workers, w, Idle, IsRunning);
    case NotifyWorkers =>
      CountWakeWorkers(s.workers);
    case AddWork(None) =>
    case CallWait(_) =>
    case EnterWait(_) =>
    case WakeTimed(_, _) =>
    case ResumeWait(_) =>
    case SetDone =>
    case JoinWorkers =>
    case _ =>
      CountUpdate(s.workers, step.w, t.workers[step.w], IsRunning);
  }

  lemma StepKeepsWorkersAwake(s: State, step: Step)
    requires Inv(s) && Enabled(s, step)
    ensures NoLostOrder(Apply(s, step))
  {
    var t := Apply(s, step);
    if step.AddWork? && step.woken.Some? {
      CountUpdate(s.workers, step.woken.value, Idle, IsIdle);
    } else if IsWorkerStep(step) {
      CountUpdate(s.workers, step.w, t.workers[step.w], IsIdle);
    }
  }

  lemma StepKeepsCallers(s: State, step: Step)
    requires Inv(s) && Enabled(s, step)
    ensures NoLostCaller(Apply(s, step))
  {
    var t := Apply(s, step);
    forall c | 0 <= c < |t.callers| && t.callers[c].Sleeping?
      ensures !Quiet(t.mem)
    {
      if c < |s.callers| && s.callers[c].Sleeping? {
        assert !Quiet(s.mem);
      }
    }
  }

  lemma StepKeepsReleased(s: State, step: Step)
    requires Inv(s) && Enabled(s, step)
    ensures CallersReleased(Apply(s, step))
  {
    hide Count, QueueIsFifo, HoldersConsistent, HistoryConsistent, ActiveIsExact, NoLostOrder, NoLostCaller, AfterCheck,
      AfterReport;
  }

  /** Every atomic step of every thread keeps the invariant. */
  lemma StepKeepsInv(s: State, step: Step)
    requires Inv(s) && Enabled(s, step)
    ensures Inv(Apply(s, step))
  {
    StepKeepsOrders(s, step);
    StepKeepsCounts(s, step);
    StepKeepsWorkersAwake(s, step);
    StepKeepsCallers(s, step);
    StepKeepsReleased(s, step);
  }

  // ----- runs -----

  ghost predicate Next(s: State, step: Step, t: State) {
    Enabled(s, step) && t == Apply(s, step)
  }

  /** A run: the states passed through, and the step taken in each. */
  ghost predicate IsRun(states: seq<State>, steps: seq<Step>) {
    && |states| == |steps| + 1
    && Init(states[0])
    && forall i {:trigger steps[i]} :: 0 <= i < |steps| ==> Next(states[i], steps[i], states[i + 1])
  }

  lemma {:induction false} RunKeepsInv(states: seq<State>, steps: seq<Step>, n: nat)
    requires IsRun(states, steps) && n < |states|
    ensures Inv(states[n])
  {
    if n == 0 {
      InitInv(states[0]);
    } else {
      RunKeepsInv(states, steps, n - 1);
      StepKeepsInv(states[n - 1], steps[n - 1]);
    }
  }

  /** No lost wake-ups, in every state of every run: a worker sleeps only while the queue is
      covered by awake idle workers, and a caller sleeps only while there is work. */
  lemma NoLostWakeups(states: seq<State>, steps: seq<Step>, n: nat)
    requires IsRun(states, steps) && n < |states|
    ensures var s := states[n];
      && (!s.mem.done && Asleep in s.workers ==> |s.mem.queue| <= Count(s.workers, IsIdle))
      && (forall c :: 0 <= c < |s.callers| && s.callers[c].Sleeping? ==> s.mem.queue != [] || s.mem.active > 0)
  {
    RunKeepsInv(states, steps, n);
  }

  /** Hence the pool never stalls: while the pool is open and orders wait, some worker
      is awake, and an awake worker can always take a step. */
  lemma QueuedWorkHasAnAwakeWorker(states: seq<State>, steps: seq<Step>, n: nat)
    requires IsRun(states, steps) && n < |states|
    requires !states[n].mem.done && states[n].mem.queue != []
    ensures exists w: nat :: w < |states[n].workers| && WorkerCanStep(states[n], w)
  {
    var s := states[n];
    RunKeepsInv(states, steps, n);
    if Asleep in s.workers {
      CountZero(s.workers, IsIdle);
      var w: nat :| w < |s.workers| && KindOf(s.workers[w]) == IsIdle;
      assert WorkerCanStep(s, w);
    } else {
      assert s.workers[0] in s.workers;
      assert WorkerCanStep(s, 0);
    }
  }

  /** Worker w has a step of its own to take: it neither sleeps nor has ended. */
  ghost predicate WorkerCanStep(s: State, w: nat) {
    Enabled(s, CheckForOrder(w)) || Enabled(s, RunWork(w)) || Enabled(s, RunCallback(w)) || Enabled(s, ReportOrder(w))
  }

  lemma QuietMeansFinished(s: State, o: nat)
    requires Inv(s) && Quiet(s.mem) && o < s.added
    ensures Finished(s, o)
  {
    CountZero(s.workers, IsRunning);
  }

  /** Every added order is in exactly one place: waiting in the queue, held by exactly one
      worker, or finished. The active counter is the number of holders. */
  lemma OrdersAreConserved(states: seq<State>, steps: seq<Step>, n: nat, o: nat)
    requires IsRun(states, steps) && n < |states| && o < states[n].added
    ensures var s := states[n];
      && (o in s.mem.queue ==> !Held(s, o) && !Finished(s, o))
      && (Held(s, o) ==> !Finished(s, o)
                         && exists w: nat :: HeldBy(s, o, w) && forall v: nat :: HeldBy(s, o, v) ==> v == w)
      && (o in s.mem.queue || Held(s, o) || Finished(s, o))
      && (forall i, j :: 0 <= i < j < |s.mem.queue| ==> s.mem.queue[i] < s.mem.queue[j])
      && s.mem.active == Count(s.workers, IsRunning) >= 0
  {
    RunKeepsInv(states, steps, n);
    var s := states[n];
    if o >= Taken(s) {
      assert s.mem.queue[o - Taken(s)] == o;
    }
    if Held(s, o) {
      var w: nat :| HeldBy(s, o, w);
      assert forall v: nat :: HeldBy(s, o, v) ==> v == w;
    }
  }

  lemma {:induction false} TakenGrows(states: seq<State>, steps: seq<Step>, m: nat, n: nat)
    requires IsRun(states, steps) && m <= n < |states|
    ensures Taken(states[m]) <= Taken(states[n]) && states[m].added <= states[n].added
  {
    if m < n {
      TakenGrows(states, steps, m, n - 1);
      assert Next(states[n - 1], steps[n - 1], states[n]);
    }
  }

  /** First in, first out: an order that a worker picks up is older than every order picked
      up later in the run. */
  lemma OrdersAreTakenInOrder(states: seq<State>, steps: seq<Step>, m: nat, n: nat)
    requires IsRun(states, steps) && m < n < |steps|
    requires steps[m].CheckForOrder? && states[m + 1].workers[steps[m].w].Running?
    requires steps[n].CheckForOrder? && states[n + 1].workers[steps[n].w].Running?
    ensures states[m + 1].workers[steps[m].w].order < states[n + 1].workers[steps[n].w].order
  {
    RunKeepsInv(states, steps, m);
    RunKeepsInv(states, steps, n);
    TakenGrows(states, steps, m + 1, n);
  }

  // ----- what WaitForResults promises -----

  lemma {:induction false} CallersStay(states: seq<State>, steps: seq<Step>, m: nat, n: nat)
    requires IsRun(states, steps) && m <= n < |states|
    ensures |states[m].callers| <= |states[n].callers|
  {
    if m < n {
      CallersStay(states, steps, m, n - 1);
      assert Next(states[n - 1], steps[n - 1], states[n]);
    }
  }

  ghost predicate WokenForever(c: Caller) {
    c.Woken? && !c.timed
  }

  /** A caller without a timeout is woken in a quiet state, and true is returned only in a
      quiet state or to a caller woken that way. */
  lemma CallerStep(s: State, step: Step, c: nat)
    requires Inv(s) && Enabled(s, step) && c < |s.callers|
    ensures var t := Apply(s, step);
      && (WokenForever(t.callers[c]) && !t.mem.done ==>
            Quiet(t.mem) || (WokenForever(s.callers[c]) && !s.mem.done))
      && (t.callers[c] == Returned(true) ==>
            Quiet(t.mem) || s.callers[c] == Returned(true) || (WokenForever(s.callers[c]) && !s.mem.done))
  {
    StepKeepsInv(s, step);
  }

  lemma CallerStepInRun(states: seq<State>, steps: seq<Step>, n: nat, c: nat)
    requires IsRun(states, steps) && n < |steps| && c < |states[n].callers|
    ensures c < |states[n + 1].callers|
    ensures GotAnswer(states[n + 1], c) ==> Quiet(states[n + 1].mem) || GotAnswer(states[n], c)
  {
    RunKeepsInv(states, steps, n);
    CallerStep(states[n], steps[n], c);
  }

  /** Caller c has been told, or is about to be told, that there are results. */
  ghost predicate GotAnswer(s: State, c: nat) {
    c < |s.callers| && ((WokenForever(s.callers[c]) && !s.mem.done) || s.callers[c] == Returned(true))
  }

  ghost predicate SawQuiet(states: seq<State>, i: nat, j: nat) {
    exists k: nat :: i <= k <= j < |states| && Quiet(states[k].mem)
  }

  /** A caller that was woken, or got true, saw a quiet instant since its call, unless the
      pool is being shut down. */
  lemma {:induction false} AnsweredSawQuiet(states: seq<State>, steps: seq<Step>, i: nat, j: nat, c: nat)
    requires IsRun(states, steps) && i <= j < |states|
    requires c < |states[i].callers| && states[i].callers[c].Entering?
    ensures GotAnswer(states[j], c) ==> SawQuiet(states, i, j)
    decreases j
  {
    if i < j && GotAnswer(states[j], c) {
      CallersStay(states, steps, i, j - 1);
      CallerStepInRun(states, steps, j - 1, c);
      if !Quiet(states[j].mem) {
        AnsweredSawQuiet(states, steps, i, j - 1, c);
        var k: nat :| i <= k <= j - 1 && Quiet(states[k].mem);
      }
    }
  }

  /** If WaitForResults returns true then, at some instant k between the call (state i) and the
      return (state j), the queue was empty and no order active; so every order added before
      the call has finished both its work and its callback. */
  lemma WaitForResultsIsSound(states: seq<State>, steps: seq<Step>, i: nat, j: nat, c: nat)
    requires IsRun(states, steps) && i <= j < |states|
    requires c < |states[i].callers| && states[i].callers[c].Entering?
    requires c < |states[j].callers| && states[j].callers[c] == Returned(true)
    ensures exists k: nat :: i <= k <= j && Quiet(states[k].mem) &&
              forall o: nat :: o < states[i].added ==> Finished(states[k], o)
  {
    AnsweredSawQuiet(states, steps, i, j, c);
    var k: nat :| i <= k <= j && Quiet(states[k].mem);
    RunKeepsInv(states, steps, k);
    TakenGrows(states, steps, i, k);
    forall o: nat | o < states[i].added
      ensures Finished(states[k], o)
    {
      QuietMeansFinished(states[k], o);
    }
  }

  /** For the timed form the quiet instant is the return itself. */
  lemma TimedWaitReturnsInQuiet(states: seq<State>, steps: seq<Step>, j: nat, c: nat)
    requires IsRun(states, steps) && j < |steps|
    requires c < |states[j].callers| && !states[j].callers[c].Returned? && states[j].callers[c].timed
    requires c < |states[j + 1].callers| && states[j + 1].callers[c] == Returned(true)
    ensures var t := states[j + 1];
      Quiet(t.mem) && forall o: nat :: o < t.added ==> Finished(t, o)
  {
    RunKeepsInv(states, steps, j);
    RunKeepsInv(states, steps, j + 1);
    var t := states[j + 1];
    assert Next(states[j], steps[j], t);
    assert Quiet(t.mem);
    forall o: nat | o < t.added
      ensures Finished(t, o)
    {
      QuietMeansFinished(t, o);
    }
  }

  /** What one look at the pool answers a caller. In an open pool it is true when the pool is quiet,
      and to a caller without a timeout whenever it was woken; a caller whose time ran out gets false;
      the others sleep on. When the pool is done it is false. */
  lemma AnswerInRun(states: seq<State>, steps: seq<Step>, n: nat, c: nat)
    requires IsRun(states, steps) && n < |steps| && (steps[n] == EnterWait(c) || steps[n] == ResumeWait(c))
    ensures c < |states[n].callers| == |states[n + 1].callers|
    ensures var m, before, after := states[n].mem, states[n].callers[c], states[n + 1].callers[c];
      var woken := steps[n] == ResumeWait(c);
      && (before.Woken? <==> woken) && (before.Entering? <==> !woken)
      && (after == Returned(true) <==> !m.done && (Quiet(m) || (woken && !before.timed)))
      && (after == Returned(false) <==>
            m.done || (!Quiet(m) && woken && before.timed && before.timedOut))
      && (after == Sleeping(before.timed) <==>
            !m.done && !Quiet(m) && (!woken || (before.timed && !before.timedOut)))
  {
    assert Next(states[n], steps[n], states[n + 1]);
  }

  /** A call made with this flag keeps it until it returns; as long as the pool is open, one without a
      timeout does not return false. */
  ghost predicate IsCall(s: State, c: nat, timed: bool) {
    c < |s.callers| && match s.callers[c]
      case Returned(result) => !s.mem.done && !result ==> timed
      case Entering(t) => t == timed
      case Sleeping(t) => t == timed
      case Woken(t, _) => t == timed
  }

  lemma {:induction false} CallStaysCall(states: seq<State>, steps: seq<Step>, i: nat, j: nat)
    requires IsRun(states, steps) && i < j < |states| && steps[i].CallWait?
    ensures IsCall(states[j], |states[i].callers|, steps[i].timed)
  {
    if i + 1 < j {
      CallStaysCall(states, steps, i, j - 1);
    }
    assert Next(states[j - 1], steps[j - 1], states[j]);
  }

  /** In an open pool a call without a timeout that was made in state i and has returned by state j has
      returned true; with WaitForResultsIsSound, it returns, and then true, only after a quiet instant. */
  lemma UntimedCallReturnsTrue(states: seq<State>, steps: seq<Step>, i: nat, j: nat)
    requires IsRun(states, steps) && i < j < |states| && steps[i] == CallWait(false) && !states[j].mem.done
    ensures var c := |states[i].callers|;
      && c < |states[j].callers|
      && (states[j].callers[c].Returned? ==> states[j].callers[c] == Returned(true) && SawQuiet(states, i + 1, j))
  {
    var c := |states[i].callers|;
    CallStaysCall(states, steps, i, j);
    assert Next(states[i], steps[i], states[i + 1]);
    AnsweredSawQuiet(states, steps, i + 1, j, c);
  }

  /** The instant in which a call returns. */
  lemma {:induction false} ReturnedInStep(states: seq<State>, steps: seq<Step>, i: nat, j: nat, c: nat)
    returns (n: nat)
    requires IsRun(states, steps) && i <= j < |states| && c < |states[i].callers| && !states[i].callers[c].Returned?
    requires c < |states[j].callers| && states[j].callers[c].Returned?
    ensures i <= n < j && (steps[n] == EnterWait(c) || steps[n] == ResumeWait(c))
    ensures c < |states[n + 1].callers| && states[n + 1].callers[c] == states[j].callers[c]
  {
    CallersStay(states, steps, i, j - 1);
    assert Next(states[j - 1], steps[j - 1], states[j]);
    if states[j - 1].callers[c].Returned? {
      n := ReturnedInStep(states, steps, i, j - 1, c);
    } else {
      n := j - 1;
    }
  }

  /** Only the timer makes a wait time out; being notified does not. */
  lemma {:induction false} TimeRanOut(states: seq<State>, steps: seq<Step>, i: nat, j: nat, c: nat) returns (k: nat)
    requires IsRun(states, steps) && i <= j < |states| && c < |states[i].callers| <= |states[j].callers|
    requires states[i].callers[c] != Woken(true, true) && states[j].callers[c] == Woken(true, true)
    ensures i <= k < j && steps[k] == WakeTimed(c, true)
  {
    CallersStay(states, steps, i, j - 1);
    assert Next(states[j - 1], steps[j - 1], states[j]);
    if states[j - 1].callers[c] == Woken(true, true) {
      k := TimeRanOut(states, steps, i, j - 1, c);
    } else {
      k := j - 1;
    }
  }

  /** A call that begins in state i returns false only in an instant n in which the pool is done, or in which
      it is not quiet and the time of the call has run out, in step k. */
  lemma FalseHasAReason(states: seq<State>, steps: seq<Step>, i: nat, j: nat, c: nat) returns (n: nat, k: nat)
    requires IsRun(states, steps) && i <= j < |states| && c < |states[i].callers| && states[i].callers[c].Entering?
    requires c < |states[j].callers| && states[j].callers[c] == Returned(false)
    ensures i <= n < j && c < |states[n].callers|
    ensures states[n].mem.done || (!Quiet(states[n].mem) && i <= k < n && steps[k] == WakeTimed(c, true))
  {
    k := 0;
    n := ReturnedInStep(states, steps, i, j, c);
    AnswerInRun(states, steps, n, c);
    if !states[n].mem.done {
      CallersStay(states, steps, i, n);
      k := TimeRanOut(states, steps, i, n, c);
    }
  }

  /** In every state work can be added, the pool can be waited for, a wait with a timeout can end, and every
      worker and caller that neither sleeps nor is done can take its next step. */
  lemma NobodyIsBlocked(s: State, w: nat, c: nat, timed: bool) returns (woken: Option<nat>, step: Step)
    ensures Enabled(s, AddWork(woken)) && Enabled(s, CallWait(timed))
    ensures w < |s.workers| && s.workers[w] != Asleep && s.workers[w] != Exited ==>
      Enabled(s, step) && step in {CheckForOrder(w), RunWork(w), RunCallback(w), ReportOrder(w)}
    ensures c < |s.callers| && s.callers[c].Entering? ==> Enabled(s, EnterWait(c))
    ensures c < |s.callers| && s.callers[c].Woken? ==> Enabled(s, ResumeWait(c))
    ensures c < |s.callers| && s.callers[c] == Sleeping(true) ==> Enabled(s, WakeTimed(c, true))
  {
    woken := None;
    if Asleep in s.workers {
      var sleeper: nat :| sleeper < |s.workers| && s.workers[sleeper] == Asleep;
      woken := Some(sleeper);
    }
    step := CheckForOrder(w);
    if w < |s.workers| && s.workers[w].Running? {
      step := match s.workers[w].phase
        case WorkPending => RunWork(w)
        case CallbackPending => RunCallback(w)
        case ReportPending => ReportOrder(w);
    }
  }

  // ----- shutdown -----

  function Weight(w: Worker): nat {
    match w
    case Exited => 0
    case Idle => 1
    case Asleep => 1
    case Running(_, ReportPending) => 2
    case Running(_, CallbackPending) => 3
    case Running(_, WorkPending) => 4
  }

  function Measure(ws: seq<Worker>): nat {
    if ws == [] then 0 else Weight(ws[0]) + Measure(ws[1..])
  }

  lemma {:induction false} MeasureUpdate(ws: seq<Worker>, i: nat, x: Worker)
    requires i < |ws|
    ensures Measure(ws[i := x]) + Weight(ws[i]) == Measure(ws) + Weight(x)
  {
    if i == 0 {
      assert ws[0 := x][1..] == ws[1..];
    } else {
      assert ws[i := x][1..] == ws[1..][i - 1 := x];
      MeasureUpdate(ws[1..], i - 1, x);
    }
  }

  /** Once the destructor has notified the workers, none sleeps again, every step of a worker
      lowers the measure, no other step raises it, and no order leaves the queue. */
  lemma ShutdownStep(s: State, step: Step)
    requires Inv(s) && Enabled(s, step) && s.closing in {Joining, Closed}
    ensures var t := Apply(s, step);
      && t.closing in {Joining, Closed}
      && Asleep !in t.workers
      && (IsWorkerStep(step) ==> Measure(t.workers) < Measure(s.workers))
      && (!IsWorkerStep(step) ==> t.workers == s.workers)
      && s.mem.queue <= t.mem.queue && Taken(t) == Taken(s)
  {
    StepKeepsInv(s, step);
    var t := Apply(s, step);
    if IsWorkerStep(step) {
      MeasureUpdate(s.workers, step.w, t.workers[step.w]);
    }
  }

  lemma ShutdownStepInRun(states: seq<State>, steps: seq<Step>, n: nat)
    requires IsRun(states, steps) && n < |steps| && states[n].closing in {Joining, Closed}
    ensures states[n + 1].closing in {Joining, Closed}
    ensures (if IsWorkerStep(steps[n]) then 1 else 0) + Measure(states[n + 1].workers) <= Measure(states[n].workers)
    ensures states[n].mem.queue <= states[n + 1].mem.queue && Taken(states[n + 1]) == Taken(states[n])
  {
    RunKeepsInv(states, steps, n);
    ShutdownStep(states[n], steps[n]);
  }

  /** How many of the steps from number m up to number n were taken by workers. */
  function WorkerSteps(steps: seq<Step>, m: nat, n: nat): nat
    requires m <= n <= |steps|
  {
    if m == n then 0 else WorkerSteps(steps, m, n - 1) + (if IsWorkerStep(steps[n - 1]) then 1 else 0)
  }

  /** The join loop of the destructor ends: after the workers were notified in state m, all
      workers together take at most Measure steps, however the threads interleave; the
      orders nobody started stay in the queue. */
  lemma {:induction false} ShutdownIsBounded(states: seq<State>, steps: seq<Step>, m: nat, n: nat)
    requires IsRun(states, steps) && m <= n < |states| && states[m].closing == Joining
    ensures states[n].closing in {Joining, Closed}
    ensures WorkerSteps(steps, m, n) + Measure(states[n].workers) <= Measure(states[m].workers)
    ensures states[m].mem.queue <= states[n].mem.queue && Taken(states[n]) == Taken(states[m])
  {
    if m < n {
      ShutdownIsBounded(states, steps, m, n - 1);
      ShutdownStepInRun(states, steps, n - 1);
    }
  }

  /** While the destructor joins, some worker can take a step until all have ended; when all have
      ended, no order is held and the queue is exactly the set of unfinished orders; when the
      destructor has ended, no caller sleeps. */
  lemma ShutdownCompletes(states: seq<State>, steps: seq<Step>, n: nat)
    requires IsRun(states, steps) && n < |states| && states[n].closing in {Joining, Closed}
    ensures var s := states[n];
      && ((exists w: nat :: w < |s.workers| && WorkerCanStep(s, w))
        <==> (exists w: nat :: w < |s.workers| && s.workers[w] != Exited))
      && ((forall w: nat :: w < |s.workers| ==> s.workers[w] == Exited) ==>
            s.mem.active == 0 && forall o: nat :: o < s.added ==> (o in s.mem.queue <==> !Finished(s, o)))
      && (s.closing == Closed ==> forall c :: 0 <= c < |s.callers| ==> !s.callers[c].Sleeping?)
  {
    RunKeepsInv(states, steps, n);
    var s := states[n];
    forall w: nat | w < |s.workers|
      ensures WorkerCanStep(s, w) <==> s.workers[w] != Exited
    {
      assert s.workers[w] in s.workers;
    }
    if forall w: nat :: w < |s.workers| ==> s.workers[w] == Exited {
      CountZero(s.workers, IsRunning);
      forall o: nat | o < s.added
        ensures o in s.mem.queue <==> !Finished(s, o)
      {
        OrdersAreConserved(states, steps, n, o);
      }
    }
  }

  /** The step that caller c takes next, if it has one of its own. */
  function CallerStepOf(s: State, c: nat): Option<Step>
    requires c < |s.callers|
  {
    match s.callers[c]
    case Entering(_) => Some(EnterWait(c))
    case Woken(_, _) => Some(ResumeWait(c))
    case _ => None
  }

  /** So when the destructor has ended, every call of WaitForResults has returned or returns with its
      next step, and that is false; none waits for ever. */
  lemma CallersReturnAfterShutdown(states: seq<State>, steps: seq<Step>, n: nat, c: nat)
    requires IsRun(states, steps) && n < |states| && states[n].closing == Closed && c < |states[n].callers|
    ensures var s, next := states[n], CallerStepOf(states[n], c);
      && (next == None <==> s.callers[c].Returned?)
      && (next.Some? ==> Enabled(s, next.value) && Apply(s, next.value).callers[c] == Returned(false))
  {
    RunKeepsInv(states, steps, n);
  }
}
