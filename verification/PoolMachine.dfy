/** ThreadPool as a machine of atomic steps: every critical section is one step, and every
    access outside the mutex (the terminate check, the counter, the task itself) another.
    Tasks are numbered in the order in which exec queues them. */
module PoolMachine {
  import opened Wrappers

  /** Where a worker thread is in run() and get(). */
  datatype Worker =
    | Top                   // about to test isTerminate
    | Entering              // about to lock in get
    | Asleep                // waiting on the condition
    | Woken                 // notified, about to lock again
    | Claimed(task: nat)    // holds a task, counter not yet incremented
    | Running(task: nat)    // counter incremented, task not yet returned
    | Ran(task: nat)        // task returned, counter not yet decremented
    | Leaving               // about to lock and perhaps notify
    | Exited

  /** A thread that may call waitForAllDone. */
  datatype Caller = Away | Sleeping | Signalled

  /** What the thread that owns the pool is doing inside stop. */
  datatype Control = Free | Joining(next: nat)

  datatype State = State(
    threadNum: nat,
    queue: seq<nat>,
    workers: seq<Worker>,
    callers: seq<Caller>,
    terminate: bool,
    active: int,
    control: Control,
    submitted: nat,
    taken: seq<nat>,
    returned: seq<nat>)

  /** Whom notify_one wakes. */
  datatype Target = Nobody | TheWorker(w: nat) | TheCaller(c: nat)

  datatype Action =
    | Init(num: nat)
    | Start
    | Exec(target: Target)
    | Work(w: nat)
    | WaitForAllDone(c: nat)
    | Stop
    | Join
    | Clear

  function Initial(callers: nat): State {
    State(1, [], [], seq(callers, _ => Away), false, 0, Free, 0, [], [])
  }

  // ----- Steps -----

  function WakeWorkers(ws: seq<Worker>): (r: seq<Worker>)
    ensures |r| == |ws|
    ensures forall i :: 0 <= i < |ws| ==> r[i] == if ws[i] == Asleep then Woken else ws[i]
  {
    seq(|ws|, i requires 0 <= i < |ws| => if ws[i] == Asleep then Woken else ws[i])
  }

  function WakeCallers(cs: seq<Caller>): (r: seq<Caller>)
    ensures |r| == |cs|
    ensures forall i :: 0 <= i < |cs| ==> r[i] == if cs[i] == Sleeping then Signalled else cs[i]
  {
    seq(|cs|, i requires 0 <= i < |cs| => if cs[i] == Sleeping then Signalled else cs[i])
  }

  function NotifyAll(s: State): State {
    s.(workers := WakeWorkers(s.workers), callers := WakeCallers(s.callers))
  }

  /** notify_one wakes one of the threads asleep on the condition, whichever kind it is. */
  predicate MayNotify(s: State, target: Target) {
    match target
    case Nobody => Asleep !in s.workers && Sleeping !in s.callers
    case TheWorker(w) => w < |s.workers| && s.workers[w] == Asleep
    case TheCaller(c) => c < |s.callers| && s.callers[c] == Sleeping
  }

  function NotifyOne(s: State, target: Target): State
    requires MayNotify(s, target)
  {
    match target
    case Nobody => s
    case TheWorker(w) => s.(workers := s.workers[w := Woken])
    case TheCaller(c) => s.(callers := s.callers[c := Signalled])
  }

  function Put(s: State, w: nat, p: Worker): State
    requires w < |s.workers|
  {
    s.(workers := s.workers[w := p])
  }

  /** One critical section of get, entered or resumed after a wait (a wait may also end on
      its own). */
  function Get(s: State, w: nat): State
    requires w < |s.workers|
  {
    if s.terminate then Put(s, w, Top)
    else if s.queue == [] then Put(s, w, Asleep)
    else Put(s, w, Claimed(s.queue[0])).(queue := s.queue[1..], taken := s.taken + [s.queue[0]])
  }

  function WorkerStep(s: State, w: nat): State
    requires w < |s.workers| && s.workers[w] != Exited
  {
    match s.workers[w]
    case Top => Put(s, w, if s.terminate then Exited else Entering)
    case Entering => Get(s, w)
    case Asleep => Get(s, w)
    case Woken => Get(s, w)
    case Claimed(t) => Put(s, w, Running(t)).(active := s.active + 1)
    case Running(t) => Put(s, w, Ran(t)).(returned := s.returned + [t])
    case Ran(t) => Put(s, w, Leaving).(active := s.active - 1)
    case Leaving => var left := Put(s, w, Top);
                    if s.active == 0 && s.queue == [] then NotifyAll(left) else left
  }

  predicate Enabled(s: State, a: Action) {
    match a
    case Init(_) => true
    case Start => s.control == Free
    case Exec(target) => MayNotify(s, target)
    case Work(w) => w < |s.workers| && s.workers[w] != Exited
    case WaitForAllDone(c) => c < |s.callers|
    case Stop => s.control == Free
    case Join => s.control.Joining? && s.control.next < |s.workers| && s.workers[s.control.next] == Exited
    case Clear => s.control.Joining? && s.control.next >= |s.workers|
  }

  function Next(s: State, a: Action): State
    requires Enabled(s, a)
  {
    match a
    case Init(num) => if s.workers == [] then s.(threadNum := num) else s
    case Start => if s.workers == [] then s.(workers := seq(s.threadNum, _ => Top)) else s
    case Exec(target) => NotifyOne(s, target).(queue := s.queue + [s.submitted], submitted := s.submitted + 1)
    case Work(w) => WorkerStep(s, w)
    case WaitForAllDone(c) => s.(callers := s.callers[c := if s.queue == [] then Away else Sleeping])
    case Stop => NotifyAll(s).(terminate := true, control := Joining(0))
    case Join => s.(control := Joining(s.control.next + 1))
    case Clear => s.(workers := [], control := Free)
  }

  /** The state after a run of actions, if each is enabled in its turn. */
  function After(s: State, actions: seq<Action>): Option<State> {
    if actions == [] then Some(s)
    else
      match After(s, actions[..|actions| - 1])
      case None => None
      case Some(before) =>
        var a := actions[|actions| - 1];
        if Enabled(before, a) then Some(Next(before, a)) else None
  }

  // ----- Where the tasks are -----

  function Upto(n: nat): (r: seq<nat>)
    ensures |r| == n
    ensures forall i :: 0 <= i < n ==> r[i] == i
  {
    seq(n, i requires 0 <= i < n => i)
  }

  function Task(p: Worker): Option<nat> {
    if p.Claimed? || p.Running? then Some(p.task) else None
  }

  function Holds(p: Worker): multiset<nat> {
    match Task(p)
    case None => multiset{}
    case Some(t) => multiset{t}
  }

  /** Tasks taken from the queue that have not returned yet. */
  function InFlight(ws: seq<Worker>): multiset<nat> {
    if ws == [] then multiset{} else InFlight(ws[..|ws| - 1]) + Holds(ws[|ws| - 1])
  }

  function Counted(p: Worker): nat {
    if p.Running? || p.Ran? then 1 else 0
  }

  /** Workers between the increment of the counter and its decrement. */
  function CountActive(ws: seq<Worker>): nat {
    if ws == [] then 0 else CountActive(ws[..|ws| - 1]) + Counted(ws[|ws| - 1])
  }

  lemma AddInAnyOrder(a: multiset<nat>, b: multiset<nat>, c: multiset<nat>)
    ensures a + b + c == a + c + b
  {
  }

  lemma {:induction false} PutChangesInFlight(ws: seq<Worker>, w: nat, p: Worker)
    requires w < |ws|
    ensures InFlight(ws[w := p]) + Holds(ws[w]) == InFlight(ws) + Holds(p)
  {
    hide Holds;
    var n := |ws| - 1;
    if w == n {
      assert ws[w := p][..n] == ws[..n];
      AddInAnyOrder(InFlight(ws[..n]), Holds(p), Holds(ws[w]));
    } else {
      PutChangesInFlight(ws[..n], w, p);
      assert ws[w := p][..n] == ws[..n][w := p];
      AddInAnyOrder(InFlight(ws[..n][w := p]), Holds(ws[n]), Holds(ws[w]));
      AddInAnyOrder(InFlight(ws[..n]), Holds(p), Holds(ws[n]));
    }
  }

  lemma {:induction false} PutChangesActive(ws: seq<Worker>, w: nat, p: Worker)
    requires w < |ws|
    ensures CountActive(ws[w := p]) + Counted(ws[w]) == CountActive(ws) + Counted(p)
  {
    var n := |ws| - 1;
    if w == n {
      assert ws[w := p][..n] == ws[..n];
    } else {
      PutChangesActive(ws[..n], w, p);
      assert ws[w := p][..n] == ws[..n][w := p];
    }
  }

  /** The same tasks in the same hands. */
  predicate SameHands(a: seq<Worker>, b: seq<Worker>) {
    |a| == |b| && forall i :: 0 <= i < |a| ==> Task(a[i]) == Task(b[i]) && Counted(a[i]) == Counted(b[i])
  }

  lemma {:induction false} SameHoldings(a: seq<Worker>, b: seq<Worker>)
    requires SameHands(a, b)
    ensures InFlight(a) == InFlight(b) && CountActive(a) == CountActive(b)
  {
    if a != [] {
      SameHoldings(a[..|a| - 1], b[..|b| - 1]);
    }
  }

  predicate AllQuiet(ws: seq<Worker>) {
    forall i :: 0 <= i < |ws| ==> ws[i].Top? || ws[i].Exited?
  }

  lemma {:induction false} QuietHoldNothing(ws: seq<Worker>)
    requires AllQuiet(ws)
    ensures InFlight(ws) == multiset{} && CountActive(ws) == 0
  {
    if ws != [] {
      QuietHoldNothing(ws[..|ws| - 1]);
    }
  }

  // ----- What every step keeps: the tasks -----

  ghost predicate Ordered(s: State) {
    s.taken + s.queue == Upto(s.submitted)
  }

  ghost predicate Conserved(s: State) {
    && multiset(s.taken) == InFlight(s.workers) + multiset(s.returned)
    && s.active == CountActive(s.workers)
  }

  predicate AllExited(ws: seq<Worker>, n: nat) {
    n <= |ws| && forall w :: 0 <= w < n ==> ws[w] == Exited
  }

  ghost predicate StopOrder(s: State) {
    && (forall w :: 0 <= w < |s.workers| && s.workers[w] == Exited ==> s.terminate)
    && (s.control.Joining? ==> s.terminate && AllExited(s.workers, s.control.next))
  }

  lemma StepKeepsOrdered(s: State, a: Action)
    requires Ordered(s) && Enabled(s, a)
    ensures Ordered(Next(s, a))
  {
    if a.Exec? {
      assert s.taken + (s.queue + [s.submitted]) == s.taken + s.queue + [s.submitted] == Upto(s.submitted + 1);
    } else if Next(s, a).taken != s.taken {
      assert s.taken + [s.queue[0]] + s.queue[1..] == s.taken + s.queue;
    }
  }

  /** A worker's step changes that worker, and may wake all others. */
  lemma WorkerStepShape(s: State, w: nat)
    requires w < |s.workers| && s.workers[w] != Exited
    ensures
      var t := WorkerStep(s, w);
      |t.workers| == |s.workers|
      && (t.workers == s.workers[w := t.workers[w]]
          || (t.workers[w] == Top && t.workers == WakeWorkers(s.workers[w := Top])))
  {
  }

  lemma WorkerStepChangesOne(s: State, w: nat)
    requires w < |s.workers| && s.workers[w] != Exited
    ensures
      var t := WorkerStep(s, w);
      |t.workers| == |s.workers|
      && InFlight(t.workers) == InFlight(s.workers[w := t.workers[w]])
      && CountActive(t.workers) == CountActive(s.workers[w := t.workers[w]])
  {
    hide WorkerStep, InFlight, CountActive;
    WorkerStepShape(s, w);
    SameHoldings(WakeWorkers(s.workers[w := Top]), s.workers[w := Top]);
  }

  /** The counter follows the worker, and a task moves from the queue to the worker or from
      the worker to the returned ones. */
  lemma WorkerStepMovesTask(s: State, w: nat)
    requires w < |s.workers| && s.workers[w] != Exited
    ensures
      var t := WorkerStep(s, w);
      var was, now := s.workers[w], t.workers[w];
      && t.active + Counted(was) == s.active + Counted(now)
      && (|| (t.taken == s.taken && t.returned == s.returned && Task(was) == Task(now))
          || (now.Claimed? && t.taken == s.taken + [now.task] && t.returned == s.returned && Task(was) == None)
          || (was.Running? && t.taken == s.taken && t.returned == s.returned + [was.task] && Task(now) == None))
  {
  }

  lemma StepKeepsConserved(s: State, a: Action)
    requires Conserved(s) && StopOrder(s) && Enabled(s, a)
    ensures Conserved(Next(s, a))
  {
    if a.Work? {
      WorkKeepsConserved(s, a.w);
    } else {
      OthersKeepConserved(s, a);
    }
  }

  lemma OthersKeepConserved(s: State, a: Action)
    requires Conserved(s) && StopOrder(s) && Enabled(s, a) && !a.Work?
    ensures Conserved(Next(s, a))
  {
    hide InFlight, CountActive;
    OthersMoveNothing(s, a);
    var t := Next(s, a);
    hide Next, Enabled, StopOrder, SameHands, AllQuiet;
    if SameHands(s.workers, t.workers) {
      SameHoldings(s.workers, t.workers);
    } else {
      QuietHoldNothing(s.workers);
      QuietHoldNothing(t.workers);
    }
  }

  lemma OthersMoveNothing(s: State, a: Action)
    requires StopOrder(s) && Enabled(s, a) && !a.Work?
    ensures
      var t := Next(s, a);
      && t.taken == s.taken && t.returned == s.returned && t.active == s.active
      && (SameHands(s.workers, t.workers) || (AllQuiet(s.workers) && AllQuiet(t.workers)))
  {
  }

  lemma WorkKeepsConserved(s: State, w: nat)
    requires Conserved(s) && w < |s.workers| && s.workers[w] != Exited
    ensures Conserved(WorkerStep(s, w))
  {
    hide InFlight, CountActive, Holds, Counted, WorkerStep;
    WorkerStepChangesOne(s, w);
    WorkerStepMovesTask(s, w);
    var t := WorkerStep(s, w);
    PutChangesActive(s.workers, w, t.workers[w]);
    WorkerStepBalances(s, t, w);
  }

  lemma WorkerStepBalances(s: State, t: State, w: nat)
    requires Conserved(s) && w < |s.workers| && |t.workers| == |s.workers|
    requires InFlight(t.workers) == InFlight(s.workers[w := t.workers[w]])
    requires
      var was, now := s.workers[w], t.workers[w];
      (|| (t.taken == s.taken && t.returned == s.returned && Task(was) == Task(now))
       || (now.Claimed? && t.taken == s.taken + [now.task] && t.returned == s.returned && Task(was) == None)
       || (was.Running? && t.taken == s.taken && t.returned == s.returned + [was.task] && Task(now) == None))
    ensures multiset(t.taken) == InFlight(t.workers) + multiset(t.returned)
  {
    hide InFlight, CountActive;
    var was, now := s.workers[w], t.workers[w];
    PutChangesInFlight(s.workers, w, now);
    Balance(multiset(s.taken), multiset(t.taken), multiset(s.returned), multiset(t.returned),
      InFlight(s.workers), InFlight(t.workers), Holds(was), Holds(now));
  }

  lemma Balance(taken: multiset<nat>, taken': multiset<nat>, back: multiset<nat>, back': multiset<nat>,
                held: multiset<nat>, held': multiset<nat>, was: multiset<nat>, now: multiset<nat>)
    requires taken == held + back
    requires taken' + was + back == taken + now + back'
    requires held' + was == held + now
    ensures taken' == held' + back'
  {
    forall t ensures taken'[t] == held'[t] + back'[t] {
      assert taken[t] == held[t] + back[t];
      assert (taken' + was + back)[t] == (taken + now + back')[t];
      assert (held' + was)[t] == (held + now)[t];
    }
  }

  lemma StepKeepsStopOrder(s: State, a: Action)
    requires StopOrder(s) && Enabled(s, a)
    ensures StopOrder(Next(s, a))
  {
  }

  // ----- What every step keeps: nobody sleeps for good -----

  predicate Awake(p: Worker) {
    !p.Asleep? && !p.Exited?
  }

  /** Holds a task or has still to look whether to notify. */
  predicate Engaged(p: Worker) {
    p.Claimed? || p.Running? || p.Ran? || p.Leaving?
  }

  ghost predicate SomebodyAwake(s: State) {
    s.queue != [] && !s.terminate && s.workers != [] ==>
      exists w :: 0 <= w < |s.workers| && Awake(s.workers[w])
  }

  ghost predicate CallersCared(s: State) {
    s.queue == [] && Sleeping in s.callers ==>
      exists w :: 0 <= w < |s.workers| && Engaged(s.workers[w])
  }

  ghost predicate NoSleepAfterStop(s: State) {
    s.terminate ==> Asleep !in s.workers
  }

  lemma StepKeepsNoSleep(s: State, a: Action)
    requires NoSleepAfterStop(s) && Enabled(s, a)
    ensures NoSleepAfterStop(Next(s, a))
  {
  }

  lemma StepKeepsSomebodyAwake(s: State, a: Action)
    requires SomebodyAwake(s) && CallersCared(s) && StopOrder(s) && Enabled(s, a)
    ensures SomebodyAwake(Next(s, a))
  {
    var t := Next(s, a);
    if t.queue != [] && !t.terminate && t.workers != [] {
      match a
      case Work(w) => assert Awake(t.workers[w]);
      case Start =>
        if s.workers == [] {
          assert Awake(t.workers[0]);
        }
      case Exec(target) => ExecLeavesSomebodyAwake(s, target);
      case _ =>
    }
  }

  lemma ExecLeavesSomebodyAwake(s: State, target: Target)
    requires SomebodyAwake(s) && CallersCared(s) && StopOrder(s) && MayNotify(s, target)
    requires !s.terminate && s.workers != []
    ensures exists w :: 0 <= w < |s.workers| && Awake(NotifyOne(s, target).workers[w])
  {
    match target
    case Nobody => assert Awake(NotifyOne(s, target).workers[0]);
    case TheWorker(w) => assert Awake(NotifyOne(s, target).workers[w]);
    case TheCaller(c) =>
      if s.queue == [] {
        var w :| 0 <= w < |s.workers| && Engaged(s.workers[w]);
        assert Awake(NotifyOne(s, target).workers[w]);
      } else {
        var w :| 0 <= w < |s.workers| && Awake(s.workers[w]);
        assert Awake(NotifyOne(s, target).workers[w]);
      }
  }

  lemma {:induction false} ActiveMeansSomebodyRuns(ws: seq<Worker>)
    requires CountActive(ws) > 0
    ensures exists w :: 0 <= w < |ws| && (ws[w].Running? || ws[w].Ran?)
  {
    var n := |ws| - 1;
    if Counted(ws[n]) == 0 {
      ActiveMeansSomebodyRuns(ws[..n]);
      var w :| 0 <= w < n && (ws[..n][w].Running? || ws[..n][w].Ran?);
      assert ws[w] == ws[..n][w];
    }
  }

  lemma StepKeepsCallersCared(s: State, a: Action)
    requires CallersCared(s) && Conserved(s) && StopOrder(s) && Enabled(s, a)
    ensures CallersCared(Next(s, a))
  {
    hide WorkerStep, Conserved;
    if Next(s, a).queue == [] && Sleeping in Next(s, a).callers {
      if a.Work? {
        WorkCaresForCallers(s, a.w);
      } else {
        hide Next, Enabled, StopOrder;
        OthersLeaveSleepers(s, a);
        var v :| 0 <= v < |s.workers| && Engaged(s.workers[v]);
        OthersKeepEngaged(s, a, v);
      }
    }
  }

  lemma OthersLeaveSleepers(s: State, a: Action)
    requires Enabled(s, a) && !a.Work? && Next(s, a).queue == [] && Sleeping in Next(s, a).callers
    ensures s.queue == [] && Sleeping in s.callers
  {
  }

  lemma OthersKeepEngaged(s: State, a: Action, v: nat)
    requires StopOrder(s) && Enabled(s, a) && !a.Work? && v < |s.workers| && Engaged(s.workers[v])
    ensures v < |Next(s, a).workers| && Engaged(Next(s, a).workers[v])
  {
  }

  lemma WorkCaresForCallers(s: State, w: nat)
    requires CallersCared(s) && Conserved(s) && w < |s.workers| && s.workers[w] != Exited
    requires WorkerStep(s, w).queue == [] && Sleeping in WorkerStep(s, w).callers
    ensures |WorkerStep(s, w).workers| == |s.workers|
    ensures exists v :: 0 <= v < |s.workers| && Engaged(WorkerStep(s, w).workers[v])
  {
    var t := WorkerStep(s, w);
    if s.workers[w].Leaving? {
      ActiveMeansSomebodyRuns(s.workers);
      var v :| 0 <= v < |s.workers| && (s.workers[v].Running? || s.workers[v].Ran?);
      assert Engaged(t.workers[v]);
    } else if Engaged(t.workers[w]) {
    } else {
      var v :| 0 <= v < |s.workers| && Engaged(s.workers[v]);
      assert Engaged(t.workers[v]);
    }
  }

  // ----- Over whole runs -----

  ghost predicate Inv(s: State) {
    && Ordered(s) && Conserved(s) && StopOrder(s)
    && SomebodyAwake(s) && CallersCared(s) && NoSleepAfterStop(s)
  }

  lemma InitialInv(callers: nat)
    ensures Inv(Initial(callers))
  {
  }

  lemma StepKeepsInv(s: State, a: Action)
    requires Inv(s) && Enabled(s, a)
    ensures Inv(Next(s, a))
  {
    hide Ordered, Conserved, StopOrder, SomebodyAwake, CallersCared, NoSleepAfterStop, Enabled, Next;
    StepKeepsOrdered(s, a);
    StepKeepsConserved(s, a);
    StepKeepsStopOrder(s, a);
    StepKeepsSomebodyAwake(s, a);
    StepKeepsCallersCared(s, a);
    StepKeepsNoSleep(s, a);
  }

  lemma {:induction false} RunKeepsInv(s: State, actions: seq<Action>)
    requires Inv(s) && After(s, actions).Some?
    ensures Inv(After(s, actions).value)
  {
    hide Inv, Enabled, Next;
    if actions != [] {
      var before := actions[..|actions| - 1];
      RunKeepsInv(s, before);
      StepKeepsInv(After(s, before).value, actions[|actions| - 1]);
    }
  }

  /** Main result for the pool: in every reachable state the invariant holds. */
  lemma ReachableInv(callers: nat, actions: seq<Action>)
    requires After(Initial(callers), actions).Some?
    ensures Inv(After(Initial(callers), actions).value)
  {
    InitialInv(callers);
    RunKeepsInv(Initial(callers), actions);
  }

  // ----- What the invariant says about tasks -----

  lemma {:induction false} EachOnceUpto(n: nat)
    ensures forall t: nat :: multiset(Upto(n))[t] == if t < n then 1 else 0
  {
    if n > 0 {
      EachOnceUpto(n - 1);
      assert Upto(n) == Upto(n - 1) + [n - 1];
    }
  }

  /** Submitted tasks are exactly those queued, in flight and returned, and the tasks left
      the queue in the order in which they came. */
  lemma TasksAreConserved(s: State)
    requires Inv(s)
    ensures multiset(Upto(s.submitted)) == multiset(s.queue) + (InFlight(s.workers) + multiset(s.returned))
    ensures s.taken == Upto(|s.taken|)
    ensures forall i :: 0 <= i < |s.queue| ==> s.queue[i] == |s.taken| + i
  {
    hide InFlight, CountActive, StopOrder, SomebodyAwake, CallersCared, NoSleepAfterStop;
    assert multiset(s.taken + s.queue) == multiset(s.taken) + multiset(s.queue);
    forall i | 0 <= i < |s.taken| ensures s.taken[i] == i {
      assert (s.taken + s.queue)[i] == i;
    }
    forall i | 0 <= i < |s.queue| ensures s.queue[i] == |s.taken| + i {
      assert (s.taken + s.queue)[|s.taken| + i] == |s.taken| + i;
    }
  }

  /** A task taken from the queue is in exactly one place, once. */
  lemma TakenAtMostOnce(s: State, t: nat)
    requires Inv(s)
    ensures InFlight(s.workers)[t] + multiset(s.returned)[t] == if t < |s.taken| then 1 else 0
  {
    hide InFlight, CountActive, StopOrder, SomebodyAwake, CallersCared, NoSleepAfterStop, Upto;
    TasksAreConserved(s);
    EachOnceUpto(|s.taken|);
    assert multiset(s.taken)[t] == (InFlight(s.workers) + multiset(s.returned))[t];
  }

  lemma {:induction false} HandsAreFew(ws: seq<Worker>)
    ensures |InFlight(ws)| <= |ws| && CountActive(ws) <= |ws|
  {
    if ws != [] {
      HandsAreFew(ws[..|ws| - 1]);
    }
  }

  /** m_atomic counts the workers between its increment and its decrement, no others. */
  lemma CounterIsExact(s: State)
    requires Inv(s)
    ensures 0 <= s.active == CountActive(s.workers) <= |s.workers|
    ensures |InFlight(s.workers)| <= |s.workers|
  {
    HandsAreFew(s.workers);
  }

  // ----- waitForAllDone -----

  ghost predicate AllReturned(s: State) {
    multiset(s.returned) == multiset(Upto(s.submitted))
  }

  lemma {:induction false} NothingInFlight(ws: seq<Worker>)
    ensures InFlight(ws) == multiset{} <==> forall w :: 0 <= w < |ws| ==> Task(ws[w]) == None
  {
    if ws != [] {
      var n := |ws| - 1;
      NothingInFlight(ws[..n]);
      assert forall w :: 0 <= w < n ==> ws[..n][w] == ws[w];
      assert InFlight(ws) == multiset{} <==> InFlight(ws[..n]) == multiset{} && Task(ws[n]) == None by {
        assert |InFlight(ws)| == |InFlight(ws[..n])| + |Holds(ws[n])|;
      }
    }
  }

  /** All tasks are done if and only if the queue is empty and no worker holds a task. The
      code's wait tests the first half only. */
  lemma AllReturnedExactlyWhen(s: State)
    requires Inv(s)
    ensures AllReturned(s) <==> s.queue == [] && forall w :: 0 <= w < |s.workers| ==> Task(s.workers[w]) == None
  {
    hide InFlight, CountActive, StopOrder, SomebodyAwake, CallersCared, NoSleepAfterStop, Upto;
    TasksAreConserved(s);
    NothingInFlight(s.workers);
    var queued, held, back := multiset(s.queue), InFlight(s.workers), multiset(s.returned);
    assert |queued + (held + back)| == |s.queue| + |held| + |back|;
    assert |s.queue| + |held| == 0 ==> queued + (held + back) == back;
  }

  lemma OneMore(s: State, actions: seq<Action>, a: Action) returns (t: State)
    requires After(s, actions).Some? && Enabled(After(s, actions).value, a)
    ensures t == Next(After(s, actions).value, a) && After(s, actions + [a]) == Some(t)
  {
    assert (actions + [a])[..|actions|] == actions;
    t := Next(After(s, actions).value, a);
  }

  /** The call or wait of caller c ends in this state. */
  predicate WaitReturns(s: State, c: nat) {
    c < |s.callers| && Next(s, WaitForAllDone(c)).callers[c] == Away
  }

  /** With any number of workers waitForAllDone can return although the only task has not
      begun. m_atomic is 0 there: testing it as well would not help. */
  lemma WaitCanReturnEarly(n: nat, callers: nat) returns (actions: seq<Action>)
    requires n >= 1 && callers >= 1
    ensures actions == [Init(n), Start, Exec(Nobody), Work(0), Work(0)]
    ensures After(Initial(callers), actions).Some?
    ensures var s := After(Initial(callers), actions).value;
            && WaitReturns(s, 0) && s.queue == [] && s.active == 0
            && s.submitted == 1 && |s.workers| == n && s.workers[0] == Claimed(0) && s.returned == []
            && !AllReturned(s)
  {
    hide After;
    var s := Initial(callers);
    assert After(s, []) == Some(s) by { NoActions(s); }
    actions := [];
    var t := OneMore(s, actions, Init(n));
    actions := actions + [Init(n)];
    t := OneMore(s, actions, Start);
    actions := actions + [Start];
    t := OneMore(s, actions, Exec(Nobody));
    actions := actions + [Exec(Nobody)];
    t := OneMore(s, actions, Work(0));
    actions := actions + [Work(0)];
    t := OneMore(s, actions, Work(0));
    actions := actions + [Work(0)];
    assert |multiset(Upto(1))| == 1;
  }

  lemma NoActions(s: State)
    ensures After(s, []) == Some(s)
  {
  }

  predicate OnlyGiven(actions: seq<Action>, n: nat) {
    forall a :: a in actions && a.Init? ==> a.num == n
  }

  /** Without workers nothing is ever taken. */
  lemma {:induction false} NoWorkersNoProgress(callers: nat, actions: seq<Action>)
    requires actions != [] && actions[0] == Init(0) && OnlyGiven(actions, 0)
    requires After(Initial(callers), actions).Some?
    ensures var s := After(Initial(callers), actions).value;
            s.threadNum == 0 && s.workers == [] && s.taken == []
  {
    var n := |actions| - 1;
    var front := actions[..n];
    assert actions[n] in actions;
    if n == 0 {
      NoActions(Initial(callers));
      assert front == [];
    } else {
      assert front[0] == actions[0];
      NoWorkersNoProgress(callers, front);
    }
  }

  ghost predicate ReturnsIn(callers: nat, n: nat, actions: seq<Action>, c: nat) {
    && actions != [] && actions[0] == Init(n) && OnlyGiven(actions, n)
    && After(Initial(callers), actions).Some?
    && WaitReturns(After(Initial(callers), actions).value, c)
  }

  /** Exactly when waitForAllDone keeps its promise in every run, for a pool that is only ever
      given n workers: if and only if it is given none. */
  lemma WaitIsReliableExactlyWhen(n: nat, callers: nat)
    requires callers >= 1
    ensures (forall actions: seq<Action>, c: nat :: ReturnsIn(callers, n, actions, c) ==>
               AllReturned(After(Initial(callers), actions).value))
            <==> n == 0
  {
    if n == 0 {
      forall actions: seq<Action>, c: nat | ReturnsIn(callers, n, actions, c)
        ensures AllReturned(After(Initial(callers), actions).value)
      {
        NoWorkersNoProgress(callers, actions);
        ReachableInv(callers, actions);
        NothingTakenNothingDue(After(Initial(callers), actions).value);
      }
    } else {
      var actions := WaitCanReturnEarly(n, callers);
      assert ReturnsIn(callers, n, actions, 0);
    }
  }

  lemma NothingTakenNothingDue(s: State)
    requires Inv(s) && s.queue == [] && s.workers == []
    ensures AllReturned(s)
  {
    hide InFlight, CountActive, StopOrder, SomebodyAwake, CallersCared, NoSleepAfterStop, Upto;
    AllReturnedExactlyWhen(s);
  }

  // ----- Nothing waits in vain -----

  /** Steps a worker has still to take before it looks into the queue. */
  function StepsToQueue(p: Worker): nat {
    match p
    case Claimed(_) => 6
    case Running(_) => 5
    case Ran(_) => 4
    case Leaving => 3
    case Top => 2
    case _ => 1
  }

  /** A queued task always has a worker that is on its way, so the steps that
      QueuedTaskIsTaken counts are never out of reach. */
  lemma QueuedTaskIsOnItsWay(s: State) returns (w: nat)
    requires Inv(s) && s.queue != [] && !s.terminate && s.workers != []
    ensures Enabled(s, Work(w)) && Awake(s.workers[w])
    ensures var t := Next(s, Work(w));
            || t.taken == s.taken + [s.queue[0]]
            || (t.queue == s.queue && Awake(t.workers[w]) && StepsToQueue(t.workers[w]) < StepsToQueue(s.workers[w]))
  {
    w :| 0 <= w < |s.workers| && Awake(s.workers[w]);
  }

  function Total(rank: Worker -> nat, ws: seq<Worker>): nat {
    if ws == [] then 0 else Total(rank, ws[..|ws| - 1]) + rank(ws[|ws| - 1])
  }

  lemma {:induction false} PutChangesTotal(rank: Worker -> nat, ws: seq<Worker>, w: nat, p: Worker)
    requires w < |ws|
    ensures Total(rank, ws[w := p]) + rank(ws[w]) == Total(rank, ws) + rank(p)
  {
    var n := |ws| - 1;
    if w == n {
      assert ws[w := p][..n] == ws[..n];
    } else {
      PutChangesTotal(rank, ws[..n], w, p);
      assert ws[w := p][..n] == ws[..n][w := p];
    }
  }

  lemma OneTimesMore(k: nat, n: nat)
    requires n > 0
    ensures k * n == k * (n - 1) + k
  {
  }

  lemma {:induction false} TotalIsBetween(rank: Worker -> nat, ws: seq<Worker>, low: nat, high: nat)
    requires forall p :: low <= rank(p) <= high
    ensures low * |ws| <= Total(rank, ws) <= high * |ws|
  {
    if ws != [] {
      TotalIsBetween(rank, ws[..|ws| - 1], low, high);
      OneTimesMore(low, |ws|);
      OneTimesMore(high, |ws|);
    }
  }

  function WorkSteps(actions: seq<Action>): nat {
    if actions == [] then 0
    else WorkSteps(actions[..|actions| - 1]) + if actions[|actions| - 1].Work? then 1 else 0
  }

  /** The oldest task of s is taken in t, or the workers have come nearer to it. */
  ghost predicate Approaches(s: State, t: State, steps: nat)
    requires s.queue != []
  {
    || s.taken + [s.queue[0]] <= t.taken
    || (&& t.taken == s.taken && s.queue <= t.queue && |t.workers| == |s.workers|
        && steps + Total(StepsToQueue, t.workers) <= Total(StepsToQueue, s.workers))
  }

  lemma StepApproaches(s: State, a: Action)
    requires Inv(s) && !s.terminate && s.queue != [] && s.workers != [] && Enabled(s, a) && a != Stop
    ensures !Next(s, a).terminate && Approaches(s, Next(s, a), if a.Work? then 1 else 0)
  {
    hide Ordered, Conserved, SomebodyAwake, CallersCared, NoSleepAfterStop, Total;
    var t := Next(s, a);
    if a.Work? {
      PutChangesTotal(StepsToQueue, s.workers, a.w, t.workers[a.w]);
      assert t.workers == s.workers[a.w := t.workers[a.w]];
    } else if a.Exec? && a.target.TheWorker? {
      PutChangesTotal(StepsToQueue, s.workers, a.target.w, Woken);
    } else {
      assert t.workers == s.workers;
    }
  }

  lemma StepKeepsTaken(s: State, a: Action)
    requires Enabled(s, a)
    ensures s.taken <= Next(s, a).taken
    ensures a != Stop && !s.terminate ==> !Next(s, a).terminate
  {
  }

  lemma {:induction false} RunApproaches(s: State, actions: seq<Action>)
    requires Inv(s) && !s.terminate && s.queue != [] && s.workers != []
    requires After(s, actions).Some? && Stop !in actions
    ensures !After(s, actions).value.terminate && Approaches(s, After(s, actions).value, WorkSteps(actions))
  {
    hide Inv, Next, Enabled, Total;
    if actions != [] {
      var n := |actions| - 1;
      var a, before := actions[n], After(s, actions[..n]).value;
      assert a in actions;
      RunApproaches(s, actions[..n]);
      RunKeepsInv(s, actions[..n]);
      StepKeepsTaken(before, a);
      if !(s.taken + [s.queue[0]] <= before.taken) {
        StepApproaches(before, a);
      }
    }
  }

  /** One condition serves workers and waiting callers, and notify_one may wake a caller that
      only goes back to sleep. Still, in every run without stop, more than five steps for each
      worker are enough for the oldest queued task to be taken. */
  lemma QueuedTaskIsTaken(s: State, actions: seq<Action>)
    requires Inv(s) && !s.terminate && s.queue != [] && s.workers != []
    requires After(s, actions).Some? && Stop !in actions
    requires WorkSteps(actions) > 5 * |s.workers|
    ensures s.taken + [s.queue[0]] <= After(s, actions).value.taken
  {
    hide Inv, After, WorkSteps, Total;
    RunApproaches(s, actions);
    TotalIsBetween(StepsToQueue, s.workers, 1, 6);
    TotalIsBetween(StepsToQueue, After(s, actions).value.workers, 1, 6);
  }

  /** A worker that has counted itself off wakes everybody if it was the last and nothing is
      queued, and otherwise nobody. */
  lemma LastWorkerWakesEverybody(s: State, w: nat)
    requires Inv(s) && w < |s.workers| && s.workers[w] == Leaving
    ensures var t := Next(s, Work(w));
            if s.queue == [] && CountActive(s.workers) == 0 then Sleeping !in t.callers && Asleep !in t.workers
            else t.callers == s.callers && t.workers == s.workers[w := Top]
  {
    hide CountActive;
  }

  /** With an empty queue and no task in hand every caller has been notified. */
  lemma NoCallerIsForgotten(s: State)
    requires Inv(s) && s.queue == [] && forall w :: 0 <= w < |s.workers| ==> !Engaged(s.workers[w])
    ensures Sleeping !in s.callers
  {
  }

  // ----- stop -----

  /** Once terminate is set nothing leaves the queue any more, also after another start, and a
      caller waiting for a non-empty queue never returns. */
  lemma {:induction false} TerminateIsFinal(s: State, actions: seq<Action>)
    requires s.terminate && After(s, actions).Some?
    ensures var t := After(s, actions).value;
            && t.terminate && t.taken == s.taken && s.queue <= t.queue
            && |t.callers| == |s.callers|
            && (s.queue != [] ==> forall c :: 0 <= c < |s.callers| && s.callers[c] != Away ==> t.callers[c] != Away)
  {
    if actions != [] {
      hide Next, Enabled;
      TerminateIsFinal(s, actions[..|actions| - 1]);
      TerminatedStep(After(s, actions[..|actions| - 1]).value, actions[|actions| - 1]);
    }
  }

  lemma TerminatedStep(s: State, a: Action)
    requires s.terminate && Enabled(s, a)
    ensures var t := Next(s, a);
            && t.terminate && t.taken == s.taken && s.queue <= t.queue
            && |t.callers| == |s.callers|
            && (s.queue != [] ==> forall c :: 0 <= c < |s.callers| && s.callers[c] != Away ==> t.callers[c] != Away)
  {
  }

  /** When stop returns every task that was taken has returned. */
  lemma StopReturnsQuiet(s: State)
    requires Inv(s) && Enabled(s, Clear)
    ensures var t := Next(s, Clear);
            t.workers == [] && t.active == 0 && multiset(t.taken) == multiset(t.returned)
  {
    QuietHoldNothing(s.workers);
  }

  function StepsToExit(p: Worker): nat {
    match p
    case Exited => 0
    case Top => 1
    case Entering => 2
    case Woken => 2
    case Asleep => 2
    case Leaving => 3
    case Ran(_) => 4
    case Running(_) => 5
    case Claimed(_) => 6
  }

  /** While stop joins, the thread it waits for can always take a step of its own. */
  lemma JoinIsNeverStuck(s: State)
    requires Inv(s) && s.control.Joining?
    ensures Enabled(s, Clear) || Enabled(s, Join) ||
      (Enabled(s, Work(s.control.next)) && s.workers[s.control.next] != Asleep)
  {
  }

  lemma StepTowardsExit(s: State, a: Action)
    requires Inv(s) && s.terminate && Enabled(s, a) && a != Start
    ensures Total(StepsToExit, Next(s, a).workers) + (if a.Work? then 1 else 0) <= Total(StepsToExit, s.workers)
  {
    if a.Work? {
      assert NoSleepAfterStop(s);
      hide Inv, WorkerStep, Total, StepsToExit;
      WorkTowardsExit(s, a.w);
      PutChangesTotal(StepsToExit, s.workers, a.w, Next(s, a).workers[a.w]);
    } else {
      OthersTowardsExit(s, a);
    }
  }

  lemma WorkTowardsExit(s: State, w: nat)
    requires NoSleepAfterStop(s) && s.terminate && w < |s.workers| && s.workers[w] != Exited
    ensures var t := WorkerStep(s, w);
            && |t.workers| == |s.workers|
            && t.workers == s.workers[w := t.workers[w]]
            && StepsToExit(t.workers[w]) < StepsToExit(s.workers[w])
  {
  }

  lemma OthersTowardsExit(s: State, a: Action)
    requires NoSleepAfterStop(s) && s.terminate && Enabled(s, a) && a != Start && !a.Work?
    ensures Total(StepsToExit, Next(s, a).workers) <= Total(StepsToExit, s.workers)
  {
    hide StepsToExit;
    if a.Clear? {
      assert Next(s, a).workers == [];
    } else {
      assert Next(s, a).workers == s.workers;
    }
  }

  /** After terminate is set the workers have only a bounded number of steps left, whatever
      else happens short of another start: with JoinIsNeverStuck, stop ends. */
  lemma {:induction false} WorkersRunOut(s: State, actions: seq<Action>)
    requires Inv(s) && s.terminate && After(s, actions).Some? && Start !in actions
    ensures WorkSteps(actions) + Total(StepsToExit, After(s, actions).value.workers) <= Total(StepsToExit, s.workers)
    ensures Total(StepsToExit, s.workers) <= 6 * |s.workers|
  {
    TotalIsBetween(StepsToExit, s.workers, 0, 6);
    if actions != [] {
      hide Inv, Next, Enabled, Total;
      var before := actions[..|actions| - 1];
      WorkersRunOut(s, before);
      RunKeepsInv(s, before);
      TerminateIsFinal(s, before);
      StepTowardsExit(After(s, before).value, actions[|actions| - 1]);
    }
  }
}
