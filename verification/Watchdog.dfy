/** The watchdog supervisor (lab 25): reports, feeds and the mutex between them. */
module Watchdog {
  const TASK_COUNT := 2
  const REQUIRED: set<nat> := {0, 1}

  datatype State = Uninitialized | Running | Faulted

  datatype Result = OK | WAITING | EINVAL | EWOULDBLOCK | EALREADY | ENODEV | EIO | Driver(rc: int)

  datatype Context = Context(dev: bool, state: State, channel: int, reported: set<nat>)

  const ZEROED := Context(false, Uninitialized, 0, {})

  /** What the outside world answers to watchdog_init: readiness, and the return codes of its three calls. */
  datatype Setup = Setup(present: bool, inIsr: bool, ready: bool, mutexInit: int, install: int, setup: int)

  /** watchdog_init: the state is FAULTED until everything has worked. */
  function Init(c: Context, s: Setup): (Context, Result) {
    if !s.present then (c, EINVAL)
    else if s.inIsr then (c, EWOULDBLOCK)
    else if c.state != Uninitialized then (c, EALREADY)
    else if !s.ready then (c, ENODEV)
    else if s.mutexInit != 0 then (c, Driver(s.mutexInit))
    else if s.install < 0 then (Context(true, Faulted, -1, {}), Driver(s.install))
    else if s.setup != 0 then (Context(true, Faulted, s.install, {}), Driver(s.setup))
    else (Context(true, Running, s.install, {}), OK)
  }

  // The regions under the mutex

  function Mark(c: Context, task: nat): (Context, Result) {
    if c.state != Running then (c, EIO) else (c.(reported := c.reported + {task}), OK)
  }

  predicate MayFeed(c: Context) {
    c.state == Running && c.reported == REQUIRED
  }

  function Refusal(c: Context): Result {
    if c.state != Running then EIO else WAITING
  }

  /** What follows the feed, still under the mutex. */
  function Settle(c: Context, rc: int): (Context, Result) {
    if rc == 0 then (c.(reported := {}), OK) else (c.(state := Faulted), Driver(rc))
  }

  // Any number of threads

  datatype Pc = Resting | WantsReport(task: nat) | Reporting(task: nat) | WantsService | Serving | HasFed(rc: int)

  /** What an observer of the watchdog device and of the reports sees. */
  datatype Item = Reported(task: nat) | Feed(ok: bool)

  datatype System = System(c: Context, holder: int, threads: seq<Pc>, trace: seq<Item>)

  datatype Step =
    | Start(setup: Setup)
    | CallReport(thread: nat, task: nat)
    | CallService(thread: nat)
    | Lock(thread: nat)
    | Go(thread: nat, feedRc: int)

  const NOBODY := -1

  /** One step of the holder of the mutex; feedRc is what wdt_feed returns if it is called. */
  function Act(s: System, t: nat, feedRc: int): System
    requires t < |s.threads|
  {
    var free := s.(holder := NOBODY, threads := s.threads[t := Resting]);
    match s.threads[t]
    case Reporting(task) =>
      free.(c := Mark(s.c, task).0, trace := if s.c.state == Running then s.trace + [Reported(task)] else s.trace)
    case Serving =>
      if !MayFeed(s.c) then free
      else s.(threads := s.threads[t := HasFed(feedRc)], trace := s.trace + [Feed(feedRc == 0)])
    case HasFed(rc) => free.(c := Settle(s.c, rc).0)
    case _ => s
  }

  function Take(s: System, step: Step): System {
    match step
    case Start(setup) => if s.holder == NOBODY then s.(c := Init(s.c, setup).0) else s
    case CallReport(t, task) =>
      if t < |s.threads| && s.threads[t] == Resting && s.c.dev && task < TASK_COUNT then
        s.(threads := s.threads[t := WantsReport(task)])
      else s
    case CallService(t) =>
      if t < |s.threads| && s.threads[t] == Resting && s.c.dev then s.(threads := s.threads[t := WantsService]) else s
    case Lock(t) =>
      if t >= |s.threads| || s.holder != NOBODY then s
      else if s.threads[t].WantsReport? then s.(holder := t, threads := s.threads[t := Reporting(s.threads[t].task)])
      else if s.threads[t] == WantsService then s.(holder := t, threads := s.threads[t := Serving])
      else s
    case Go(t, feedRc) => if t < |s.threads| && s.holder == t then Act(s, t, feedRc) else s
  }

  function Run(threads: nat, steps: seq<Step>): System
    decreases |steps|
  {
    if steps == [] then System(ZEROED, NOBODY, Asleep(threads), [])
    else Take(Run(threads, steps[..|steps| - 1]), steps[|steps| - 1])
  }

  function Asleep(n: nat): (p: seq<Pc>)
    ensures |p| == n && forall t :: 0 <= t < n ==> p[t] == Resting
  {
    if n == 0 then [] else Asleep(n - 1) + [Resting]
  }

  // The trace

  /** Where the present window begins: after the last feed that worked. */
  function WindowStart(trace: seq<Item>): (k: nat)
    ensures k <= |trace|
    decreases |trace|
  {
    if trace == [] then 0
    else if trace[|trace| - 1] == Feed(true) then |trace|
    else WindowStart(trace[..|trace| - 1])
  }

  /** The tasks that have reported in the present window. */
  function InWindow(trace: seq<Item>): set<nat>
    decreases |trace|
  {
    if trace == [] then {}
    else
      Joined(InWindow(trace[..|trace| - 1]), trace[|trace| - 1])
  }

  function Joined(tasks: set<nat>, x: Item): set<nat> {
    if x.Reported? then tasks + {x.task} else if x.ok then {} else tasks
  }

  lemma {:induction false} InWindowMeaning(trace: seq<Item>, task: nat)
    ensures task in InWindow(trace) <==> exists k :: WindowStart(trace) <= k < |trace| && trace[k] == Reported(task)
    decreases |trace|
  {
    if trace != [] {
      var rest := trace[..|trace| - 1];
      InWindowMeaning(rest, task);
      forall k | WindowStart(trace) <= k < |rest| ensures trace[k] == rest[k] {
      }
    }
  }

  lemma TraceNext(trace: seq<Item>, x: Item)
    ensures InWindow(trace + [x]) == Joined(InWindow(trace), x)
    ensures Broken(trace + [x]) == (Broken(trace) || x == Feed(false))
  {
  }

  predicate Broken(trace: seq<Item>) {
    Feed(false) in trace
  }

  /** Every feed comes after reports of all required tasks in its window, and after no failed feed. */
  ghost predicate Safe(trace: seq<Item>) {
    forall j :: 0 <= j < |trace| && trace[j].Feed? ==> REQUIRED <= InWindow(trace[..j]) && !Broken(trace[..j])
  }

  lemma SafeNext(trace: seq<Item>, x: Item)
    requires Safe(trace) && (x.Feed? ==> REQUIRED <= InWindow(trace) && !Broken(trace))
    ensures Safe(trace + [x])
  {
    var longer := trace + [x];
    forall j | 0 <= j < |longer| && longer[j].Feed? ensures REQUIRED <= InWindow(longer[..j]) && !Broken(longer[..j]) {
      assert longer[..j] == trace[..j];
      if j == |trace| { assert trace[..j] == trace; }
    }
  }

  // The invariant

  predicate Holds(p: Pc) {
    p.Reporting? || p.Serving? || p.HasFed?
  }

  /** The mask is the window's reports, except between a feed and the clearing that follows under the same lock. */
  ghost predicate Inv(s: System) {
    && Safe(s.trace)
    && (s.holder == NOBODY || 0 <= s.holder < |s.threads|)
    && (forall t :: 0 <= t < |s.threads| ==> (Holds(s.threads[t]) <==> s.holder == t))
    && (forall t :: 0 <= t < |s.threads| && (s.threads[t].Reporting? || s.threads[t].WantsReport?) ==>
          s.threads[t].task < TASK_COUNT)
    && (s.c.state == Uninitialized ==> s.trace == [] && s.c.reported == {})
    && if s.holder != NOBODY && s.threads[s.holder].HasFed? then
         && s.c.state == Running
         && (if s.threads[s.holder].rc == 0 then InWindow(s.trace) == {} && !Broken(s.trace) else true)
       else
         && (s.c.state == Running ==> s.c.reported == InWindow(s.trace) && !Broken(s.trace))
  }

  lemma ActKeepsInv(s: System, t: nat, feedRc: int)
    requires Inv(s) && t < |s.threads| && s.holder == t
    ensures Inv(Act(s, t, feedRc))
  {
    hide Safe, InWindow, Broken;
    match s.threads[t]
    case Reporting(task) =>
      TraceNext(s.trace, Reported(task));
      SafeNext(s.trace, Reported(task));
    case Serving =>
      TraceNext(s.trace, Feed(feedRc == 0));
      if MayFeed(s.c) {
        SafeNext(s.trace, Feed(feedRc == 0));
      }
    case HasFed(rc) =>
    case _ =>
  }

  lemma StepKeepsInv(s: System, step: Step)
    requires Inv(s)
    ensures Inv(Take(s, step))
  {
    hide Safe, Act;
    match step
    case Start(_) =>
    case CallReport(_, _) =>
    case CallService(_) =>
    case Lock(_) =>
    case Go(t, feedRc) =>
      if t < |s.threads| && s.holder == t {
        ActKeepsInv(s, t, feedRc);
      }
  }

  lemma {:induction false} RunKeepsInv(threads: nat, steps: seq<Step>)
    ensures Inv(Run(threads, steps))
    decreases |steps|
  {
    if steps != [] {
      hide Inv, Take;
      RunKeepsInv(threads, steps[..|steps| - 1]);
      StepKeepsInv(Run(threads, steps[..|steps| - 1]), steps[|steps| - 1]);
    }
  }

  /** The task has reported before position j, after the last feed that worked. */
  ghost predicate ReportedBefore(trace: seq<Item>, j: nat, task: nat)
    requires j <= |trace|
  {
    exists k :: WindowStart(trace[..j]) <= k < j && trace[k] == Reported(task)
  }

  /** For every number of threads and every interleaving: before each feed, every required task has reported since the
      last feed that worked; and after a feed that failed there is never another. */
  lemma FeedsAreEarned(threads: nat, steps: seq<Step>, j: nat)
    requires j < |Run(threads, steps).trace| && Run(threads, steps).trace[j].Feed?
    ensures var trace := Run(threads, steps).trace;
            && (forall task: nat :: task < TASK_COUNT ==> ReportedBefore(trace, j, task))
            && (forall i :: 0 <= i < j ==> trace[i] != Feed(false))
  {
    RunKeepsInv(threads, steps);
    var trace := Run(threads, steps).trace;
    hide Run, InWindow;
    forall task: nat | task < TASK_COUNT ensures ReportedBefore(trace, j, task) {
      assert task in REQUIRED;
      InWindowMeaning(trace[..j], task);
      var k :| WindowStart(trace[..j]) <= k < j && trace[..j][k] == Reported(task);
      assert trace[k] == Reported(task);
    }
    forall i | 0 <= i < j ensures trace[i] != Feed(false) {
      assert trace[..j][i] == trace[i] && trace[..j][i] in trace[..j];
    }
  }

  /** Every required task has reported since the last feed that worked. */
  ghost predicate Due(trace: seq<Item>) {
    ReportedBefore(trace, |trace|, 0) && ReportedBefore(trace, |trace|, 1)
  }

  lemma DueIsRequired(trace: seq<Item>)
    ensures Due(trace) <==> REQUIRED <= InWindow(trace)
  {
    assert trace[..|trace|] == trace;
    InWindowMeaning(trace, 0);
    InWindowMeaning(trace, 1);
    assert REQUIRED <= InWindow(trace) <==> 0 in InWindow(trace) && 1 in InWindow(trace);
  }

  /** In every run: a service call that holds the mutex feeds exactly if the supervisor runs and every task has reported
      since the last feed that worked; otherwise it gives the mutex back and nothing has changed. */
  lemma ServiceFeedsWhenDue(threads: nat, steps: seq<Step>, t: nat, feedRc: int)
    requires t < |Run(threads, steps).threads| && Run(threads, steps).threads[t] == Serving
    ensures var s := Run(threads, steps); var n := Take(s, Go(t, feedRc));
            && s.holder == t
            && (s.c.state == Running && Due(s.trace) ==>
                  n.trace == s.trace + [Feed(feedRc == 0)] && n.threads[t] == HasFed(feedRc) && n.holder == t)
            && (!(s.c.state == Running && Due(s.trace)) ==>
                  n.trace == s.trace && n.c == s.c && n.threads[t] == Resting && n.holder == NOBODY)
  {
    hide Run, Safe, Broken, InWindow, Due;
    RunKeepsInv(threads, steps);
    var s := Run(threads, steps);
    DueIsRequired(s.trace);
    ReportsAreOfTasks(threads, steps);
  }

  /** Only required tasks ever report. */
  lemma {:induction false} ReportsAreOfTasks(threads: nat, steps: seq<Step>)
    ensures InWindow(Run(threads, steps).trace) <= REQUIRED
    decreases |steps|
  {
    if steps != [] {
      ReportsAreOfTasks(threads, steps[..|steps| - 1]);
      RunKeepsInv(threads, steps[..|steps| - 1]);
      hide Safe, Broken, InWindow, Take;
      StepReportsTasks(Run(threads, steps[..|steps| - 1]), steps[|steps| - 1]);
    }
  }

  lemma StepReportsTasks(s: System, step: Step)
    requires Inv(s) && InWindow(s.trace) <= REQUIRED
    ensures InWindow(Take(s, step).trace) <= REQUIRED
  {
    hide Safe, Broken, InWindow;
    if step.Go? && step.thread < |s.threads| && s.holder == step.thread {
      match s.threads[step.thread]
      case Reporting(task) => TraceNext(s.trace, Reported(task));
      case Serving => TraceNext(s.trace, Feed(step.feedRc == 0));
      case _ =>
    }
  }

  /** watchdog_init succeeds exactly if every condition is met, and then the supervisor runs with an empty mask; once
      the device calls have begun a failure leaves it faulted, and any earlier refusal changes nothing. */
  lemma InitIsExact(c: Context, s: Setup)
    ensures var (n, r) := Init(c, s);
            var refused := !s.present || s.inIsr || c.state != Uninitialized || !s.ready || s.mutexInit != 0;
            && (refused ==> n == c && r != OK)
            && (!refused ==> n.dev && n.reported == {})
            && (!refused && s.install >= 0 && s.setup == 0 ==>
                  r == OK && n.state == Running && n.channel == s.install)
            && (!refused && (s.install < 0 || s.setup != 0) ==>
                  && n.state == Faulted && n.channel == (if s.install < 0 then -1 else s.install)
                  && r == Driver(if s.install < 0 then s.install else s.setup))
  {
  }

  /** A set-up that failed stays failed: nothing is ever fed. */
  lemma {:induction false} FaultIsFinal(s: System, steps: seq<Step>)
    requires s.c.state == Faulted && forall t :: 0 <= t < |s.threads| ==> !s.threads[t].HasFed?
    ensures Continue(s, steps).trace == s.trace && Continue(s, steps).c.state == Faulted
    decreases |steps|
  {
    if steps != [] {
      FaultIsFinal(Take(s, steps[0]), steps[1..]);
    }
  }

  /** In particular after an install or a set-up that failed. */
  lemma FailedSetupNeverFeeds(s: System, setup: Setup, steps: seq<Step>)
    requires Inv(s) && s.c.state == Uninitialized && s.holder == NOBODY && Init(s.c, setup).0.state == Faulted
    ensures Continue(Take(s, Start(setup)), steps).trace == []
  {
    FaultIsFinal(Take(s, Start(setup)), steps);
  }

  function Continue(s: System, steps: seq<Step>): System
    decreases |steps|
  {
    if steps == [] then s else Continue(Take(s, steps[0]), steps[1..])
  }

  /** Nothing is under way: the supervisor runs and no feed waits to be settled. */
  predicate Settled(s: System) {
    s.c.state == Running && forall t :: 0 <= t < |s.threads| ==> !s.threads[t].HasFed?
  }

  /** In every run, whenever nothing is under way, the mask is the set of tasks that reported in the present window. */
  lemma MaskIsWindow(threads: nat, steps: seq<Step>)
    ensures var s := Run(threads, steps); Settled(s) ==> s.c.reported == InWindow(s.trace)
  {
    hide Run, InWindow, Safe, Broken;
    RunKeepsInv(threads, steps);
  }

  lemma {:induction false} ContinueKeepsInv(s: System, steps: seq<Step>)
    requires Inv(s)
    ensures Inv(Continue(s, steps))
    decreases |steps|
  {
    hide Inv, Take;
    if steps != [] {
      StepKeepsInv(s, steps[0]);
      ContinueKeepsInv(Take(s, steps[0]), steps[1..]);
    }
  }

  lemma {:induction false} WindowFollowsFeed(trace: seq<Item>)
    ensures WindowStart(trace) > 0 ==> trace[WindowStart(trace) - 1] == Feed(true)
    decreases |trace|
  {
    if trace != [] { WindowFollowsFeed(trace[..|trace| - 1]); }
  }

  /** No feed has worked since position k. */
  predicate NoFeedSince(trace: seq<Item>, k: nat) {
    forall j :: k <= j < |trace| ==> trace[j] != Feed(true)
  }

  /** Thread u has not yet got through with its report. */
  predicate Awaits(s: System, u: nat, task: nat) {
    u < |s.threads| && (s.threads[u] == WantsReport(task) || s.threads[u] == Reporting(task))
  }

  /** The report is still to come, or it stands in the trace behind position n, or the supervisor has given up. */
  ghost predicate NotLost(s: System, u: nat, task: nat, n: nat) {
    && s.c.state != Uninitialized
    && (s.c.state == Faulted || Awaits(s, u, task) || exists k :: n <= k < |s.trace| && s.trace[k] == Reported(task))
  }

  lemma StepLosesNothing(s: System, step: Step, u: nat, task: nat, n: nat)
    requires NotLost(s, u, task, n) && n <= |s.trace|
    ensures NotLost(Take(s, step), u, task, n) && |s.trace| <= |Take(s, step).trace|
  {
    var m := Take(s, step);
    assert s.trace <= m.trace;
    if s.c.state == Running && !Awaits(s, u, task) {
      var k :| n <= k < |s.trace| && s.trace[k] == Reported(task);
      assert m.trace[k] == Reported(task);
    } else if s.c.state == Running && step.Go? && step.thread == u == s.holder && s.threads[u] == Reporting(task) {
      assert m.trace[|s.trace|] == Reported(task);
    }
  }

  lemma {:induction false} NothingIsLost(s: System, steps: seq<Step>, u: nat, task: nat, n: nat)
    requires NotLost(s, u, task, n) && n <= |s.trace|
    ensures NotLost(Continue(s, steps), u, task, n)
    decreases |steps|
  {
    hide NotLost, Take;
    if steps != [] {
      StepLosesNothing(s, steps[0], u, task, n);
      NothingIsLost(Take(s, steps[0]), steps[1..], u, task, n);
    }
  }

  /** A report that waits for the mutex while a feed is being settled counts for the next window, in every continuation:
      it is never lost unless the supervisor faults, and once it is in the trace and until a further feed works, the
      task stands in the mask whenever nothing is under way. */
  lemma LateReportCounts(s: System, t: nat, u: nat, task: nat, steps: seq<Step>)
    requires Inv(s) && t < |s.threads| && s.holder == t && s.threads[t].HasFed?
    requires u < |s.threads| && s.threads[u] == WantsReport(task)
    ensures NotLost(Continue(s, steps), u, task, |s.trace|)
    ensures var after := Continue(s, steps);
            (Settled(after) && NoFeedSince(after.trace, |s.trace|) && !Awaits(after, u, task)
             ==> task in after.c.reported)
    ensures var after := Continue(s, steps);
            forall k ::
              (Settled(after) && |s.trace| <= k < |after.trace| && after.trace[k] == Reported(task)
               && NoFeedSince(after.trace, k)
               ==> task in after.c.reported)
  {
    var after, n := Continue(s, steps), |s.trace|;
    NothingIsLost(s, steps, u, task, n);
    ContinueKeepsInv(s, steps);
    hide Continue, InWindow, Safe, Broken;
    forall k |
      Settled(after) && n <= k < |after.trace| && after.trace[k] == Reported(task) && NoFeedSince(after.trace, k)
      ensures task in after.c.reported
    {
      WindowFollowsFeed(after.trace);
      InWindowMeaning(after.trace, task);
    }
    if Settled(after) && NoFeedSince(after.trace, n) && !Awaits(after, u, task) {
      var k :| n <= k < |after.trace| && after.trace[k] == Reported(task);
      assert NoFeedSince(after.trace, k);
    }
  }

  /** The shortest such continuation: the reporter is turned away, the feed is settled, and then the report goes in. */
  lemma BlockedReportGoesIn(s: System, task: nat, feedRc: int, t: nat, u: nat)
    requires Inv(s) && t < |s.threads| && u < |s.threads| && t != u && task < TASK_COUNT
    requires s.holder == t && s.threads[t] == HasFed(0) && s.threads[u] == WantsReport(task)
    ensures var after := Continue(s, [Lock(u), Go(t, feedRc), Lock(u), Go(u, feedRc)]);
            after.c.reported == {task} && after.c.state == Running && after.trace == s.trace + [Reported(task)]
  {
    var s1 := Take(s, Lock(u));
    assert s1 == s;
    var s2 := Take(s1, Go(t, feedRc));
    assert s2.c.reported == {} && s2.holder == NOBODY && s2.threads[u] == WantsReport(task);
    var s3 := Take(s2, Lock(u));
    var s4 := Take(s3, Go(u, feedRc));
    assert s4.c.reported == {task};
    ContinueFour(s, Lock(u), Go(t, feedRc), Lock(u), Go(u, feedRc));
  }

  lemma ContinueThree(s: System, a: Step, b: Step, c: Step)
    ensures Continue(s, [a, b, c]) == Take(Take(Take(s, a), b), c)
  {
    hide Take;
    assert [a, b, c][1..] == [b, c] && [b, c][1..] == [c] && [c][1..] == [];
    assert Continue(Take(s, a), [b, c]) == Continue(Take(Take(s, a), b), [c]);
  }

  /** The supervisor runs and nobody is inside a call that holds the mutex. */
  ghost predicate Free(s: System) {
    Inv(s) && s.c.state == Running && s.c.dev && s.holder == NOBODY
  }

  /** A report by a thread that is at rest gets through. */
  lemma ReportGetsThrough(s: System, t: nat, task: nat)
    requires Free(s) && t < |s.threads| && s.threads[t] == Resting && task < 2
    ensures var n := Continue(s, [CallReport(t, task), Lock(t), Go(t, 0)]);
            && Free(n) && n.threads == s.threads
            && n.c == s.c.(reported := s.c.reported + {task}) && n.trace == s.trace + [Reported(task)]
  {
    ContinueThree(s, CallReport(t, task), Lock(t), Go(t, 0));
    ContinueKeepsInv(s, [CallReport(t, task), Lock(t), Go(t, 0)]);
    hide Inv, Continue;
    assert s.threads[t := WantsReport(task)][t := Reporting(task)][t := Resting] == s.threads;
  }

  /** Once all tasks have reported, a service call by a thread at rest feeds the watchdog, and then the mask is empty.
      */
  lemma ServiceGetsThrough(s: System, t: nat)
    requires Free(s) && t < |s.threads| && s.threads[t] == Resting && s.c.reported == {0, 1}
    ensures var n := Continue(s, [CallService(t), Lock(t), Go(t, 0), Go(t, 0)]);
            && Free(n) && n.threads == s.threads
            && n.c == s.c.(reported := {}) && n.trace == s.trace + [Feed(true)]
  {
    ContinueFour(s, CallService(t), Lock(t), Go(t, 0), Go(t, 0));
    ContinueKeepsInv(s, [CallService(t), Lock(t), Go(t, 0), Go(t, 0)]);
    hide Inv, Continue;
    assert s.threads[t := WantsService][t := Serving][t := HasFed(0)][t := Resting] == s.threads;
  }

  lemma ContinueFour(s: System, a: Step, b: Step, c: Step, d: Step)
    ensures Continue(s, [a, b, c, d]) == Take(Take(Take(Take(s, a), b), c), d)
  {
    hide Take;
    var s1 := Take(s, a);
    assert [a, b, c, d][1..] == [b, c, d] && [b, c, d][1..] == [c, d] && [c, d][1..] == [d] && [d][1..] == [];
    assert Continue(s1, [b, c, d]) == Continue(Take(s1, b), [c, d]);
    assert Continue(Take(s1, b), [c, d]) == Continue(Take(Take(s1, b), c), [d]);
  }

  // The supervisor as a program; each call holds the mutex for its whole region

  class Supervisor {
    var c: Context

    constructor ()
      ensures c == ZEROED
    {
      c := ZEROED;
    }

    method Initialise(s: Setup) returns (result: Result)
      modifies this
      ensures (c, result) == Init(old(c), s)
    {
      if !s.present { return EINVAL; }
      if s.inIsr { return EWOULDBLOCK; }
      if c.state != Uninitialized { return EALREADY; }
      if !s.ready { return ENODEV; }
      if s.mutexInit != 0 { return Driver(s.mutexInit); }
      c := c.(dev := true, channel := -1, reported := {}, state := Faulted);
      if s.install < 0 { return Driver(s.install); }
      c := c.(channel := s.install);
      if s.setup != 0 { return Driver(s.setup); }
      c := c.(state := Running);
      return OK;
    }

    method Report(task: nat, inIsr: bool) returns (result: Result)
      modifies this
      ensures !old(c).dev || task >= TASK_COUNT ==> result == EINVAL && c == old(c)
      ensures old(c).dev && task < TASK_COUNT && inIsr ==> result == EWOULDBLOCK && c == old(c)
      ensures old(c).dev && task < TASK_COUNT && !inIsr ==> (c, result) == Mark(old(c), task)
      ensures old(c).dev && task < 2 && !inIsr ==>
                if old(c).state == Running then result == OK && c == old(c).(reported := old(c).reported + {task})
                else result == EIO && c == old(c)
    {
      if !c.dev || task >= TASK_COUNT { return EINVAL; }
      if inIsr { return EWOULDBLOCK; }
      if c.state != Running { return EIO; }
      c := c.(reported := c.reported + {task});
      return OK;
    }

    /** fed says whether the watchdog was fed; feedRc is what wdt_feed returned then. */
    method Service(inIsr: bool, feedRc: int) returns (result: Result, fed: bool)
      modifies this
      ensures !old(c).dev ==> result == EINVAL && !fed && c == old(c)
      ensures old(c).dev && inIsr ==> result == EWOULDBLOCK && !fed && c == old(c)
      ensures old(c).dev && !inIsr ==>
                && fed == MayFeed(old(c))
                && (c, result) == (if fed then Settle(old(c), feedRc) else (old(c), Refusal(old(c))))
      ensures old(c).dev && !inIsr ==>
                && (fed <==> old(c).state == Running && old(c).reported == {0, 1})
                && (!fed ==> c == old(c) && result == if old(c).state == Running then WAITING else EIO)
                && (fed && feedRc == 0 ==> c == old(c).(reported := {}) && result == OK)
                && (fed && feedRc != 0 ==> c == old(c).(state := Faulted) && result == Driver(feedRc))
    {
      if !c.dev { return EINVAL, false; }
      if inIsr { return EWOULDBLOCK, false; }
      if c.state != Running { return EIO, false; }
      if c.reported != REQUIRED { return WAITING, false; }
      if feedRc == 0 {
        c := c.(reported := {});
        return OK, true;
      }
      c := c.(state := Faulted);
      return Driver(feedRc), true;
    }
  }
}
