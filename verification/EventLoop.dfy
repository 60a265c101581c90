/** The reactor's task queue and its wakeups (NetServer/EventLoop.cpp) as a step relation. The loop
    thread and any number of other threads interleave; each step is what one thread does between
    two points where another can be seen: a critical section, a system call, an atomic access. */
module EventLoops {
  type Task = nat
  type Thread = nat

  /** Where the loop thread is. */
  datatype Pc =
    | Top                              // about to test quit_
    | Poll                             // in epoll_wait
    | Handlers(wakeActive: bool)       // running the active channels; is the eventfd still to be read?
    | Swap                             // entering doPendingTasks
    | SetDoing                         // the tasks are swapped out
    | Running                          // in the task loop
    | Stopped

  datatype State = State(
    pc: Pc,
    quit: bool,
    doing: bool,              // doingPendingTasks_
    inTask: bool,             // a task of the batch is running
    pushed: bool,             // the loop thread queued a task and has not yet decided about wakeup
    counter: nat,             // the eventfd
    owing: set<Thread>,       // other threads between their update and their wakeup
    pending: seq<Task>,       // pendingTasks_
    batch: seq<Task>,         // swapped out, not yet run
    executed: seq<Task>,      // history: tasks run so far
    enqueued: seq<Task>)      // history: tasks in the order they were queued

  datatype Action =
    | TestQuit
    | PollReturns(wakeActive: bool)
    | ReadEventfd
    | EndHandlers
    | SwapTasks
    | StartTasks
    | RunTask
    | TaskReturns
    | EndTasks
    | OwnQueue(task: Task)                  // queueInLoop by a handler or a task
    | OwnWakeup                             // the test after it
    | OwnQuit
    | QueueBy(thread: Thread, queued: Task) // queueInLoop by another thread, up to the unlock
    | QuitBy(thread: Thread)                // quit by another thread, up to the store
    | WakeupBy(thread: Thread)

  /** Code called from the loop thread runs only while it is in a handler or a task. */
  predicate UserCodeRuns(s: State) {
    !s.pushed && (s.pc.Handlers? || (s.pc.Running? && s.inTask))
  }

  /** quit() asserts that it is called once; level-triggered epoll reports the eventfd only when its
      counter is positive, and may return without it. */
  predicate Enabled(s: State, a: Action) {
    match a
    case TestQuit => s.pc.Top?
    case PollReturns(w) => s.pc.Poll? && (w ==> s.counter > 0)
    case ReadEventfd => s.pc.Handlers? && s.pc.wakeActive && !s.pushed
    case EndHandlers => s.pc.Handlers? && !s.pc.wakeActive && !s.pushed
    case SwapTasks => s.pc.Swap?
    case StartTasks => s.pc.SetDoing?
    case RunTask => s.pc.Running? && !s.inTask && s.batch != []
    case TaskReturns => s.pc.Running? && s.inTask && !s.pushed
    case EndTasks => s.pc.Running? && !s.inTask && s.batch == []
    case OwnQueue(_) => UserCodeRuns(s)
    case OwnWakeup => s.pushed
    case OwnQuit => UserCodeRuns(s) && !s.quit
    case QueueBy(p, _) => p !in s.owing
    case QuitBy(p) => p !in s.owing && !s.quit
    case WakeupBy(p) => p in s.owing
  }

  function Effect(s: State, a: Action): State
    requires Enabled(s, a)
  {
    match a
    case TestQuit => s.(pc := if s.quit then Stopped else Poll)
    case PollReturns(w) => s.(pc := Handlers(w))
    case ReadEventfd => s.(pc := Handlers(false), counter := 0)
    case EndHandlers => s.(pc := Swap)
    case SwapTasks => s.(pc := SetDoing, batch := s.pending, pending := [])
    case StartTasks => s.(pc := Running, doing := true)
    case RunTask => s.(inTask := true, executed := s.executed + [s.batch[0]], batch := s.batch[1..])
    case TaskReturns => s.(inTask := false)
    case EndTasks => s.(pc := Top, doing := false)
    case OwnQueue(t) => s.(pushed := true, pending := s.pending + [t], enqueued := s.enqueued + [t])
    case OwnWakeup => s.(pushed := false, counter := if s.doing then s.counter + 1 else s.counter)
    case OwnQuit => s.(quit := true)
    case QueueBy(p, t) => s.(owing := s.owing + {p}, pending := s.pending + [t], enqueued := s.enqueued + [t])
    case QuitBy(p) => s.(owing := s.owing + {p}, quit := true)
    case WakeupBy(p) => s.(owing := s.owing - {p}, counter := s.counter + 1)
  }

  /** The state after a run, if every one of its steps is possible where it is taken. */
  datatype Outcome = Stuck | Reached(state: State)

  function After(s: State, run: seq<Action>): Outcome
    decreases |run|
  {
    if run == [] then Reached(s)
    else if Enabled(s, run[0]) then After(Effect(s, run[0]), run[1..])
    else Stuck
  }

  // ----- what every step keeps -----

  /** Someone will make epoll_wait return: the eventfd is up, or a thread is about to write to it. */
  predicate Woken(s: State) { s.counter > 0 || s.owing != {} }

  /** A loop that is about to block has not overlooked a task or a quit. */
  predicate NoLostWakeup(s: State) {
    s.pc.Poll? && (s.pending != [] || s.quit) ==> Woken(s)
  }

  /** The tasks that ran, the rest of the batch and the queue are the tasks in the order queued. */
  predicate InOrder(s: State) { s.executed + s.batch + s.pending == s.enqueued }

  /** Where the flags stand at each point of the loop. */
  predicate Flags(s: State) {
    && (s.doing <==> s.pc.Running?)
    && (s.inTask ==> s.pc.Running?)
    && (s.pushed ==> s.pc.Handlers? || (s.pc.Running? && s.inTask))
    && (s.batch != [] ==> s.pc.SetDoing? || s.pc.Running?)
  }

  /** Before its tasks are swapped out the loop is past the point of blocking; afterwards every task
      in the queue has, or will have, its own wakeup. */
  predicate WakeupsKept(s: State) {
    match s.pc
    case Poll => s.pending != [] || s.quit ==> Woken(s)
    case Top => s.pending != [] ==> Woken(s)
    case SetDoing => s.pending != [] ==> Woken(s)
    case Running => s.pending != [] ==> Woken(s) || s.pushed
    case _ => true
  }

  predicate Inv(s: State) { Flags(s) && WakeupsKept(s) && InOrder(s) }

  lemma StepKeepsOrder(s: State, a: Action)
    requires Enabled(s, a) && Flags(s) && InOrder(s)
    ensures InOrder(Effect(s, a))
  {
    match a
    case SwapTasks =>
      assert s.executed + [] + s.pending == s.executed + s.pending + [];
    case RunTask =>
      assert s.executed + [s.batch[0]] + s.batch[1..] == s.executed + s.batch;
    case OwnQueue(t) =>
      assert s.executed + s.batch + (s.pending + [t]) == s.executed + s.batch + s.pending + [t];
    case QueueBy(_, t) =>
      assert s.executed + s.batch + (s.pending + [t]) == s.executed + s.batch + s.pending + [t];
    case _ =>
  }

  lemma StepKeepsInv(s: State, a: Action)
    requires Enabled(s, a) && Inv(s)
    ensures Inv(Effect(s, a))
  {
    StepKeepsOrder(s, a);
    match a
    case QueueBy(p, _) => assert p in Effect(s, a).owing;
    case QuitBy(p) => assert p in Effect(s, a).owing;
    case _ =>
  }

  lemma {:induction false} RunKeepsInv(s: State, run: seq<Action>)
    requires Inv(s) && After(s, run).Reached?
    ensures Inv(After(s, run).state)
    decreases |run|
  {
    if run != [] {
      StepKeepsInv(s, run[0]);
      RunKeepsInv(Effect(s, run[0]), run[1..]);
    }
  }

  // ----- from the call of loop() on -----

  /** A thread that has just called loop(). Tasks may have been queued before. */
  predicate Entered(s: State) {
    && s.pc.Top? && !s.quit && !s.doing && !s.inTask && !s.pushed
    && s.batch == [] && s.executed + s.pending == s.enqueued
  }

  /** In every interleaving the tasks run in the order they were queued, each once. */
  lemma TasksRunInOrder(s: State, run: seq<Action>)
    requires Entered(s) && After(s, run).Reached?
    ensures var t := After(s, run).state;
      t.executed <= t.enqueued && t.executed + t.batch + t.pending == t.enqueued
  {
    assert s.executed + s.batch + s.pending == s.executed + s.pending;
    RunKeepsOrder(s, run);
    var t := After(s, run).state;
    assert t.executed + t.batch + t.pending == t.executed + (t.batch + t.pending);
  }

  lemma {:induction false} RunKeepsOrder(s: State, run: seq<Action>)
    requires Flags(s) && InOrder(s) && After(s, run).Reached?
    ensures Flags(After(s, run).state) && InOrder(After(s, run).state)
    decreases |run|
  {
    if run != [] {
      StepKeepsOrder(s, run[0]);
      RunKeepsOrder(Effect(s, run[0]), run[1..]);
    }
  }

  /** No wakeup is ever lost, exactly when the queue that loop() finds is empty or already announced.
      A task that the loop's own thread queued before loop() is not: queueInLoop left out the wakeup. */
  lemma NoLostWakeupIff(s: State)
    requires Entered(s)
    ensures (forall run :: After(s, run).Reached? ==> NoLostWakeup(After(s, run).state))
        <==> s.pending == [] || Woken(s)
  {
    if s.pending == [] || Woken(s) {
      assert s.executed + s.batch + s.pending == s.executed + s.pending;
      forall run | After(s, run).Reached?
        ensures NoLostWakeup(After(s, run).state)
      {
        RunKeepsInv(s, run);
      }
    } else {
      OwnTaskIsStranded(s);
    }
  }

  /** The loop blocks at once with the task in its queue, and stays blocked until an unrelated event. */
  lemma OwnTaskIsStranded(s: State)
    requires Entered(s) && s.pending != [] && !Woken(s)
    ensures var t := After(s, [TestQuit]);
      t.Reached? && t.state.pc.Poll? && t.state.pending == s.pending && !NoLostWakeup(t.state)
  {
    assert [TestQuit][1..] == [];
    assert After(Effect(s, TestQuit), []).Reached?;
  }

  // ----- what a wakeup achieves -----

  /** The steps of n task executions by the loop alone. */
  function RunAll(n: nat): seq<Action> {
    if n == 0 then [] else [RunTask, TaskReturns] + RunAll(n - 1)
  }

  /** One iteration of the loop that finds n tasks and whose tasks queue nothing. */
  function Iteration(n: nat): seq<Action> {
    [PollReturns(true), ReadEventfd, EndHandlers, SwapTasks, StartTasks] + RunAll(n) + [EndTasks]
  }

  lemma {:induction false} AfterAppend(s: State, a: seq<Action>, b: seq<Action>)
    requires After(s, a).Reached?
    ensures After(s, a + b) == After(After(s, a).state, b)
    decreases |a|
  {
    if a == [] {
      assert a + b == b;
    } else {
      assert (a + b)[1..] == a[1..] + b;
      AfterAppend(Effect(s, a[0]), a[1..], b);
    }
  }

  lemma {:induction false} RunAllRuns(s: State)
    requires s.pc.Running? && !s.inTask && !s.pushed
    ensures After(s, RunAll(|s.batch|)) == Reached(s.(executed := s.executed + s.batch, batch := []))
    decreases |s.batch|
  {
    if s.batch == [] {
      assert s.executed + s.batch == s.executed;
    } else {
      var run := RunAll(|s.batch|);
      var t := Effect(Effect(s, RunTask), TaskReturns);
      assert run[1..][0] == TaskReturns && run[1..][1..] == RunAll(|t.batch|);
      assert After(s, run) == After(t, RunAll(|t.batch|));
      RunAllRuns(t);
      assert s.executed + [s.batch[0]] + s.batch[1..] == s.executed + s.batch;
    }
  }

  /** Once the eventfd is up, one iteration by the loop thread alone runs every task queued so far,
      and leaves the eventfd down and the queue empty. */
  lemma WakeupRunsEverything(s: State)
    requires Inv(s) && s.pc.Poll? && s.counter > 0
    ensures After(s, Iteration(|s.pending|))
         == Reached(s.(pc := Top, counter := 0, executed := s.enqueued, pending := []))
  {
    hide After, RunAll, Enabled, Effect;
    var n := |s.pending|;
    var start := [PollReturns(true), ReadEventfd, EndHandlers, SwapTasks, StartTasks];
    var t := s.(pc := Running, doing := true, counter := 0, batch := s.pending, pending := []);
    var u := t.(executed := s.executed + s.pending, batch := []);
    FiveSteps(s);
    RunAllRuns(t);
    AfterAppend(s, start, RunAll(n));
    AfterAppend(s, start + RunAll(n), [EndTasks]);
    LastStep(u);
    assert s.executed + s.pending == s.executed + s.batch + s.pending;
  }

  lemma LastStep(s: State)
    requires s.pc.Running? && !s.inTask && s.batch == []
    ensures After(s, [EndTasks]) == Reached(s.(pc := Top, doing := false))
  {
    assert [EndTasks][1..] == [];
  }

  lemma FiveSteps(s: State)
    requires Flags(s) && s.pc.Poll? && s.counter > 0
    ensures After(s, [PollReturns(true), ReadEventfd, EndHandlers, SwapTasks, StartTasks])
         == Reached(s.(pc := Running, doing := true, counter := 0, batch := s.pending, pending := []))
  {
    var run := [PollReturns(true), ReadEventfd, EndHandlers, SwapTasks, StartTasks];
    assert run[1..] == [ReadEventfd, EndHandlers, SwapTasks, StartTasks];
    assert run[1..][1..] == [EndHandlers, SwapTasks, StartTasks];
    assert run[1..][1..][1..] == [SwapTasks, StartTasks];
    assert run[1..][1..][1..][1..] == [StartTasks];
    assert run[1..][1..][1..][1..][1..] == [];
    var s1 := Effect(s, PollReturns(true));
    var s2 := Effect(s1, ReadEventfd);
    var s3 := Effect(s2, EndHandlers);
    var s4 := Effect(s3, SwapTasks);
    var s5 := Effect(s4, StartTasks);
    assert After(s, run) == After(s1, run[1..]) == After(s2, run[1..][1..]) == After(s3, run[1..][1..][1..]);
    assert After(s3, run[1..][1..][1..]) == After(s4, [StartTasks]) == After(s5, []);
  }

  // ----- when the loop stops -----

  /** The loop has stopped only after a quit. */
  predicate StopsOnQuit(s: State) { s.pc.Stopped? ==> s.quit }

  lemma {:induction false} RunStopsOnQuit(s: State, run: seq<Action>)
    requires StopsOnQuit(s) && After(s, run).Reached?
    ensures StopsOnQuit(After(s, run).state) && (s.quit ==> After(s, run).state.quit)
    decreases |run|
  {
    if run != [] { RunStopsOnQuit(Effect(s, run[0]), run[1..]); }
  }

  /** In every run a loop that has stopped was told to, and a quit is never taken back. */
  lemma StoppedOnlyOnQuit(s: State, before: seq<Action>, after: seq<Action>)
    requires Entered(s) && After(s, before + after).Reached?
    ensures var t := After(s, before + after).state;
      (t.pc.Stopped? ==> t.quit) && (After(s, before).Reached? && After(s, before).state.quit ==> t.quit)
  {
    RunStopsOnQuit(s, before + after);
    if After(s, before).Reached? {
      RunStopsOnQuit(s, before);
      AfterAppend(s, before, after);
      RunStopsOnQuit(After(s, before).state, after);
    }
  }

  /** At its test the loop goes on to epoll_wait without a quit, and stops with one. */
  lemma TestDecides(s: State)
    requires s.pc.Top?
    ensures After(s, [TestQuit]) == Reached(s.(pc := Poll)) <==> !s.quit
    ensures After(s, [TestQuit]) == Reached(s.(pc := Stopped)) <==> s.quit
  {
    assert [TestQuit][1..] == [];
  }

  /** From the test on, without a quit and with the queue announced, one iteration runs every task: at
      once if the eventfd is up, or else when the thread that owes its wakeup writes it. */
  lemma AnnouncedRunsEverything(s: State, p: Thread)
    requires Inv(s) && s.pc.Top? && !s.quit && (s.counter > 0 || p in s.owing)
    ensures var start := [TestQuit] + (if s.counter > 0 then [] else [WakeupBy(p)]);
      var t := After(s, start + Iteration(|s.pending|));
      && t.Reached? && t.state.pc.Top? && t.state.executed == s.enqueued
      && t.state.pending == [] && t.state.counter == 0
  {
    hide Iteration;
    var start := [TestQuit] + (if s.counter > 0 then [] else [WakeupBy(p)]);
    var t := s.(pc := Poll);
    TestDecides(s);
    if s.counter > 0 {
      assert start == [TestQuit];
    } else {
      AfterAppend(s, [TestQuit], [WakeupBy(p)]);
      t := t.(owing := s.owing - {p}, counter := 1);
      assert [WakeupBy(p)][1..] == [];
    }
    assert After(s, start) == Reached(t);
    RunKeepsInv(s, start);
    AfterAppend(s, start, Iteration(|s.pending|));
    WakeupRunsEverything(t);
  }

  // ----- the code -----

  /** A task, and the tasks that running it queues from within the loop thread. */
  datatype Job = Job(id: Task, queues: seq<Job>)

  function Queued(jobs: seq<Job>): seq<Job> {
    if jobs == [] then [] else jobs[0].queues + Queued(jobs[1..])
  }

  lemma {:induction false} QueuedSnoc(jobs: seq<Job>, job: Job)
    ensures Queued(jobs + [job]) == Queued(jobs) + job.queues
  {
    if jobs == [] {
      assert [job][1..] == [] && [] + [job] == [job];
      assert job.queues + [] == job.queues;
    } else {
      assert (jobs + [job])[1..] == jobs[1..] + [job];
      QueuedSnoc(jobs[1..], job);
      assert jobs[0].queues + (Queued(jobs[1..]) + job.queues) == jobs[0].queues + Queued(jobs[1..]) + job.queues;
    }
  }

  function Ids(jobs: seq<Job>): (ids: seq<Task>)
    ensures |ids| == |jobs| && forall i :: 0 <= i < |jobs| ==> ids[i] == jobs[i].id
  {
    if jobs == [] then [] else [jobs[0].id] + Ids(jobs[1..])
  }

  lemma IdsAppend(a: seq<Job>, b: seq<Job>)
    ensures Ids(a + b) == Ids(a) + Ids(b)
  {
  }

  lemma IdsSnoc(a: seq<Job>, job: Job)
    ensures Ids(a + [job]) == Ids(a) + [job.id]
  {
    IdsAppend(a, [job]);
    assert Ids([job]) == [job.id];
  }

  lemma IdsRest(a: seq<Job>)
    requires a != []
    ensures Ids(a)[0] == a[0].id && Ids(a)[1..] == Ids(a[1..])
  {
  }

  /** queueInLoop from the loop thread, or from another thread p. */
  function QueueSteps(id: Task, inLoopThread: bool, p: Thread): seq<Action> {
    if inLoopThread then [OwnQueue(id), OwnWakeup] else [QueueBy(p, id), WakeupBy(p)]
  }

  /** What a task or callback of the loop thread does. */
  function BodySteps(queues: seq<Job>): seq<Action> {
    if queues == [] then []
    else BodySteps(queues[..|queues| - 1]) + QueueSteps(queues[|queues| - 1].id, true, 0)
  }

  function TaskSteps(jobs: seq<Job>): seq<Action> {
    if jobs == [] then []
    else TaskSteps(jobs[..|jobs| - 1]) + ([RunTask] + BodySteps(jobs[|jobs| - 1].queues) + [TaskReturns])
  }

  function PassSteps(jobs: seq<Job>): seq<Action> { [SwapTasks, StartTasks] + TaskSteps(jobs) + [EndTasks] }

  /** What the handlers of some active channels do, one after the other. */
  function HandlerSteps(handlers: seq<Job>): seq<Action> {
    if handlers == [] then []
    else HandlerSteps(handlers[..|handlers| - 1]) + BodySteps(handlers[|handlers| - 1].queues)
  }

  /** What epoll_wait reports: the handlers of the active channels, and whether the eventfd is among them,
      between the first and the second of them. */
  datatype Round = Round(first: seq<Job>, wake: bool, second: seq<Job>)

  function PollSteps(r: Round): seq<Action> {
    [PollReturns(r.wake)] + HandlerSteps(r.first) + (if r.wake then [ReadEventfd] else []) + HandlerSteps(r.second)
    + [EndHandlers]
  }

  /** One turn of loop() that is not told to quit. */
  function TurnSteps(r: Round, tasks: seq<Job>): seq<Action> { [TestQuit] + PollSteps(r) + PassSteps(tasks) }

  lemma OneStep(s: State, a: Action)
    requires Enabled(s, a)
    ensures After(s, [a]) == Reached(Effect(s, a))
  {
    assert [a][1..] == [];
  }

  lemma TwoSteps(s: State, a: Action, b: Action)
    requires Enabled(s, a) && Enabled(Effect(s, a), b)
    ensures After(s, [a, b]) == Reached(Effect(Effect(s, a), b))
  {
    assert [a, b][1..] == [b];
    OneStep(Effect(s, a), b);
  }

  lemma Nothing(s: State)
    ensures After(s, []) == Reached(s)
  {
  }

  /** A run that goes on. */
  lemma GoesOn(s: State, run: seq<Action>, t: State, more: seq<Action>, u: State)
    requires After(s, run) == Reached(t) && After(t, more) == Reached(u)
    ensures After(s, run + more) == Reached(u)
  {
    AfterAppend(s, run, more);
  }

  lemma OwnQueueRuns(s: State, p: Thread, id: Task, t: State)
    requires UserCodeRuns(s)
    requires t == s.(pending := s.pending + [id], enqueued := s.enqueued + [id],
      counter := if s.doing then s.counter + 1 else s.counter)
    ensures After(s, QueueSteps(id, true, p)) == Reached(t)
  {
    hide After;
    TwoSteps(s, OwnQueue(id), OwnWakeup);
  }

  lemma ComesAndGoes(threads: set<Thread>, p: Thread)
    requires p !in threads
    ensures threads + {p} - {p} == threads
  {
  }

  lemma QueuesBy(s: State, p: Thread, id: Task)
    requires p !in s.owing
    ensures Enabled(s, QueueBy(p, id))
    ensures Effect(s, QueueBy(p, id))
         == s.(owing := s.owing + {p}, pending := s.pending + [id], enqueued := s.enqueued + [id])
  {
  }

  lemma OtherQueueRuns(s: State, p: Thread, id: Task, t: State)
    requires p !in s.owing
    requires t == s.(pending := s.pending + [id], enqueued := s.enqueued + [id], counter := s.counter + 1)
    ensures After(s, QueueSteps(id, false, p)) == Reached(t)
  {
    hide After, Enabled, Effect;
    QueuesBy(s, p, id);
    WakesUp(s.owing, p, Effect(s, QueueBy(p, id)), t);
    TwoSteps(s, QueueBy(p, id), WakeupBy(p));
  }

  lemma WakesUp(owing: set<Thread>, p: Thread, m: State, t: State)
    requires p !in owing && m.owing == owing + {p} && t == m.(owing := owing, counter := m.counter + 1)
    ensures Enabled(m, WakeupBy(p)) && Effect(m, WakeupBy(p)) == t
  {
    ComesAndGoes(owing, p);
  }

  lemma PassStarts(s: State, t: State)
    requires s.pc.Swap?
    requires t == s.(pc := Running, doing := true, batch := s.pending, pending := [])
    ensures After(s, [SwapTasks, StartTasks]) == Reached(t)
  {
    hide After;
    TwoSteps(s, SwapTasks, StartTasks);
  }

  /** One more task of the pass. */
  lemma PassNext(s: State, jobs: seq<Job>, i: nat, t: State, u: State)
    requires i < |jobs| && After(s, [SwapTasks, StartTasks] + TaskSteps(jobs[..i])) == Reached(t)
    requires After(t, [RunTask] + BodySteps(jobs[i].queues) + [TaskReturns]) == Reached(u)
    ensures After(s, [SwapTasks, StartTasks] + TaskSteps(jobs[..i + 1])) == Reached(u)
  {
    hide After, TaskSteps, BodySteps;
    var start := [SwapTasks, StartTasks];
    var done := TaskSteps(jobs[..i]);
    var more := [RunTask] + BodySteps(jobs[i].queues) + [TaskReturns];
    TaskNext(jobs, i);
    GoesOn(s, start + done, t, more, u);
    Regroup(start, done, more);
  }

  lemma PassEnds(s: State, jobs: seq<Job>, t: State, u: State)
    requires After(s, [SwapTasks, StartTasks] + TaskSteps(jobs)) == Reached(t)
    requires t.pc.Running? && !t.inTask && t.batch == [] && u == t.(pc := Top, doing := false)
    ensures After(s, PassSteps(jobs)) == Reached(u)
  {
    hide After, TaskSteps;
    OneStep(t, EndTasks);
    GoesOn(s, [SwapTasks, StartTasks] + TaskSteps(jobs), t, [EndTasks], u);
  }

  lemma NoJobs(tasks: seq<Job>)
    ensures Ids([]) == [] && Queued(tasks[..0]) == [] && tasks[0..] == tasks && tasks[..0] == []
    ensures [SwapTasks, StartTasks] + TaskSteps(tasks[..0]) == [SwapTasks, StartTasks]
  {
  }

  lemma WholeSeq(tasks: seq<Job>)
    ensures tasks[..|tasks|] == tasks && tasks[|tasks|..] == []
  {
  }

  lemma Regroup(a: seq<Action>, b: seq<Action>, c: seq<Action>)
    ensures a + b + c == a + (b + c)
  {
  }

  lemma RestOf(tasks: seq<Job>, i: nat)
    requires i < |tasks|
    ensures tasks[i..] != [] && tasks[i..][0] == tasks[i] && tasks[i..][1..] == tasks[i + 1..]
    ensures tasks[..i] + [tasks[i]] == tasks[..i + 1]
  {
  }

  lemma QueuedNext(called: seq<Job>, tasks: seq<Job>, i: nat)
    requires i < |tasks|
    ensures Queued(tasks[..i]) + tasks[i].queues == Queued(tasks[..i + 1])
    ensures called + tasks[..i] + [tasks[i]] == called + tasks[..i + 1]
  {
    RestOf(tasks, i);
    QueuedSnoc(tasks[..i], tasks[i]);
    assert called + tasks[..i] + [tasks[i]] == called + (tasks[..i] + [tasks[i]]);
  }

  lemma BodyNext(queues: seq<Job>, i: nat)
    requires i < |queues|
    ensures BodySteps(queues[..i + 1]) == BodySteps(queues[..i]) + QueueSteps(queues[i].id, true, 0)
  {
    assert queues[..i + 1][..i] == queues[..i];
  }

  lemma TaskNext(jobs: seq<Job>, i: nat)
    requires i < |jobs|
    ensures TaskSteps(jobs[..i + 1])
         == TaskSteps(jobs[..i]) + ([RunTask] + BodySteps(jobs[i].queues) + [TaskReturns])
  {
    assert jobs[..i + 1][..i] == jobs[..i];
  }

  class EventLoop {
    var quit: bool
    var doingPendingTasks: bool
    var pendingTasks: seq<Job>
    var eventfd: nat
    ghost var pc: Pc
    ghost var inTask: bool
    ghost var owing: set<Thread>
    ghost var batch: seq<Job>
    ghost var executed: seq<Task>
    ghost var enqueued: seq<Task>
    ghost var called: seq<Job>     // history: tasks and callbacks called by the loop thread

    /** The loop as the step relation sees it, between two steps of its own thread. */
    ghost function View(): State
      reads this
    {
      State(pc, quit, doingPendingTasks, inTask, false, eventfd, owing, Ids(pendingTasks), Ids(batch), executed,
        enqueued)
    }

    constructor ()
      ensures View() == State(Top, false, false, false, false, 0, {}, [], [], [], []) && called == []
    {
      quit, doingPendingTasks, pendingTasks, eventfd := false, false, [], 0;
      pc, inTask, owing, batch, executed, enqueued, called := Top, false, {}, [], [], [], [];
    }

    method Wakeup()
      modifies `eventfd
      ensures eventfd == old(eventfd) + 1
    {
      eventfd := eventfd + 1;
    }

    /** queueInLoop, from the loop thread or from the thread p. */
    method QueueInLoop(task: Job, inLoopThread: bool, ghost p: Thread)
      requires if inLoopThread then UserCodeRuns(View()) else p !in owing
      modifies `pendingTasks, `eventfd, `enqueued
      ensures pendingTasks == old(pendingTasks) + [task]
      ensures eventfd == if inLoopThread && !doingPendingTasks then old(eventfd) else old(eventfd) + 1
      ensures After(old(View()), QueueSteps(task.id, inLoopThread, p)) == Reached(View())
    {
      hide After, QueueSteps, Enabled, Effect;
      ghost var s := View();
      pendingTasks := pendingTasks + [task];
      enqueued := enqueued + [task.id];
      IdsSnoc(old(pendingTasks), task);
      if !inLoopThread || doingPendingTasks { Wakeup(); }
      if inLoopThread {
        OwnQueueRuns(s, p, task.id, View());
      } else {
        OtherQueueRuns(s, p, task.id, View());
      }
    }

    /** A task or callback called by the loop thread: it queues what it queues. */
    method Call(task: Job)
      requires UserCodeRuns(View())
      modifies `pendingTasks, `eventfd, `enqueued, `called
      ensures called == old(called) + [task] && pendingTasks == old(pendingTasks) + task.queues
      ensures eventfd == old(eventfd) + if doingPendingTasks then |task.queues| else 0
      ensures After(old(View()), BodySteps(task.queues)) == Reached(View())
    {
      hide After, QueueSteps, Enabled, Effect, Ids;
      called := called + [task];
      ghost var s := View();
      assert task.queues[..0] == [] && BodySteps([]) == [];
      Nothing(s);
      for i := 0 to |task.queues|
        invariant called == old(called) + [task] && pendingTasks == old(pendingTasks) + task.queues[..i]
        invariant eventfd == old(eventfd) + if doingPendingTasks then i else 0
        invariant After(s, BodySteps(task.queues[..i])) == Reached(View())
      {
        ghost var t := View();
        QueueInLoop(task.queues[i], true, 0);
        BodyNext(task.queues, i);
        GoesOn(s, BodySteps(task.queues[..i]), t, QueueSteps(task.queues[i].id, true, 0), View());
        QueuedNext([], task.queues, i);
        assert old(pendingTasks) + task.queues[..i] + [task.queues[i]] == old(pendingTasks) + task.queues[..i + 1];
      }
      assert task.queues[..|task.queues|] == task.queues;
    }

    /** runInLoop: at once on the loop thread, through the queue from the thread p. */
    method RunInLoop(task: Job, inLoopThread: bool, ghost p: Thread)
      requires if inLoopThread then UserCodeRuns(View()) else p !in owing
      modifies `pendingTasks, `eventfd, `enqueued, `called
      ensures called == old(called) + if inLoopThread then [task] else []
      ensures pendingTasks == old(pendingTasks) + if inLoopThread then task.queues else [task]
      ensures After(old(View()), if inLoopThread then BodySteps(task.queues) else QueueSteps(task.id, false, p))
           == Reached(View())
    {
      if inLoopThread {
        Call(task);
      } else {
        QueueInLoop(task, false, p);
      }
    }

    /** The asserted precondition: quit is called once. */
    method Quit(inLoopThread: bool, ghost p: Thread)
      requires !quit && if inLoopThread then UserCodeRuns(View()) else p !in owing
      modifies `quit, `eventfd
      ensures quit && eventfd == old(eventfd) + if inLoopThread then 0 else 1
      ensures After(old(View()), if inLoopThread then [OwnQuit] else [QuitBy(p), WakeupBy(p)]) == Reached(View())
    {
      hide After, Ids;
      ghost var s := View();
      quit := true;
      if !inLoopThread { Wakeup(); }
      if inLoopThread {
        OneStep(s, OwnQuit);
      } else {
        ComesAndGoes(owing, p);
        TwoSteps(s, QuitBy(p), WakeupBy(p));
      }
    }

    method HandleRead()
      requires pc == Handlers(true)
      modifies `eventfd, `pc
      ensures eventfd == 0 && pc == Handlers(false) && After(old(View()), [ReadEventfd]) == Reached(View())
    {
      ghost var s := View();
      eventfd := 0;
      pc := Handlers(false);
      OneStep(s, ReadEventfd);
    }

    /** The body of the loop of doPendingTasks. */
    method RunFirst(task: Job)
      requires pc.Running? && doingPendingTasks && !inTask && batch != [] && batch[0] == task
      modifies `pendingTasks, `eventfd, `enqueued, `called, `inTask, `batch, `executed
      ensures !inTask && batch == old(batch)[1..]
      ensures called == old(called) + [task] && pendingTasks == old(pendingTasks) + task.queues
      ensures eventfd == old(eventfd) + |task.queues|
      ensures After(old(View()), [RunTask] + BodySteps(task.queues) + [TaskReturns]) == Reached(View())
    {
      hide After, BodySteps, Ids;
      ghost var s := View();
      IdsRest(batch);
      inTask, executed, batch := true, executed + [task.id], batch[1..];
      OneStep(s, RunTask);
      ghost var t := View();
      assert t == Effect(s, RunTask);
      Call(task);
      GoesOn(s, [RunTask], t, BodySteps(task.queues), View());
      ghost var u := View();
      inTask := false;
      OneStep(u, TaskReturns);
      GoesOn(s, [RunTask] + BodySteps(task.queues), u, [TaskReturns], View());
    }

    /** Each task of the queue runs once, in order. What they queue waits for the next round, each
        such task with a wakeup of its own. */
    method DoPendingTasks()
      requires pc.Swap? && !doingPendingTasks && !inTask
      modifies this
      ensures pc.Top? && !doingPendingTasks && !inTask && quit == old(quit)
      ensures called == old(called) + old(pendingTasks)
      ensures pendingTasks == Queued(old(pendingTasks))
      ensures eventfd == old(eventfd) + |pendingTasks|
      ensures After(old(View()), PassSteps(old(pendingTasks))) == Reached(View())
    {
      hide After, Enabled, Effect, Ids, BodySteps, TaskSteps, QueueSteps, Queued;
      ghost var s := View();
      var tasks := pendingTasks;
      pendingTasks := [];
      doingPendingTasks := true;
      batch, pc := tasks, Running;
      NoJobs(tasks);
      PassStarts(s, View());
      for i := 0 to |tasks|
        invariant pc.Running? && doingPendingTasks && !inTask && quit == old(quit) && owing == old(owing)
        invariant batch == tasks[i..] && called == old(called) + tasks[..i]
        invariant pendingTasks == Queued(tasks[..i])
        invariant eventfd == old(eventfd) + |pendingTasks|
        invariant After(s, [SwapTasks, StartTasks] + TaskSteps(tasks[..i])) == Reached(View())
      {
        ghost var t := View();
        RestOf(tasks, i);
        RunFirst(tasks[i]);
        PassNext(s, tasks, i, t, View());
        QueuedNext(old(called), tasks, i);
      }
      WholeSeq(tasks);
      ghost var u := View();
      doingPendingTasks := false;
      pc := Top;
      PassEnds(s, tasks, u, View());
    }

    /** The handlers of active channels; they queue tasks without a wakeup. */
    method CallHandlers(handlers: seq<Job>)
      requires pc.Handlers? && !doingPendingTasks && !inTask
      modifies `pendingTasks, `eventfd, `enqueued, `called
      ensures called == old(called) + handlers && pendingTasks == old(pendingTasks) + Queued(handlers)
      ensures eventfd == old(eventfd)
      ensures After(old(View()), HandlerSteps(handlers)) == Reached(View())
    {
      hide After, Enabled, Effect, Ids, BodySteps, HandlerSteps, Queued;
      ghost var s := View();
      NoHandlers(s, handlers);
      for i := 0 to |handlers|
        invariant called == old(called) + handlers[..i] && pendingTasks == old(pendingTasks) + Queued(handlers[..i])
        invariant eventfd == old(eventfd)
        invariant After(s, HandlerSteps(handlers[..i])) == Reached(View())
      {
        ghost var t := View();
        Call(handlers[i]);
        HandlerNext(handlers, i);
        GoesOn(s, HandlerSteps(handlers[..i]), t, BodySteps(handlers[i].queues), View());
        QueuedNext(old(called), handlers, i);
        Associates(old(pendingTasks), Queued(handlers[..i]), handlers[i].queues);
      }
      WholeSeq(handlers);
    }

    /** From epoll_wait to doPendingTasks. */
    method HandleRound(r: Round)
      requires pc.Poll? && !doingPendingTasks && !inTask && (r.wake ==> eventfd > 0)
      modifies `pendingTasks, `eventfd, `enqueued, `called, `pc
      ensures pc.Swap? && called == old(called) + r.first + r.second
      ensures pendingTasks == old(pendingTasks) + Queued(r.first) + Queued(r.second)
      ensures eventfd == if r.wake then 0 else old(eventfd)
      ensures After(old(View()), PollSteps(r)) == Reached(View())
    {
      hide After, Ids, BodySteps, HandlerSteps, Queued;
      ghost var s := View();
      pc := Handlers(r.wake);
      OneStep(s, PollReturns(r.wake));
      ghost var t := View();
      CallHandlers(r.first);
      GoesOn(s, [PollReturns(r.wake)], t, HandlerSteps(r.first), View());
      ghost var u := View();
      ghost var done := [PollReturns(r.wake)] + HandlerSteps(r.first);
      if r.wake { HandleRead(); }
      Nothing(u);
      GoesOn(s, done, u, if r.wake then [ReadEventfd] else [], View());
      done := done + (if r.wake then [ReadEventfd] else []);
      ghost var v := View();
      CallHandlers(r.second);
      GoesOn(s, done, v, HandlerSteps(r.second), View());
      ghost var w := View();
      pc := Swap;
      OneStep(w, EndHandlers);
      GoesOn(s, done + HandlerSteps(r.second), w, [EndHandlers], View());
    }

    /** One turn of loop(): with a quit it stops; otherwise the active handlers are called and then every
        task that is queued by then, in order. */
    method Turn(r: Round) returns (stopped: bool)
      requires pc.Top? && !doingPendingTasks && !inTask && (r.wake ==> eventfd > 0)
      modifies this
      ensures stopped == old(quit)
      ensures stopped ==> View() == old(View()).(pc := Stopped)
      ensures stopped ==> called == old(called) && After(old(View()), [TestQuit]) == Reached(View())
      ensures !stopped ==> pc.Top? && !doingPendingTasks && !inTask
      ensures !stopped ==>
        var tasks := old(pendingTasks) + Queued(r.first) + Queued(r.second);
        && called == old(called) + r.first + r.second + tasks
        && pendingTasks == Queued(tasks)
        && eventfd == (if r.wake then 0 else old(eventfd)) + |pendingTasks|
        && After(old(View()), TurnSteps(r, tasks)) == Reached(View())
    {
      hide After, Ids, Queued, PollSteps, PassSteps;
      ghost var s := View();
      if quit {
        pc := Stopped;
        OneStep(s, TestQuit);
        return true;
      }
      pc := Poll;
      OneStep(s, TestQuit);
      ghost var t := View();
      HandleRound(r);
      GoesOn(s, [TestQuit], t, PollSteps(r), View());
      ghost var u := View();
      ghost var tasks := pendingTasks;
      DoPendingTasks();
      GoesOn(s, [TestQuit] + PollSteps(r), u, PassSteps(tasks), View());
      return false;
    }
  }

  lemma NoHandlers(s: State, handlers: seq<Job>)
    ensures After(s, HandlerSteps(handlers[..0])) == Reached(s) && Queued(handlers[..0]) == []
  {
  }

  lemma HandlerNext(handlers: seq<Job>, i: nat)
    requires i < |handlers|
    ensures HandlerSteps(handlers[..i + 1]) == HandlerSteps(handlers[..i]) + BodySteps(handlers[i].queues)
  {
    assert handlers[..i + 1][..i] == handlers[..i];
  }

  lemma Associates(a: seq<Job>, b: seq<Job>, c: seq<Job>)
    ensures a + b + c == a + (b + c)
  {
  }
}
