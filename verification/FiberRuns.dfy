/** Fibers on several workers: `take`, `handleFiber`, `sched_resume`, `YieldToHold` and event wake-ups in
    any interleaving (`easy/base/Scheduler.cc`, `easy/base/Fiber.cc`, `easy/base/IOManager.cc`).

    Giving up the worker is one step here: the state becomes HOLD, the context is switched away, and
    `handleFiber` writes the state. The code does not make these one atomic action. */
module FiberRuns {
  import opened Options
  import opened Schedulers

  /** A worker between tasks, with a task it has taken, or inside `handleFiber`. */
  datatype Worker = Free | Holding(task: Task) | Running(fiber: nat)

  /** `parked` holds the fibers registered with `addEvent`; fibers from `spare` on do not exist yet. */
  datatype Sys = Sys(workers: map<int, Worker>, tasks: seq<Task>, states: FiberStates,
                     parked: multiset<nat>, spare: nat)

  datatype Step =
    | Post(cb: nat, threadId: int)       // schedule a callback
    | Spawn(threadId: int)               // schedule a new fiber
    | TakeTask(w: int)
    | Resume(w: int)
    | Register(w: int)                   // the running fiber calls addEvent
    | Fire(fiber: nat)                   // the event schedules the parked fiber
    | Forget(fiber: nat)                 // removeEvent
    | Yield(w: int, how: FiberState)     // control returns to handleFiber

  predicate Runs(s: Sys, w: int, f: nat) {
    w in s.workers && s.workers[w] == Running(f)
  }

  predicate Holds(s: Sys, w: int, f: nat) {
    w in s.workers && s.workers[w].Holding? && s.workers[w].task.fiber == Some(f)
  }

  predicate Queues(tasks: seq<Task>, f: nat) {
    exists i :: 0 <= i < |tasks| && tasks[i].fiber == Some(f)
  }

  predicate Finished(st: FiberState) {
    st == TERM || st == EXCEPT
  }

  /** The assertion of `sched_resume`, which `run` reaches unless the fiber has finished. */
  predicate ResumableOrDone(states: FiberStates, f: nat) {
    f in states && states[f] != EXEC
  }

  /** When a step can happen; a resumption that would fail the assertion cannot. */
  predicate Enabled(s: Sys, step: Step) {
    match step
    case Post(_, _) => true
    case Spawn(_) => true
    case TakeTask(w) => w in s.workers && s.workers[w].Free?
    case Resume(w) =>
      && w in s.workers && s.workers[w].Holding?
      && (s.workers[w].task.fiber.Some? ==> ResumableOrDone(s.states, s.workers[w].task.fiber.value))
    case Register(w) => w in s.workers && s.workers[w].Running?
    case Fire(f) => f in s.parked
    case Forget(f) => f in s.parked
    case Yield(w, _) => w in s.workers && s.workers[w].Running?
  }

  function Wake(s: Sys, f: nat): seq<Task> {
    Push(s.tasks, Task(s.spare, Some(f), None, -1))
  }

  function Next(s: Sys, step: Step): Sys
    requires Enabled(s, step)
  {
    match step
    case Post(cb, threadId) => s.(tasks := Push(s.tasks, Task(s.spare, None, Some(cb), threadId)))
    case Spawn(threadId) =>
      s.(tasks := Push(s.tasks, Task(s.spare, Some(s.spare), None, threadId)),
         states := s.states[s.spare := INIT], spare := s.spare + 1)
    case TakeTask(w) =>
      var (r, rest) := Take(s.tasks, w, s.states);
      if r.None? then s else s.(workers := s.workers[w := Holding(r.value)], tasks := rest)
    case Resume(w) =>
      var t := s.workers[w].task;
      if t.fiber.None? then
        s.(workers := s.workers[w := Running(s.spare)], states := s.states[s.spare := EXEC], spare := s.spare + 1)
      else if Finished(s.states[t.fiber.value]) then s.(workers := s.workers[w := Free])
      else s.(workers := s.workers[w := Running(t.fiber.value)], states := s.states[t.fiber.value := EXEC])
    case Register(w) => s.(parked := s.parked + multiset{s.workers[w].fiber})
    case Fire(f) => s.(parked := s.parked - multiset{f}, tasks := Wake(s, f))
    case Forget(f) => s.(parked := s.parked - multiset{f})
    case Yield(w, how) =>
      var f := s.workers[w].fiber;
      var s := s.(workers := s.workers[w := Free],
                  states := s.states[f := if how == READY || Finished(how) then how else HOLD]);
      if how == READY then s.(tasks := Wake(s, f)) else s
  }

  /** No wake-up of the fiber is outstanding: it is not registered, not queued, and not taken. */
  ghost predicate Quiet(s: Sys, f: nat) {
    f !in s.parked && !Queues(s.tasks, f) && forall w :: !Holds(s, w, f)
  }

  /** The assumption on programs: a running fiber that asks to be woken has asked only once. */
  ghost predicate OneWakeUp(s: Sys, step: Step)
    requires Enabled(s, step)
  {
    match step
    case Register(w) => Quiet(s, s.workers[w].fiber)
    case Yield(w, how) => how == READY ==> Quiet(s, s.workers[w].fiber)
    case _ => true
  }

  // ----- the invariant -----

  /** A fiber executes on one worker at most, and its state is then EXEC. */
  ghost predicate Exclusive(s: Sys) {
    && (forall w, f :: Runs(s, w, f) ==> f in s.states && s.states[f] == EXEC)
    && (forall v, w, f :: Runs(s, v, f) && Runs(s, w, f) ==> v == w)
  }

  /** A fiber has one wake-up at most: registered, queued once, or taken by one worker; and a taken
      fiber is not executing. */
  ghost predicate OneToken(s: Sys) {
    QueuedOnce(s) && HeldOnce(s)
  }

  ghost predicate QueuedOnce(s: Sys) {
    && (forall f :: s.parked[f] <= 1)
    && (forall i, j :: 0 <= i < j < |s.tasks| && s.tasks[i].fiber.Some? ==> s.tasks[i].fiber != s.tasks[j].fiber)
    && (forall i :: 0 <= i < |s.tasks| && s.tasks[i].fiber.Some? ==> s.tasks[i].fiber.value !in s.parked)
  }

  ghost predicate HeldOnce(s: Sys) {
    && (forall w, f :: Holds(s, w, f) ==> f !in s.parked && !Queues(s.tasks, f))
    && (forall w, f :: Holds(s, w, f) ==> f in s.states && s.states[f] != EXEC)
    && (forall v, w, f :: Holds(s, v, f) && Holds(s, w, f) ==> v == w)
  }

  /** Only fibers that exist are mentioned, and a task has a fiber or a callback, not both. */
  ghost predicate Known(s: Sys) {
    && (forall f :: f in s.states ==> f < s.spare)
    && (forall f :: f in s.parked ==> f in s.states)
    && (forall i :: 0 <= i < |s.tasks| ==> OneKind(s.tasks[i]))
    && (forall i :: 0 <= i < |s.tasks| && s.tasks[i].fiber.Some? ==> s.tasks[i].fiber.value in s.states)
    && (forall w :: w in s.workers && s.workers[w].Holding? ==> OneKind(s.workers[w].task))
  }

  predicate OneKind(t: Task) {
    t.fiber.Some? <==> t.cb.None?
  }

  ghost predicate Invariant(s: Sys) {
    Exclusive(s) && OneToken(s) && Known(s)
  }

  lemma PostKeeps(s: Sys, step: Step)
    requires Invariant(s) && (step.Post? || step.Spawn?)
    ensures Invariant(Next(s, step))
  {
    var t := Next(s, step);
    assert forall w, f :: Runs(t, w, f) <==> Runs(s, w, f);
    PostTokens(s, step);
  }

  lemma PostTokens(s: Sys, step: Step)
    requires Invariant(s) && (step.Post? || step.Spawn?)
    ensures OneToken(Next(s, step))
  {
    hide Exclusive;
    var t := Next(s, step);
    assert forall w, f :: Holds(t, w, f) <==> Holds(s, w, f);
    assert forall f :: Queues(t.tasks, f) ==> Queues(s.tasks, f) || f == s.spare;
  }

  lemma TakeKeeps(s: Sys, step: Step)
    requires Invariant(s) && step.TakeTask? && Enabled(s, step)
    ensures Invariant(Next(s, step))
  {
    hide Take;
    TakeExact(s.tasks, step.w, s.states);
    var (r, rest) := Take(s.tasks, step.w, s.states);
    if r.Some? {
      var i :| 0 <= i < |s.tasks| && s.tasks[i] == r.value && rest == s.tasks[..i] + s.tasks[i + 1..];
      HoldKeeps(s, step.w, i);
    }
  }

  /** Moving an eligible task from the list to a free worker. */
  lemma HoldKeeps(s: Sys, w: int, i: nat)
    requires Invariant(s) && w in s.workers && s.workers[w].Free?
    requires i < |s.tasks| && !Executing(s.tasks[i], s.states)
    ensures Invariant(Held(s, w, i))
  {
    var t := Held(s, w, i);
    HoldTokens(s, w, i);
    assert forall v, f :: Runs(t, v, f) ==> Runs(s, v, f);
    assert forall j :: 0 <= j < |t.tasks| ==> t.tasks[j] in s.tasks;
  }

  function Held(s: Sys, w: int, i: nat): Sys
    requires i < |s.tasks|
  {
    s.(workers := s.workers[w := Holding(s.tasks[i])], tasks := s.tasks[..i] + s.tasks[i + 1..])
  }

  lemma HoldTokens(s: Sys, w: int, i: nat)
    requires Invariant(s) && w in s.workers && s.workers[w].Free?
    requires i < |s.tasks| && !Executing(s.tasks[i], s.states)
    ensures OneToken(Held(s, w, i))
  {
    HoldQueued(s, w, i);
    assert s.tasks[i].fiber.Some? ==> s.tasks[i].fiber.value in s.states;
    hide Exclusive, Known, Runs, QueuedOnce;
    var t := Held(s, w, i);
    assert forall v, f: nat :: Holds(t, v, f) ==> if v == w then s.tasks[i].fiber == Some(f) else Holds(s, v, f);
    assert s.tasks[i].fiber.Some? ==> Queues(s.tasks, s.tasks[i].fiber.value);
  }

  lemma HoldQueued(s: Sys, w: int, i: nat)
    requires QueuedOnce(s) && i < |s.tasks|
    ensures var t := Held(s, w, i);
            && QueuedOnce(t)
            && (s.tasks[i].fiber.Some? ==>
                 !Queues(t.tasks, s.tasks[i].fiber.value) && s.tasks[i].fiber.value !in t.parked)
            && (forall f: nat :: Queues(t.tasks, f) ==> Queues(s.tasks, f))
  {
    var t := Held(s, w, i);
    assert forall j :: 0 <= j < |t.tasks| ==> t.tasks[j] == s.tasks[if j < i then j else j + 1];
  }

  lemma ResumeKeeps(s: Sys, step: Step)
    requires Invariant(s) && step.Resume? && Enabled(s, step)
    ensures Invariant(Next(s, step))
  {
    ResumeTokens(s, step);
    ResumedIsIdle(s, step.w);
    hide OneToken, Queues, Holds;
    var t := Next(s, step);
    assert Exclusive(t) by {
      assert forall v, f :: v != step.w ==> (Runs(t, v, f) <==> Runs(s, v, f));
    }
    hide Exclusive, Runs;
  }

  /** A taken fiber is not executing anywhere. */
  lemma ResumedIsIdle(s: Sys, w: int)
    requires Exclusive(s) && OneToken(s) && w in s.workers && s.workers[w].Holding?
    ensures s.workers[w].task.fiber.Some? ==>
              var f := s.workers[w].task.fiber.value;
              f in s.states && s.states[f] != EXEC && forall v :: !Runs(s, v, f)
  {
    hide Queues;
    if s.workers[w].task.fiber.Some? {
      assert Holds(s, w, s.workers[w].task.fiber.value);
    }
  }

  lemma ResumeTokens(s: Sys, step: Step)
    requires Invariant(s) && step.Resume? && Enabled(s, step)
    ensures OneToken(Next(s, step))
  {
    hide Exclusive, Runs, Queues;
    var t := Next(s, step);
    var w := step.w;
    if s.workers[w].task.fiber.Some? {
      assert Holds(s, w, s.workers[w].task.fiber.value);
    }
    assert forall v, f :: Holds(t, v, f) <==> v != w && Holds(s, v, f);
  }

  lemma RegisterKeeps(s: Sys, step: Step)
    requires Invariant(s) && step.Register? && Enabled(s, step) && OneWakeUp(s, step)
    ensures Invariant(Next(s, step))
  {
    var t := Next(s, step);
    assert Runs(s, step.w, s.workers[step.w].fiber);
    assert forall w, f :: Runs(t, w, f) <==> Runs(s, w, f);
    assert forall w, f :: Holds(t, w, f) <==> Holds(s, w, f);
  }

  lemma WakeKeeps(s: Sys, step: Step)
    requires Invariant(s) && (step.Fire? || step.Forget?) && Enabled(s, step)
    ensures Invariant(Next(s, step))
  {
    WakeTokens(s, step);
    hide OneToken, Holds, Queues;
    var t := Next(s, step);
    assert forall w, f :: Runs(t, w, f) <==> Runs(s, w, f);
    assert forall f :: f in t.parked ==> f in s.parked;
  }

  lemma WakeTokens(s: Sys, step: Step)
    requires Invariant(s) && (step.Fire? || step.Forget?) && Enabled(s, step)
    ensures OneToken(Next(s, step))
  {
    hide Exclusive, Known, Runs;
    var t := Next(s, step);
    assert forall w, f :: Holds(t, w, f) <==> Holds(s, w, f);
    assert t.parked[step.fiber] == 0;
    assert forall f :: f != step.fiber ==> t.parked[f] == s.parked[f];
    if step.Fire? {
      assert t.tasks == s.tasks + [Task(s.spare, Some(step.fiber), None, -1)];
      assert forall f :: Queues(t.tasks, f) ==> Queues(s.tasks, f) || f == step.fiber;
    }
  }

  lemma YieldKeeps(s: Sys, step: Step)
    requires Invariant(s) && step.Yield? && Enabled(s, step) && OneWakeUp(s, step)
    ensures Invariant(Next(s, step))
  {
    YieldTokens(s, step);
    hide OneToken, Queues, Holds;
    var t := Next(s, step);
    assert Runs(s, step.w, s.workers[step.w].fiber);
    assert forall v, g :: Runs(t, v, g) <==> v != step.w && Runs(s, v, g);
  }

  lemma YieldTokens(s: Sys, step: Step)
    requires Invariant(s) && step.Yield? && Enabled(s, step) && OneWakeUp(s, step)
    ensures OneToken(Next(s, step))
  {
    var t := Next(s, step);
    var f := s.workers[step.w].fiber;
    assert f in s.states by {
      assert Runs(s, step.w, f);
    }
    hide Exclusive, Runs;
    assert forall v, g :: Holds(t, v, g) <==> Holds(s, v, g);
    if step.how == READY {
      assert forall g :: Queues(t.tasks, g) ==> Queues(s.tasks, g) || g == f;
    }
  }

  /** Every step keeps the invariant. */
  lemma NextKeeps(s: Sys, step: Step)
    requires Invariant(s) && Enabled(s, step) && OneWakeUp(s, step)
    ensures Invariant(Next(s, step))
  {
    match step
    case Post(_, _) => PostKeeps(s, step);
    case Spawn(_) => PostKeeps(s, step);
    case TakeTask(_) => TakeKeeps(s, step);
    case Resume(_) => ResumeKeeps(s, step);
    case Register(_) => RegisterKeeps(s, step);
    case Fire(_) => WakeKeeps(s, step);
    case Forget(_) => WakeKeeps(s, step);
    case Yield(_, _) => YieldKeeps(s, step);
  }

  // ----- runs -----

  ghost predicate Possible(s: Sys, steps: seq<Step>)
    decreases |steps|
  {
    steps == [] || (Enabled(s, steps[0]) && Possible(Next(s, steps[0]), steps[1..]))
  }

  ghost predicate WakesOnce(s: Sys, steps: seq<Step>)
    requires Possible(s, steps)
    decreases |steps|
  {
    steps == [] || (OneWakeUp(s, steps[0]) && WakesOnce(Next(s, steps[0]), steps[1..]))
  }

  function Run(s: Sys, steps: seq<Step>): Sys
    requires Possible(s, steps)
    decreases |steps|
  {
    if steps == [] then s else Run(Next(s, steps[0]), steps[1..])
  }

  function Start(workers: set<int>): Sys {
    Sys(map w | w in workers :: Free, [], map[], multiset{}, 0)
  }

  lemma {:induction false} RunKeeps(s: Sys, steps: seq<Step>)
    requires Invariant(s) && Possible(s, steps) && WakesOnce(s, steps)
    ensures Invariant(Run(s, steps))
    decreases |steps|
  {
    if steps != [] {
      NextKeeps(s, steps[0]);
      RunKeeps(Next(s, steps[0]), steps[1..]);
    }
  }

  /** In any interleaving of any number of workers no fiber executes on two workers at once, even when
      its wake-up is queued before it has yielded; and a worker with a task can always go on with it:
      the assertion of `sched_resume` never fails. */
  lemma NoFiberRunsTwice(workers: set<int>, steps: seq<Step>, v: int, w: int, f: nat)
    requires Possible(Start(workers), steps) && WakesOnce(Start(workers), steps)
    ensures var s := Run(Start(workers), steps);
            && (Runs(s, v, f) && Runs(s, w, f) ==> v == w)
            && (w in s.workers && s.workers[w].Holding? ==> Enabled(s, Resume(w)))
  {
    RunKeeps(Start(workers), steps);
    var s := Run(Start(workers), steps);
    if w in s.workers && s.workers[w].Holding? && s.workers[w].task.fiber.Some? {
      assert Holds(s, w, s.workers[w].task.fiber.value);
    }
  }

  // ----- why the guard and the assumption are there -----

  const LONE := Sys(map[1 := Free, 2 := Free], [], map[], multiset{}, 0)

  /** A wake-up can be queued while its fiber still executes: the fiber registers, the event fires, and
      the fiber has not yielded. `take` then passes over the task on every thread; the task is unpinned,
      so only the EXEC guard keeps it from being taken. */
  lemma WakeUpBeforeYield() returns (steps: seq<Step>)
    ensures Possible(LONE, steps) && WakesOnce(LONE, steps)
    ensures Early(Run(LONE, steps))
  {
    hide WakesOnce, Possible, Next, Take, OneWakeUp, Quiet;
    steps := [];
    NoSteps(Crowd(Running(0), Free, [WAKE], EXEC, multiset{}));
    FireBoth();
    steps := Prepend(Crowd(Running(0), Free, [], EXEC, multiset{0}), Fire(0), steps,
                     Crowd(Running(0), Free, [WAKE], EXEC, multiset{}));
    RegisterBoth();
    FirstIsQuiet();
    steps := Prepend(Crowd(Running(0), Free, [], EXEC, multiset{}), Register(1), steps,
                     Crowd(Running(0), Free, [], EXEC, multiset{0}));
    steps := SpawnFirst(steps);
    TakeNone();
  }

  lemma TakeNone()
    ensures forall tid :: Take([WAKE], tid, map[0 := EXEC]).0 == None
  {
    assert !exists tid :: Eligible(WAKE, tid, map[0 := EXEC]);
  }

  /** Fiber 0 executes on worker 1, its unpinned wake-up is in the list, and no thread can take it. */
  ghost predicate Early(s: Sys) {
    && Runs(s, 1, 0) && |s.tasks| == 1 && s.tasks[0].fiber == Some(0) && s.tasks[0].threadId == -1
    && forall tid :: Take(s.tasks, tid, s.states).0 == None
  }

  lemma NoSteps(s: Sys)
    ensures Possible(s, []) && WakesOnce(s, []) && Run(s, []) == s
  {
  }

  /** A step is possible and leads there. */
  ghost predicate Leads(s: Sys, step: Step, t: Sys) {
    Enabled(s, step) && Next(s, step) == t
  }

  /** Putting a step in front of a run. */
  lemma Prepend(s: Sys, step: Step, rest: seq<Step>, t: Sys) returns (steps: seq<Step>)
    requires Leads(s, step, t) && Possible(t, rest)
    ensures Possible(s, steps) && Run(s, steps) == Run(t, rest)
    ensures WakesOnce(s, steps) <==> OneWakeUp(s, step) && WakesOnce(t, rest)
  {
    steps := [step] + rest;
    assert steps[1..] == rest;
  }

  /** Without the assumption it fails: a fiber registered for two events is queued twice once it has
      yielded, both tasks are taken before either is resumed, and the second resumption finds the fiber
      executing, which the assertion of `sched_resume` forbids. */
  lemma TwoWakeUpsCollide() returns (steps: seq<Step>)
    ensures Possible(LONE, steps)
    ensures var s := Run(LONE, steps); Runs(s, 1, 0) && Holds(s, 2, 0) && !Enabled(s, Resume(2))
  {
    hide WakesOnce, Possible, Next, Take, OneWakeUp;
    steps := [];
    NoSteps(Crowd(Running(0), Holding(WAKE), [], EXEC, multiset{}));
    TakeBoth();
    steps := Prepend(Crowd(Holding(WAKE), Holding(WAKE), [], HOLD, multiset{}), Resume(1), steps,
                     Crowd(Running(0), Holding(WAKE), [], EXEC, multiset{}));
    steps := Prepend(Crowd(Holding(WAKE), Free, [WAKE], HOLD, multiset{}), TakeTask(2), steps,
                     Crowd(Holding(WAKE), Holding(WAKE), [], HOLD, multiset{}));
    steps := Prepend(Crowd(Free, Free, [WAKE, WAKE], HOLD, multiset{}), TakeTask(1), steps,
                     Crowd(Holding(WAKE), Free, [WAKE], HOLD, multiset{}));
    FireBoth();
    steps := Prepend(Crowd(Running(0), Free, [WAKE, WAKE], EXEC, multiset{}), Yield(1, HOLD), steps,
                     Crowd(Free, Free, [WAKE, WAKE], HOLD, multiset{}));
    steps := Prepend(Crowd(Running(0), Free, [WAKE], EXEC, multiset{0}), Fire(0), steps,
                     Crowd(Running(0), Free, [WAKE, WAKE], EXEC, multiset{}));
    steps := Prepend(Crowd(Running(0), Free, [], EXEC, multiset{0, 0}), Fire(0), steps,
                     Crowd(Running(0), Free, [WAKE], EXEC, multiset{0}));
    RegisterBoth();
    steps := Prepend(Crowd(Running(0), Free, [], EXEC, multiset{0}), Register(1), steps,
                     Crowd(Running(0), Free, [], EXEC, multiset{0, 0}));
    steps := Prepend(Crowd(Running(0), Free, [], EXEC, multiset{}), Register(1), steps,
                     Crowd(Running(0), Free, [], EXEC, multiset{0}));
    steps := SpawnFirst(steps);
  }

  const NEW := Task(0, Some(0), None, -1)
  const WAKE := Task(1, Some(0), None, -1)

  /** Two workers and fiber 0. */
  function Crowd(v: Worker, w: Worker, tasks: seq<Task>, st: FiberState, parked: multiset<nat>): Sys {
    Sys(map[1 := v, 2 := w], tasks, map[0 := st], parked, 1)
  }

  /** A run that begins with fiber 0 being made, taken and resumed. */
  lemma SpawnFirst(rest: seq<Step>) returns (steps: seq<Step>)
    requires Possible(Crowd(Running(0), Free, [], EXEC, multiset{}), rest)
    ensures Possible(LONE, steps) && Run(LONE, steps) == Run(Crowd(Running(0), Free, [], EXEC, multiset{}), rest)
    ensures WakesOnce(Crowd(Running(0), Free, [], EXEC, multiset{}), rest) ==> WakesOnce(LONE, steps)
  {
    hide WakesOnce, Possible, Take;
    TakeHead(NEW, [], 1, map[0 := INIT]);
    assert [NEW] + [] == [NEW];
    steps := Prepend(Crowd(Holding(NEW), Free, [], INIT, multiset{}), Resume(1), rest,
                     Crowd(Running(0), Free, [], EXEC, multiset{}));
    steps := Prepend(Crowd(Free, Free, [NEW], INIT, multiset{}), TakeTask(1), steps,
                     Crowd(Holding(NEW), Free, [], INIT, multiset{}));
    steps := Prepend(LONE, Spawn(-1), steps, Crowd(Free, Free, [NEW], INIT, multiset{}));
  }

  lemma FirstIsQuiet()
    ensures Quiet(Crowd(Running(0), Free, [], EXEC, multiset{}), 0)
    ensures Leads(Crowd(Running(0), Free, [], EXEC, multiset{}), Register(1),
                  Crowd(Running(0), Free, [], EXEC, multiset{0}))
    ensures OneWakeUp(Crowd(Running(0), Free, [], EXEC, multiset{}), Register(1))
    ensures OneWakeUp(Crowd(Running(0), Free, [], EXEC, multiset{0}), Fire(0))
  {
  }

  lemma RegisterBoth()
    ensures Leads(Crowd(Running(0), Free, [], EXEC, multiset{}), Register(1),
                  Crowd(Running(0), Free, [], EXEC, multiset{0}))
    ensures Leads(Crowd(Running(0), Free, [], EXEC, multiset{0}), Register(1),
                  Crowd(Running(0), Free, [], EXEC, multiset{0, 0}))
  {
  }

  lemma FireBoth()
    ensures Leads(Crowd(Running(0), Free, [], EXEC, multiset{0, 0}), Fire(0),
                  Crowd(Running(0), Free, [WAKE], EXEC, multiset{0}))
    ensures Leads(Crowd(Running(0), Free, [], EXEC, multiset{0}), Fire(0),
                  Crowd(Running(0), Free, [WAKE], EXEC, multiset{}))
    ensures Leads(Crowd(Running(0), Free, [WAKE], EXEC, multiset{0}), Fire(0),
                  Crowd(Running(0), Free, [WAKE, WAKE], EXEC, multiset{}))
    ensures Leads(Crowd(Running(0), Free, [WAKE, WAKE], EXEC, multiset{}), Yield(1, HOLD),
                  Crowd(Free, Free, [WAKE, WAKE], HOLD, multiset{}))
  {
  }

  lemma TakeBoth()
    ensures Leads(Crowd(Free, Free, [WAKE, WAKE], HOLD, multiset{}), TakeTask(1),
                  Crowd(Holding(WAKE), Free, [WAKE], HOLD, multiset{}))
    ensures Leads(Crowd(Holding(WAKE), Free, [WAKE], HOLD, multiset{}), TakeTask(2),
                  Crowd(Holding(WAKE), Holding(WAKE), [], HOLD, multiset{}))
    ensures Leads(Crowd(Holding(WAKE), Holding(WAKE), [], HOLD, multiset{}), Resume(1),
                  Crowd(Running(0), Holding(WAKE), [], EXEC, multiset{}))
  {
    hide Take;
    TakeHead(WAKE, [WAKE], 1, map[0 := HOLD]);
    TakeHead(WAKE, [], 2, map[0 := HOLD]);
    assert [WAKE] + [WAKE] == [WAKE, WAKE] && [WAKE] + [] == [WAKE];
  }

  lemma TakeHead(t: Task, rest: seq<Task>, tid: int, states: FiberStates)
    requires Eligible(t, tid, states)
    ensures Take([t] + rest, tid, states) == (Some(t), rest)
  {
    var tasks := [t] + rest;
    assert First(tasks, tid, states) == 0;
    assert tasks[..0] + tasks[1..] == rest;
  }
}
