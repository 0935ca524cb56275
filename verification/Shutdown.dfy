/** Shutdown with one pool worker: `run`, the idle fiber, and `IOManager::canStop`
    (`easy/base/Scheduler.cc`, `easy/base/IOManager.cc`).

    `canStop` reads `timers_`, then `pendingEventCount_`, then, under the scheduler's lock, `running_`,
    the task list and the number of active workers. The three reads are separate steps here, so other
    threads can act between them. The sole worker reads in its idle fiber, where it does not count as
    active. */
module Shutdown {
  import opened Options
  import opened Schedulers

  /** Where the worker is: before `take`; holding what it returned; running a task; in `canStop` before
      its first, second and third read; serving reports in the idle fiber; and out of `run`. */
  datatype Pc = Top | Took(task: Option<Task>) | Busy | ReadTimers | ReadPending | ReadTasks | Polling | Done

  datatype Pool = Pool(pc: Pc, running: bool, tasks: seq<Task>, timers: nat, pending: nat, idleDone: bool)

  /** The worker's steps; a task and the idle fiber may schedule tasks and set, fire or cancel timers
      and events in any number. Then steps of other threads. */
  datatype Step =
    | Take
    | Decide
    | Work(scheduled: seq<Task>, timers: nat, pending: nat)
    | Leave
    | Check
    | Poll(scheduled: seq<Task>, timers: nat, pending: nat)
    | OutsideSchedule(task: Task)
    | OutsideTimers(timers: nat)
    | OutsideEvents(pending: nat)
    | Stop

  const TID := 1

  /** The states of the fibers matter to `take` only if one executes; on a sole worker none does while
      it takes. */
  function TakeOne(tasks: seq<Task>): (Option<Task>, seq<Task>) {
    Schedulers.Take(tasks, TID, map[])
  }

  function Next(p: Pool, s: Step): Pool {
    match s
    case Take =>
      if p.pc != Top then p
      else
        var (r, rest) := TakeOne(p.tasks);
        p.(pc := Took(r), tasks := rest)
    case Decide =>
      if !p.pc.Took? then p
      else if p.idleDone then p.(pc := Done)
      else if p.pc.task.None? then p.(pc := ReadTimers)
      else p.(pc := Busy)
    case Work(ts, timers, pending) =>
      if p.pc != Busy then p else p.(tasks := PushAll(p.tasks, ts), timers := timers, pending := pending)
    case Leave =>
      if p.pc != Busy then p else p.(pc := Top)
    case Check =>
      match p.pc {
        case ReadTimers => p.(pc := if p.timers != 0 then Polling else ReadPending)
        case ReadPending => p.(pc := if p.pending != 0 then Polling else ReadTasks)
        case ReadTasks => if !p.running && p.tasks == [] then p.(pc := Top, idleDone := true) else p.(pc := Polling)
        case _ => p
      }
    case Poll(ts, timers, pending) =>
      if p.pc != Polling then p
      else p.(pc := Top, tasks := PushAll(p.tasks, ts), timers := timers, pending := pending)
    case OutsideSchedule(t) => if p.running then p.(tasks := Push(p.tasks, t)) else p
    case OutsideTimers(timers) => if p.running then p.(timers := timers) else p
    case OutsideEvents(pending) => if p.running then p.(pending := pending) else p
    case Stop => p.(running := false)
  }

  function Run(p: Pool, steps: seq<Step>): Pool
    decreases |steps|
  {
    if steps == [] then p else Run(Next(p, steps[0]), steps[1..])
  }

  function Start(tasks: seq<Task>, timers: nat, pending: nat): Pool {
    Pool(Top, true, tasks, timers, pending, false)
  }

  /** Once the idle fiber has finished nothing is scheduled any more, and the worker only takes once
      more, in vain, and leaves. */
  ghost predicate TasksDrained(p: Pool) {
    && (p.idleDone ==> !p.running && p.tasks == [] && (p.pc == Top || p.pc == Took(None) || p.pc == Done))
    && (p.pc == Done ==> p.idleDone)
  }

  /** What `canStop` has read stays true while it reads on. */
  ghost predicate AllDrained(p: Pool) {
    && TasksDrained(p)
    && (p.pc == ReadPending || p.pc == ReadTasks || p.idleDone ==> p.timers == 0)
    && (p.pc == ReadTasks || p.idleDone ==> p.pending == 0)
  }

  /** No other thread adds timers or events between the reads of `canStop`. */
  predicate Considerate(p: Pool, s: Step) {
    && (s.OutsideTimers? && (p.pc == ReadPending || p.pc == ReadTasks) ==> s.timers <= p.timers)
    && (s.OutsideEvents? && p.pc == ReadTasks ==> s.pending <= p.pending)
  }

  predicate AllConsiderate(p: Pool, steps: seq<Step>)
    decreases |steps|
  {
    steps == [] || (Considerate(p, steps[0]) && AllConsiderate(Next(p, steps[0]), steps[1..]))
  }

  lemma NextDrains(p: Pool, s: Step)
    ensures TasksDrained(p) ==> TasksDrained(Next(p, s))
    ensures AllDrained(p) && Considerate(p, s) ==> AllDrained(Next(p, s))
  {
    if s.Take? && p.idleDone && p.tasks == [] {
      assert TakeOne(p.tasks) == (None, []);
    }
  }

  lemma {:induction false} RunDrains(p: Pool, steps: seq<Step>)
    ensures TasksDrained(p) ==> TasksDrained(Run(p, steps))
    ensures AllDrained(p) && AllConsiderate(p, steps) ==> AllDrained(Run(p, steps))
    decreases |steps|
  {
    if steps != [] {
      NextDrains(p, steps[0]);
      RunDrains(Next(p, steps[0]), steps[1..]);
    }
  }

  /** Whatever other threads do before `stop`, and if they schedule nothing after it: `run` returns
      only with the task list empty, and the `take` before it returned nothing, so no task taken is
      dropped. */
  lemma ExitDrainsTasks(tasks: seq<Task>, timers: nat, pending: nat, steps: seq<Step>)
    ensures var p := Run(Start(tasks, timers, pending), steps);
            && (p.pc == Done ==> p.tasks == [] && !p.running)
            && (p.idleDone && p.pc.Took? ==> p.pc.task == None)
  {
    RunDrains(Start(tasks, timers, pending), steps);
  }

  /** The states in which `stop` comes too late: `canStop` has already read a zero that is not true any
      more, and nothing it has still to read will send it back to polling. */
  predicate Leaves(p: Pool) {
    || (p.pc == ReadPending && p.pending == 0 && p.tasks == [] && p.timers != 0)
    || (p.pc == ReadTasks && p.tasks == [] && (p.timers != 0 || p.pending != 0))
    || (p.idleDone && (p.timers != 0 || p.pending != 0))
  }

  /** Once stopped, only the worker acts, and `Leaves` does not change. */
  lemma NextLeaves(p: Pool, s: Step)
    requires !p.running && TasksDrained(p)
    ensures !Next(p, s).running && TasksDrained(Next(p, s)) && (Leaves(Next(p, s)) <==> Leaves(p))
  {
    NextDrains(p, s);
    if s.Take? && p.pc == Top {
      NothingToTake(p.tasks);
    }
  }

  lemma NothingToTake(tasks: seq<Task>)
    ensures tasks == [] ==> TakeOne(tasks) == (None, [])
  {
  }

  lemma {:induction false} RunLeaves(p: Pool, steps: seq<Step>)
    requires !p.running && TasksDrained(p)
    ensures TasksDrained(Run(p, steps)) && (Leaves(Run(p, steps)) <==> Leaves(p))
    decreases |steps|
  {
    if steps != [] {
      NextLeaves(p, steps[0]);
      RunLeaves(Next(p, steps[0]), steps[1..]);
    }
  }

  /** Exactly when shutdown drains timers and events: whatever other threads did before `stop`, `run`
      returns with none left if and only if the state that `stop` met was not one of those. */
  lemma ExitDrainsExactly(tasks: seq<Task>, timers: nat, pending: nat, before: seq<Step>, after: seq<Step>)
    ensures var p := Next(Run(Start(tasks, timers, pending), before), Stop);
            var q := Run(p, after);
            q.pc == Done ==> q.tasks == [] && (q.timers == 0 && q.pending == 0 <==> !Leaves(p))
  {
    var b := Run(Start(tasks, timers, pending), before);
    RunDrains(Start(tasks, timers, pending), before);
    NextDrains(b, Stop);
    RunLeaves(Next(b, Stop), after);
  }

  /** It returns with no timer and no pending event left as well, provided no other thread adds one
      between the reads of `canStop`. */
  lemma ExitDrainsAll(tasks: seq<Task>, timers: nat, pending: nat, steps: seq<Step>)
    requires AllConsiderate(Start(tasks, timers, pending), steps)
    ensures var p := Run(Start(tasks, timers, pending), steps);
            p.pc == Done ==> p.tasks == [] && p.timers == 0 && p.pending == 0 && !p.running
  {
    RunDrains(Start(tasks, timers, pending), steps);
  }

  /** The proviso is needed: a timer that another thread adds before it calls `stop`, but after
      `canStop` has read `timers_`, is still there when `run` returns. */
  lemma TimerBetweenReadsIsLost() returns (steps: seq<Step>)
    ensures var p := Run(Start([], 0, 0), steps); p.pc == Done && p.timers == 1
  {
    hide Run;
    assert TakeOne([]) == (None, []);
    var p := Pool(Took(None), false, [], 1, 0, true);
    var q := Pool(ReadTasks, false, [], 1, 0, false);
    var r := Pool(ReadPending, true, [], 0, 0, false);
    RunNothing(p.(pc := Done));
    steps := Prepend(p, Decide, [], p.(pc := Done));
    steps := Prepend(p.(pc := Top), Take, steps, p);
    steps := Prepend(q, Check, steps, p.(pc := Top));
    steps := Prepend(q.(pc := ReadPending), Check, steps, q);
    steps := Prepend(r.(timers := 1), Stop, steps, q.(pc := ReadPending));
    steps := Prepend(r, OutsideTimers(1), steps, r.(timers := 1));
    steps := Prepend(r.(pc := ReadTimers), Check, steps, r);
    steps := Prepend(r.(pc := Took(None)), Decide, steps, r.(pc := ReadTimers));
    steps := Prepend(Start([], 0, 0), Take, steps, r.(pc := Took(None)));
  }

  lemma RunNothing(p: Pool)
    ensures Run(p, []) == p
  {
  }

  // ----- what becomes of the tasks -----

  /** What was scheduled, what the worker took, and what it went on to work on, the last two as seen on
      its states; and how many timers and pending events were said to be there last. */
  datatype Record = Record(given: seq<Task>, taken: seq<Task>, worked: seq<Task>, timers: nat, pending: nat)

  function TimersSaid(p: Pool, s: Step, before: nat): nat {
    match s
    case Work(_, timers, _) => if p.pc == Busy then timers else before
    case Poll(_, timers, _) => if p.pc == Polling then timers else before
    case OutsideTimers(timers) => if p.running then timers else before
    case _ => before
  }

  function PendingSaid(p: Pool, s: Step, before: nat): nat {
    match s
    case Work(_, _, pending) => if p.pc == Busy then pending else before
    case Poll(_, _, pending) => if p.pc == Polling then pending else before
    case OutsideEvents(pending) => if p.running then pending else before
    case _ => before
  }

  /** The tasks that a step schedules, if it can happen. */
  function GivenBy(p: Pool, s: Step): seq<Task> {
    match s
    case Work(ts, _, _) => if p.pc == Busy then Kept(ts) else []
    case Poll(ts, _, _) => if p.pc == Polling then Kept(ts) else []
    case OutsideSchedule(t) => if p.running then Kept([t]) else []
    case _ => []
  }

  function Watch(p: Pool, s: Step, l: Record): Record {
    var q := Next(p, s);
    var l := l.(given := l.given + GivenBy(p, s), timers := TimersSaid(p, s, l.timers),
                pending := PendingSaid(p, s, l.pending));
    if p.pc == Top && q.pc.Took? && q.pc.task.Some? then l.(taken := l.taken + [q.pc.task.value])
    else if p.pc.Took? && p.pc.task.Some? && q.pc == Busy then l.(worked := l.worked + [p.pc.task.value])
    else l
  }

  function WatchRun(p: Pool, steps: seq<Step>, l: Record): Record
    decreases |steps|
  {
    if steps == [] then l else WatchRun(Next(p, steps[0]), steps[1..], Watch(p, steps[0], l))
  }

  /** Every task taken has been worked on, except one that the worker has only just taken; and every task
      scheduled is in the list or was taken. */
  ghost predicate AllWorked(p: Pool, l: Record) {
    && l.taken == l.worked + (if p.pc.Took? && p.pc.task.Some? then [p.pc.task.value] else [])
    && Balanced(p.tasks, l.taken, l.given)
    && p.timers == l.timers && p.pending == l.pending
  }

  ghost predicate Balanced(tasks: seq<Task>, taken: seq<Task>, given: seq<Task>) {
    multiset(tasks) + multiset(taken) == multiset(given)
  }

  lemma NextWorks(p: Pool, s: Step, l: Record)
    requires TasksDrained(p) && AllWorked(p, l)
    ensures AllWorked(Next(p, s), Watch(p, s, l))
  {
    hide Schedulers.Take, PushAll, Push, Kept, Balanced;
    assert l.given + [] == l.given;
    match s
    case Take =>
      if p.pc == Top {
        TakenOut(p.tasks, l.taken, l.given);
      }
    case Work(ts, _, _) => Scheduled(p.tasks, ts, l.taken, l.given);
    case Poll(ts, _, _) => Scheduled(p.tasks, ts, l.taken, l.given);
    case OutsideSchedule(t) =>
      Scheduled(p.tasks, [t], l.taken, l.given);
      OnePushed(p.tasks, t);
    case _ =>
  }

  lemma Scheduled(tasks: seq<Task>, ts: seq<Task>, taken: seq<Task>, given: seq<Task>)
    requires Balanced(tasks, taken, given)
    ensures Balanced(PushAll(tasks, ts), taken, given + Kept(ts))
  {
    PushAllAppends(tasks, ts);
    hide PushAll, Kept;
  }

  lemma OnePushed(tasks: seq<Task>, t: Task)
    ensures PushAll(tasks, [t]) == Push(tasks, t)
  {
    assert [t][1..] == [];
  }

  lemma TakenOut(tasks: seq<Task>, taken: seq<Task>, given: seq<Task>)
    requires Balanced(tasks, taken, given)
    ensures var (r, rest) := TakeOne(tasks);
            Balanced(rest, if r.Some? then taken + [r.value] else taken, given)
  {
    TakeExact(tasks, TID, map[]);
    hide Schedulers.Take;
    var (r, rest) := TakeOne(tasks);
    if r.Some? {
      var i :| 0 <= i < |tasks| && tasks[i] == r.value && rest == tasks[..i] + tasks[i + 1..];
      assert tasks == tasks[..i] + [tasks[i]] + tasks[i + 1..];
      assert multiset(tasks) == multiset(rest) + multiset{r.value};
    }
  }

  lemma {:induction false} RunWorks(p: Pool, steps: seq<Step>, l: Record)
    requires TasksDrained(p) && AllWorked(p, l)
    ensures AllWorked(Run(p, steps), WatchRun(p, steps, l))
    decreases |steps|
  {
    hide AllWorked, Next, Watch;
    if steps != [] {
      NextDrains(p, steps[0]);
      NextWorks(p, steps[0], l);
      RunWorks(Next(p, steps[0]), steps[1..], Watch(p, steps[0], l));
    }
  }

  /** Whatever happens, every task scheduled is in the list or was taken, and the worker works on what it
      takes, in that order. When it is out of `run`, it has worked on every task there was. */
  lemma EveryTaskIsWorked(tasks: seq<Task>, timers: nat, pending: nat, steps: seq<Step>)
    ensures var start := Start(tasks, timers, pending);
            var p, l := Run(start, steps), WatchRun(start, steps, Record(tasks, [], [], timers, pending));
            && AllWorked(p, l)
            && (p.pc == Done ==> l.taken == l.worked && multiset(l.worked) == multiset(l.given))
  {
    var start := Start(tasks, timers, pending);
    RunWorks(start, steps, Record(tasks, [], [], timers, pending));
    RunDrains(start, steps);
    hide Run, WatchRun;
  }

  /** Putting a step in front of a run. */
  lemma Prepend(p: Pool, s: Step, rest: seq<Step>, q: Pool) returns (steps: seq<Step>)
    requires Next(p, s) == q
    ensures Run(p, steps) == Run(q, rest)
  {
    steps := [s] + rest;
    assert steps[1..] == rest;
  }
}
