/** The task list of `easy/base/Scheduler.h` and `easy/base/Scheduler.cc`: scheduling, and `take`. */
module Schedulers {
  import opened Options

  datatype FiberState = INIT | READY | HOLD | EXEC | TERM | EXCEPT

  type FiberStates = map<nat, FiberState>

  /** `Task`; `id` is its identity. Thread -1 is any thread. */
  datatype Task = Task(id: nat, fiber: Option<nat>, cb: Option<nat>, threadId: int)

  predicate Executing(t: Task, states: FiberStates) {
    t.fiber.Some? && t.fiber.value in states && states[t.fiber.value] == EXEC
  }

  /** What `take` on thread `tid` accepts. */
  predicate Eligible(t: Task, tid: int, states: FiberStates) {
    (t.threadId == -1 || t.threadId == tid) && !Executing(t, states)
  }

  /** The first task that `take` accepts, or the number of tasks. */
  function First(tasks: seq<Task>, tid: int, states: FiberStates): (i: nat)
    ensures i <= |tasks|
  {
    if tasks == [] || Eligible(tasks[0], tid, states) then 0
    else 1 + First(tasks[1..], tid, states)
  }

  function Take(tasks: seq<Task>, tid: int, states: FiberStates): (Option<Task>, seq<Task>) {
    var i := First(tasks, tid, states);
    if i == |tasks| then (None, tasks) else (Some(tasks[i]), tasks[..i] + tasks[i + 1..])
  }

  /** `scheduleNonBlock` drops a task with neither fiber nor callback. */
  function Push(tasks: seq<Task>, t: Task): seq<Task> {
    if t.fiber.Some? || t.cb.Some? then tasks + [t] else tasks
  }

  function PushAll(tasks: seq<Task>, ts: seq<Task>): seq<Task>
    decreases |ts|
  {
    if ts == [] then tasks else PushAll(Push(tasks, ts[0]), ts[1..])
  }

  /** The tasks with a fiber or a callback, in order. */
  function Kept(ts: seq<Task>): (r: seq<Task>)
    ensures (forall t :: t in ts ==> t.fiber.Some? || t.cb.Some?) ==> r == ts
    ensures forall t :: t in r <==> t in ts && (t.fiber.Some? || t.cb.Some?)
  {
    if ts == [] then []
    else if ts[0].fiber.Some? || ts[0].cb.Some? then [ts[0]] + Kept(ts[1..])
    else Kept(ts[1..])
  }

  lemma {:induction false} PushAllAppends(tasks: seq<Task>, ts: seq<Task>)
    ensures PushAll(tasks, ts) == tasks + Kept(ts)
    decreases |ts|
  {
    if ts != [] {
      PushAllAppends(Push(tasks, ts[0]), ts[1..]);
    }
  }

  lemma {:induction false} FirstIsFirst(tasks: seq<Task>, tid: int, states: FiberStates)
    ensures var i := First(tasks, tid, states);
            && (i < |tasks| ==> Eligible(tasks[i], tid, states))
            && forall j :: 0 <= j < i ==> !Eligible(tasks[j], tid, states)
  {
    if tasks != [] && !Eligible(tasks[0], tid, states) {
      FirstIsFirst(tasks[1..], tid, states);
    }
  }

  lemma FirstIsUnique(tasks: seq<Task>, tid: int, states: FiberStates, i: nat)
    requires i <= |tasks| && forall j :: 0 <= j < i ==> !Eligible(tasks[j], tid, states)
    requires i < |tasks| ==> Eligible(tasks[i], tid, states)
    ensures i == First(tasks, tid, states)
  {
    FirstIsFirst(tasks, tid, states);
    var f := First(tasks, tid, states);
    assert f < |tasks| ==> Eligible(tasks[f], tid, states);
  }

  /** What `take` gives a thread is pinned to no other thread and not executing, what it skipped was,
      and everything else stays in order. */
  lemma TakeExact(tasks: seq<Task>, tid: int, states: FiberStates)
    ensures var (r, rest) := Take(tasks, tid, states);
            match r
            case None => rest == tasks && forall t :: t in tasks ==> !Eligible(t, tid, states)
            case Some(t) =>
              && (t.threadId == -1 || t.threadId == tid) && !Executing(t, states)
              && exists i :: && 0 <= i < |tasks| && tasks[i] == t && rest == tasks[..i] + tasks[i + 1..]
                             && forall j :: 0 <= j < i ==> !Eligible(tasks[j], tid, states)
  {
    FirstIsFirst(tasks, tid, states);
    var i := First(tasks, tid, states);
    if i < |tasks| {
      assert Take(tasks, tid, states) == (Some(tasks[i]), tasks[..i] + tasks[i + 1..]);
    }
  }

  class Scheduler {
    var tasks: seq<Task>

    constructor ()
      ensures tasks == []
    {
      tasks := [];
    }

    /** Returns whether a worker must be woken: the list was empty. */
    method ScheduleNonBlock(t: Task) returns (wake: bool)
      modifies this`tasks
      ensures tasks == (if t.fiber.None? && t.cb.None? then old(tasks) else old(tasks) + [t])
      ensures wake == (old(tasks) == [])
    {
      wake := tasks == [];
      if t.fiber.Some? || t.cb.Some? {
        tasks := tasks + [t];
      }
    }

    /** `schedule` over a range. */
    method Schedule(ts: seq<Task>) returns (wake: bool)
      modifies this`tasks
      ensures tasks == PushAll(old(tasks), ts) == old(tasks) + Kept(ts)
      ensures wake == (old(tasks) == [] && ts != [])
    {
      PushAllAppends(tasks, ts);
      hide Kept;
      wake := false;
      var i := 0;
      while i < |ts|
        invariant 0 <= i <= |ts|
        invariant PushAll(tasks, ts[i..]) == PushAll(old(tasks), ts)
        invariant i == 0 ==> tasks == old(tasks)
        invariant old(tasks) != [] ==> tasks != []
        invariant wake == (old(tasks) == [] && i > 0)
      {
        var w := ScheduleNonBlock(ts[i]);
        assert ts[i..][1..] == ts[i + 1..];
        wake := w || wake;
        i := i + 1;
      }
    }

    method TakeTask(tid: int, states: FiberStates) returns (r: Option<Task>)
      modifies this`tasks
      ensures (r, tasks) == Take(old(tasks), tid, states)
    {
      var cur := 0;
      while cur < |tasks|
        invariant 0 <= cur <= |tasks| && tasks == old(tasks)
        invariant forall j :: 0 <= j < cur ==> !Eligible(tasks[j], tid, states)
      {
        var task := tasks[cur];
        if task.threadId != -1 && task.threadId != tid {
          cur := cur + 1;
          continue;
        }
        if task.fiber.Some? && task.fiber.value in states && states[task.fiber.value] == EXEC {
          cur := cur + 1;
          continue;
        }
        FirstIsUnique(tasks, tid, states, cur);
        tasks := tasks[..cur] + tasks[cur + 1..];
        return Some(task);
      }
      FirstIsUnique(tasks, tid, states, cur);
      r := None;
    }
  }

  // ----- runs of the list -----

  datatype Op = Put(t: Task) | TakeBy(tid: int, states: FiberStates)

  /** The list and what was taken from it, in order. */
  datatype Log = Log(tasks: seq<Task>, taken: seq<Task>)

  function Next(l: Log, op: Op): Log {
    match op
    case Put(t) => l.(tasks := Push(l.tasks, t))
    case TakeBy(tid, states) =>
      var (r, rest) := Take(l.tasks, tid, states);
      Log(rest, if r.Some? then l.taken + [r.value] else l.taken)
  }

  function Run(l: Log, ops: seq<Op>): Log
    decreases |ops|
  {
    if ops == [] then l else Run(Next(l, ops[0]), ops[1..])
  }

  function Takes(ops: seq<Op>): nat {
    if ops == [] then 0 else (if ops[0].TakeBy? then 1 else 0) + Takes(ops[1..])
  }

  ghost predicate StaysRunnable(t: Task, ops: seq<Op>) {
    forall op :: op in ops && op.TakeBy? ==> !Executing(t, op.states)
  }

  lemma {:induction false} TakenGrows(l: Log, ops: seq<Op>)
    ensures l.taken <= Run(l, ops).taken
    decreases |ops|
  {
    if ops != [] {
      TakenGrows(Next(l, ops[0]), ops[1..]);
    }
  }

  /** Bounded bypass: an unpinned task with `k` tasks ahead of it, whose fiber is not executing at any
      of these calls, is taken within `k + 1` calls of `take`, by whichever workers, however many
      tasks are pushed in between. */
  lemma {:induction false} BoundedBypass(l: Log, k: nat, ops: seq<Op>)
    requires k < |l.tasks| && l.tasks[k].threadId == -1
    requires StaysRunnable(l.tasks[k], ops) && Takes(ops) > k
    ensures l.tasks[k] in Run(l, ops).taken
    decreases |ops|
  {
    var t, m := l.tasks[k], Next(l, ops[0]);
    assert forall op :: op in ops[1..] ==> op in ops;
    match ops[0]
    case Put(u) =>
      BoundedBypass(m, k, ops[1..]);
    case TakeBy(tid, states) =>
      assert ops[0] in ops;
      FirstIsFirst(l.tasks, tid, states);
      var i := First(l.tasks, tid, states);
      assert i <= k;
      if i == k {
        TakenGrows(m, ops[1..]);
        assert m.taken[|l.taken|] == t;
        assert Run(l, ops).taken[|l.taken|] == t;
      } else {
        assert m.tasks[k - 1] == t;
        BoundedBypass(m, k - 1, ops[1..]);
      }
  }

  function PushedBy(op: Op): seq<Task> {
    if op.Put? && (op.t.fiber.Some? || op.t.cb.Some?) then [op.t] else []
  }

  function Pushed(ops: seq<Op>): seq<Task> {
    if ops == [] then [] else PushedBy(ops[0]) + Pushed(ops[1..])
  }

  /** Every `take` finds the head of the list eligible, as when one worker may take every task. */
  ghost predicate HeadAlwaysEligible(l: Log, ops: seq<Op>)
    decreases |ops|
  {
    ops == [] ||
    (&& (ops[0].TakeBy? && l.tasks != [] ==> Eligible(l.tasks[0], ops[0].tid, ops[0].states))
     && HeadAlwaysEligible(Next(l, ops[0]), ops[1..]))
  }

  /** Such a worker takes the tasks in push order. */
  lemma {:induction false} TakenInPushOrder(l: Log, ops: seq<Op>)
    requires HeadAlwaysEligible(l, ops)
    ensures var r := Run(l, ops); r.taken + r.tasks == l.taken + l.tasks + Pushed(ops)
    decreases |ops|
  {
    hide Next, PushedBy;
    if ops != [] {
      TakenInPushOrder(Next(l, ops[0]), ops[1..]);
      HeadStep(l, ops[0]);
      Associate(l.taken + l.tasks, PushedBy(ops[0]), Pushed(ops[1..]));
    } else {
      assert l.taken + l.tasks + [] == l.taken + l.tasks;
    }
  }

  /** One worker takes, every task listed or pushed may run on it, and none of their fibers executes at
      any of its calls. */
  ghost predicate SoleWorker(tasks: seq<Task>, ops: seq<Op>, tid: int) {
    && (forall t :: t in tasks ==> Runnable(t, ops, tid))
    && (forall op :: op in ops ==> if op.Put? then Runnable(op.t, ops, tid) else op.tid == tid)
  }

  ghost predicate Runnable(t: Task, ops: seq<Op>, tid: int) {
    (t.threadId == -1 || t.threadId == tid) && StaysRunnable(t, ops)
  }

  lemma SoleWorkerStep(l: Log, ops: seq<Op>, tid: int)
    requires ops != [] && SoleWorker(l.tasks, ops, tid)
    ensures ops[0].TakeBy? && l.tasks != [] ==> Eligible(l.tasks[0], ops[0].tid, ops[0].states)
    ensures SoleWorker(Next(l, ops[0]).tasks, ops[1..], tid)
  {
    assert ops[0] in ops && forall op :: op in ops[1..] ==> op in ops;
    forall t | t in Next(l, ops[0]).tasks
      ensures Runnable(t, ops[1..], tid)
    {
      assert Runnable(t, ops, tid);
    }
    forall op | op in ops[1..] && op.Put?
      ensures Runnable(op.t, ops[1..], tid)
    {
      assert Runnable(op.t, ops, tid);
    }
    if l.tasks != [] {
      assert l.tasks[0] in l.tasks;
    }
  }

  lemma {:induction false} SoleWorkerHeads(l: Log, ops: seq<Op>, tid: int)
    requires SoleWorker(l.tasks, ops, tid)
    ensures HeadAlwaysEligible(l, ops)
    decreases |ops|
  {
    if ops != [] {
      SoleWorkerStep(l, ops, tid);
      SoleWorkerHeads(Next(l, ops[0]), ops[1..], tid);
    }
  }

  /** A sole worker with only tasks it may take takes them in push order. */
  lemma SoleWorkerTakesInOrder(l: Log, ops: seq<Op>, tid: int)
    requires SoleWorker(l.tasks, ops, tid)
    ensures var r := Run(l, ops); r.taken + r.tasks == l.taken + l.tasks + Pushed(ops)
  {
    SoleWorkerHeads(l, ops, tid);
    TakenInPushOrder(l, ops);
  }

  lemma HeadStep(l: Log, op: Op)
    requires op.TakeBy? && l.tasks != [] ==> Eligible(l.tasks[0], op.tid, op.states)
    ensures var m := Next(l, op); m.taken + m.tasks == l.taken + l.tasks + PushedBy(op)
  {
    match op
    case Put(t) =>
      assert Push(l.tasks, t) == l.tasks + Push([], t);
      Associate(l.taken, l.tasks, Push([], t));
    case TakeBy(tid, states) =>
      if l.tasks != [] {
        assert l.tasks[..0] + l.tasks[1..] == l.tasks[1..];
        assert l.tasks == [l.tasks[0]] + l.tasks[1..];
        Associate(l.taken, [l.tasks[0]], l.tasks[1..]);
      }
      assert l.taken + l.tasks + [] == l.taken + l.tasks;
  }

  lemma Associate<T>(a: seq<T>, b: seq<T>, c: seq<T>)
    ensures (a + b) + c == a + (b + c)
  {
  }

  /** No task is lost or duplicated by the list, whoever takes. */
  lemma {:induction false} TasksConserved(l: Log, ops: seq<Op>)
    ensures var r := Run(l, ops);
            multiset(r.taken + r.tasks) == multiset(l.taken + l.tasks + Pushed(ops))
    decreases |ops|
  {
    hide Next, PushedBy;
    if ops != [] {
      var m := Next(l, ops[0]);
      TasksConserved(m, ops[1..]);
      StepConserves(l, ops[0]);
      Associate(l.taken + l.tasks, PushedBy(ops[0]), Pushed(ops[1..]));
      SameExtension(m.taken + m.tasks, l.taken + l.tasks + PushedBy(ops[0]), Pushed(ops[1..]));
    } else {
      assert l.taken + l.tasks + [] == l.taken + l.tasks;
    }
  }

  lemma SameExtension<T>(a: seq<T>, b: seq<T>, c: seq<T>)
    requires multiset(a) == multiset(b)
    ensures multiset(a + c) == multiset(b + c)
  {
  }

  lemma StepConserves(l: Log, op: Op)
    ensures var m := Next(l, op);
            multiset(m.taken + m.tasks) == multiset(l.taken + l.tasks + PushedBy(op))
  {
    match op
    case Put(t) =>
      HeadStep(l, op);
    case TakeBy(tid, states) =>
      TakeStep(l, tid, states);
      hide Next, First;
      assert l.taken + l.tasks + [] == l.taken + l.tasks;
      var i := First(l.tasks, tid, states);
      if i < |l.tasks| {
        Extract(l.taken, l.tasks, i);
      }
  }

  lemma TakeStep(l: Log, tid: int, states: FiberStates)
    ensures var i := First(l.tasks, tid, states);
            Next(l, TakeBy(tid, states))
              == if i < |l.tasks| then Log(l.tasks[..i] + l.tasks[i + 1..], l.taken + [l.tasks[i]]) else l
  {
    hide First;
  }

  lemma Extract<T>(a: seq<T>, s: seq<T>, i: nat)
    requires i < |s|
    ensures multiset((a + [s[i]]) + (s[..i] + s[i + 1..])) == multiset(a + s)
  {
    assert s == s[..i] + [s[i]] + s[i + 1..];
  }
}
