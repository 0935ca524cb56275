/** Why a running fiber may ask for only one wake-up at a time: the second one makes a run possible in
    which a worker holds a task that it cannot resume. Together with `FiberRuns` this makes the
    discipline `OneWakeUp` exact. */
module Collisions {
  import opened Options
  import S = Schedulers
  import opened FiberRuns

  // ----- pinned tasks -----

  /** Only a fiber that has not started has a pinned task: wake-ups are scheduled for any thread. */
  ghost predicate PinnedIsNew(s: Sys) {
    forall i :: 0 <= i < |s.tasks| ==> s.tasks[i].fiber.Some? && s.tasks[i].threadId != -1 ==>
      s.tasks[i].fiber.value in s.states && s.states[s.tasks[i].fiber.value] == S.INIT
  }

  lemma PinnedKeeps(s: Sys, step: Step)
    requires Invariant(s) && PinnedIsNew(s) && Enabled(s, step)
    ensures PinnedIsNew(Next(s, step))
  {
    match step
    case TakeTask(_) => PinnedTake(s, step);
    case Resume(_) => PinnedResume(s, step);
    case Yield(_, _) => PinnedYield(s, step);
    case _ => hide Exclusive, OneToken;
  }

  lemma PinnedTake(s: Sys, step: Step)
    requires PinnedIsNew(s) && Enabled(s, step) && step.TakeTask?
    ensures PinnedIsNew(Next(s, step))
  {
    hide S.Take;
    S.TakeExact(s.tasks, step.w, s.states);
  }

  lemma PinnedResume(s: Sys, step: Step)
    requires Invariant(s) && PinnedIsNew(s) && Enabled(s, step) && step.Resume?
    ensures PinnedIsNew(Next(s, step))
  {
    hide Exclusive, QueuedOnce;
    var t := s.workers[step.w].task;
    assert t.fiber.Some? ==> !Queues(s.tasks, t.fiber.value) by {
      assert t.fiber.Some? ==> Holds(s, step.w, t.fiber.value);
    }
    hide OneToken;
  }

  lemma PinnedYield(s: Sys, step: Step)
    requires Invariant(s) && PinnedIsNew(s) && Enabled(s, step) && step.Yield?
    ensures PinnedIsNew(Next(s, step))
  {
    RunningExecutes(s, step.w);
    hide Exclusive, OneToken;
  }

  lemma RunningExecutes(s: Sys, w: int)
    requires Exclusive(s) && w in s.workers && s.workers[w].Running?
    ensures var f := s.workers[w].fiber;
            f in s.states && s.states[f] == S.EXEC && forall v :: v != w ==> !Runs(s, v, f)
  {
    assert Runs(s, w, s.workers[w].fiber);
  }

  // ----- counting wake-ups -----

  function Wakes(tasks: seq<S.Task>, f: nat): nat {
    if tasks == [] then 0 else (if tasks[0].fiber == Some(f) then 1 else 0) + Wakes(tasks[1..], f)
  }

  lemma {:induction false} WakesAppend(a: seq<S.Task>, b: seq<S.Task>, f: nat)
    ensures Wakes(a + b, f) == Wakes(a, f) + Wakes(b, f)
  {
    if a == [] {
      assert a + b == b;
    } else {
      assert (a + b)[1..] == a[1..] + b;
      WakesAppend(a[1..], b, f);
    }
  }

  lemma WakesRemoved(tasks: seq<S.Task>, i: nat, f: nat)
    requires i < |tasks|
    ensures Wakes(tasks[..i] + tasks[i + 1..], f)
         == Wakes(tasks, f) - (if tasks[i].fiber == Some(f) then 1 else 0)
  {
    WakesAppend(tasks[..i], tasks[i + 1..], f);
    WakesAppend(tasks[..i], tasks[i..], f);
    assert tasks == tasks[..i] + tasks[i..] && tasks[i..][1..] == tasks[i + 1..];
  }

  lemma {:induction false} WakesQueued(tasks: seq<S.Task>, f: nat)
    ensures Wakes(tasks, f) > 0 <==> Queues(tasks, f)
  {
    if tasks != [] {
      WakesQueued(tasks[1..], f);
      if Queues(tasks[1..], f) {
        var i :| 0 <= i < |tasks[1..]| && tasks[1..][i].fiber == Some(f);
        assert tasks[i + 1].fiber == Some(f);
      }
      if Queues(tasks, f) && tasks[0].fiber != Some(f) {
        var i :| 0 <= i < |tasks| && tasks[i].fiber == Some(f);
        assert tasks[1..][i - 1].fiber == Some(f);
      }
    }
  }

  // ----- runs -----

  lemma {:induction false} Append(s: Sys, a: seq<Step>, b: seq<Step>)
    requires Possible(s, a) && WakesOnce(s, a) && Possible(Run(s, a), b) && WakesOnce(Run(s, a), b)
    ensures Possible(s, a + b) && WakesOnce(s, a + b) && Run(s, a + b) == Run(Run(s, a), b)
    decreases |a|
  {
    hide Next, Enabled, OneWakeUp;
    if a == [] {
      assert a + b == b;
    } else {
      assert (a + b)[1..] == a[1..] + b;
      Append(Next(s, a[0]), a[1..], b);
    }
  }

  lemma One(s: Sys, step: Step)
    requires Enabled(s, step) && OneWakeUp(s, step)
    ensures Possible(s, [step]) && WakesOnce(s, [step]) && Run(s, [step]) == Next(s, step)
  {
    assert [step][1..] == [];
  }

  /** Fiber `f` is suspended, every task in the list can be resumed once no worker executes its fiber,
      and the wake-ups of `f` can be taken by any thread. */
  ghost predicate Suspended(s: Sys, f: nat) {
    && f in s.states && (s.states[f] == S.HOLD || s.states[f] == S.READY)
    && Listed(s, f)
  }

  ghost predicate Listed(s: Sys, f: nat) {
    && (forall g :: g in s.states ==> g < s.spare)
    && (forall i :: 0 <= i < |s.tasks| ==> s.tasks[i].fiber.Some? ==> s.tasks[i].fiber.value in s.states)
    && (forall i :: 0 <= i < |s.tasks| ==> s.tasks[i].fiber == Some(f) ==> s.tasks[i].threadId == -1)
  }

  /** Nothing but this worker and the states of other fibers has changed. */
  ghost predicate Apart(s: Sys, t: Sys, w: int, f: nat) {
    && w in s.workers && w in t.workers && t.workers == s.workers[w := t.workers[w]]
    && t.parked == s.parked
    && Suspended(t, f)
  }

  /** A worker that has nothing to do with `f` can be brought to look for a task again. */
  lemma FreeWorker(s: Sys, w: int, f: nat) returns (steps: seq<Step>)
    requires Suspended(s, f) && w in s.workers && !Runs(s, w, f) && !Holds(s, w, f)
    requires s.workers[w].Holding? ==> Enabled(s, Resume(w))
    requires s.workers[w].Running? ==> s.workers[w].fiber in s.states
    ensures Possible(s, steps) && WakesOnce(s, steps)
    ensures var t := Run(s, steps); Apart(s, t, w, f) && t.workers[w] == Free && t.tasks == s.tasks
  {
    hide Possible, WakesOnce, Run;
    NoSteps(s);
    if s.workers[w].Free? {
      steps := [];
      assert s.workers[w := Free] == s.workers;
    } else if s.workers[w].Running? {
      steps := [Yield(w, S.HOLD)];
      One(s, Yield(w, S.HOLD));
    } else {
      var t := Next(s, Resume(w));
      One(s, Resume(w));
      if t.workers[w].Running? {
        One(t, Yield(w, S.HOLD));
        Append(s, [Resume(w)], [Yield(w, S.HOLD)]);
        steps := [Resume(w)] + [Yield(w, S.HOLD)];
        assert t.workers[w := Free] == s.workers[w := Free];
      } else {
        steps := [Resume(w)];
      }
    }
  }

  /** What a free worker takes while a wake-up of `f` is in the list. */
  lemma TakesSome(s: Sys, w: int, f: nat) returns (i: nat)
    requires Suspended(s, f) && w in s.workers && s.workers[w].Free? && Wakes(s.tasks, f) > 0
    ensures i < |s.tasks| && !S.Executing(s.tasks[i], s.states)
    ensures Enabled(s, TakeTask(w)) && Next(s, TakeTask(w)) == Held(s, w, i)
  {
    hide S.Take;
    WakesQueued(s.tasks, f);
    var j :| 0 <= j < |s.tasks| && s.tasks[j].fiber == Some(f);
    assert s.tasks[j] in s.tasks && S.Eligible(s.tasks[j], w, s.states);
    S.TakeExact(s.tasks, w, s.states);
    var (r, rest) := S.Take(s.tasks, w, s.states);
    i :| 0 <= i < |s.tasks| && s.tasks[i] == r.value && rest == s.tasks[..i] + s.tasks[i + 1..];
  }

  /** Taking a task keeps `f` suspended. */
  lemma HeldApart(s: Sys, w: int, f: nat, i: nat)
    requires Suspended(s, f) && w in s.workers && i < |s.tasks| && !S.Executing(s.tasks[i], s.states)
    ensures var t := Held(s, w, i);
            && Apart(s, t, w, f)
            && Wakes(t.tasks, f) == Wakes(s.tasks, f) - (if s.tasks[i].fiber == Some(f) then 1 else 0)
            && |t.tasks| < |s.tasks|
            && (Holds(t, w, f) <==> s.tasks[i].fiber == Some(f))
            && t.workers[w].Holding? && Enabled(t, Resume(w))
  {
    WakesRemoved(s.tasks, i, f);
    var t := Held(s, w, i);
    assert forall j :: 0 <= j < |t.tasks| ==> t.tasks[j] == s.tasks[if j < i then j else j + 1];
    assert s.tasks[i].fiber.Some? ==> s.tasks[i].fiber.value in s.states;
  }

  /** A free worker can pass every task ahead of a wake-up of `f` through, and take that one. */
  lemma {:induction false} Drain(s: Sys, w: int, f: nat) returns (steps: seq<Step>)
    requires Suspended(s, f) && w in s.workers && s.workers[w].Free? && Wakes(s.tasks, f) > 0
    ensures Possible(s, steps) && WakesOnce(s, steps)
    ensures var t := Run(s, steps); Apart(s, t, w, f) && Holds(t, w, f) && Wakes(t.tasks, f) == Wakes(s.tasks, f) - 1
    decreases |s.tasks|
  {
    hide Possible, WakesOnce, Run, Next, Suspended, Enabled;
    var i := TakesSome(s, w, f);
    var t := Held(s, w, i);
    HeldApart(s, w, f, i);
    Taking(s, w);
    One(s, TakeTask(w));
    steps := [TakeTask(w)];
    if s.tasks[i].fiber != Some(f) {
      var pass := FreeWorker(t, w, f);
      var u := Run(t, pass);
      var rest := Drain(u, w, f);
      Append(t, pass, rest);
      Append(s, steps, pass + rest);
      steps := steps + (pass + rest);
    }
  }

  lemma Taking(s: Sys, w: int)
    ensures Enabled(s, TakeTask(w)) ==> OneWakeUp(s, TakeTask(w))
  {
  }

  /** All registrations of `f` fire. */
  lemma {:induction false} FireAll(s: Sys, f: nat) returns (steps: seq<Step>)
    requires f in s.states && Listed(s, f)
    ensures Possible(s, steps) && WakesOnce(s, steps)
    ensures var t := Run(s, steps);
            && t.workers == s.workers && t.states == s.states && Listed(t, f)
            && Wakes(t.tasks, f) == Wakes(s.tasks, f) + s.parked[f]
    decreases s.parked[f]
  {
    hide Possible, WakesOnce, Run;
    NoSteps(s);
    steps := [];
    if s.parked[f] > 0 {
      var t := Next(s, Fire(f));
      One(s, Fire(f));
      var wake := S.Task(s.spare, Some(f), None, -1);
      assert t.tasks == s.tasks + [wake];
      WakesAppend(s.tasks, [wake], f);
      assert Wakes([wake], f) == 1;
      assert t.parked[f] == s.parked[f] - 1;
      var rest := FireAll(t, f);
      Append(s, [Fire(f)], rest);
      steps := [Fire(f)] + rest;
    }
  }

  // ----- the collision -----

  /** No worker is stuck with a task: the assertion of `sched_resume` would hold. */
  ghost predicate Resumable(s: Sys) {
    forall w :: w in s.workers && s.workers[w].Holding? ==> Enabled(s, Resume(w))
  }

  lemma HeldIsIdle(s: Sys, f: nat)
    requires Invariant(s) && f in s.states && s.states[f] == S.EXEC
    ensures forall w :: !Holds(s, w, f)
  {
  }

  /** Asking again leaves two wake-ups. */
  lemma TwoTokens(s: Sys, step: Step)
    requires Invariant(s) && PinnedIsNew(s) && Enabled(s, step) && !OneWakeUp(s, step)
    ensures var f, t := s.workers[step.w].fiber, Next(s, step);
            && f in t.states && Listed(t, f)
            && Wakes(t.tasks, f) + t.parked[f] >= 2
            && t.workers == (if step.Yield? then s.workers[step.w := Free] else s.workers)
            && t.states == (if step.Yield? then s.states[f := S.READY] else s.states)
  {
    var f, t := s.workers[step.w].fiber, Next(s, step);
    RunningExecutes(s, step.w);
    HeldIsIdle(s, f);
    WakesQueued(s.tasks, f);
    assert s.parked[f] > 0 || Wakes(s.tasks, f) > 0;
    hide Exclusive, OneToken;
    if step.Yield? {
      var wake := S.Task(s.spare, Some(f), None, -1);
      assert t.tasks == s.tasks + [wake];
      WakesAppend(s.tasks, [wake], f);
      assert Wakes([wake], f) == 1;
    }
  }

  /** With the fiber suspended, two wake-ups in the list and two free workers, both take one, one resumes
      the fiber, and the other cannot. */
  lemma BothTake(s: Sys, v: int, w: int, f: nat) returns (steps: seq<Step>)
    requires Suspended(s, f) && Wakes(s.tasks, f) >= 2 && v != w
    requires v in s.workers && w in s.workers && s.workers[v].Free? && s.workers[w].Free?
    ensures Possible(s, steps) && WakesOnce(s, steps) && !Resumable(Run(s, steps))
  {
    hide Possible, WakesOnce, Run, Wakes;
    var a := Drain(s, w, f);
    var t := Run(s, a);
    var b := Drain(t, v, f);
    var u := Run(t, b);
    One(u, Resume(w));
    Append(t, b, [Resume(w)]);
    Append(s, a, b + [Resume(w)]);
    steps := a + (b + [Resume(w)]);
    var r := Next(u, Resume(w));
    assert Holds(r, v, f) && r.states[f] == S.EXEC;
    assert !Enabled(r, Resume(v));
  }

  /** A running fiber that asks for a second wake-up makes the failure reachable, if there is a second
      worker. */
  lemma SecondWakeUpFails(s: Sys, step: Step, v: int) returns (steps: seq<Step>)
    requires Invariant(s) && PinnedIsNew(s) && Enabled(s, step) && !OneWakeUp(s, step)
    requires v in s.workers && v != step.w
    ensures var t := Next(s, step);
            Possible(t, steps) && WakesOnce(t, steps) && !Resumable(Run(t, steps))
  {
    hide Possible, WakesOnce, Run, Wakes, Known, OneToken;
    var w, f, t := step.w, s.workers[step.w].fiber, Next(s, step);
    TwoTokens(s, step);
    RunningExecutes(s, w);
    OthersResumable(s, v, w);
    hide Invariant, PinnedIsNew, Exclusive;
    var fire := FireAll(t, f);
    var u := Run(t, fire);
    var stops := Stop(u, w, f);
    var x := Run(u, stops);
    assert x.workers[v] == s.workers[v];
    var frees := FreeWorker(x, v, f);
    var y := Run(x, frees);
    var takes := BothTake(y, v, w, f);
    Append(x, frees, takes);
    Append(u, stops, frees + takes);
    Append(t, fire, stops + (frees + takes));
    steps := fire + (stops + (frees + takes));
  }

  lemma OthersResumable(s: Sys, v: int, w: int)
    requires Invariant(s) && v in s.workers && w in s.workers && s.workers[w].Running?
    ensures s.workers[v].Holding? ==> Enabled(s, Resume(v)) && !Holds(s, v, s.workers[w].fiber)
    ensures v != w ==> s.workers[v] != Running(s.workers[w].fiber)
    ensures s.workers[v].Running? ==> s.workers[v].fiber in s.states
  {
    assert s.workers[v].Running? ==> Runs(s, v, s.workers[v].fiber);
    RunningExecutes(s, w);
    if s.workers[v].Holding? && s.workers[v].task.fiber.Some? {
      assert Holds(s, v, s.workers[v].task.fiber.value);
    }
  }

  /** The fiber gives up its worker, if it has not done so. */
  lemma Stop(s: Sys, w: int, f: nat) returns (steps: seq<Step>)
    requires w in s.workers && f in s.states && Listed(s, f)
    requires s.workers[w] == Running(f) || (s.workers[w] == Free && s.states[f] == S.READY)
    ensures Possible(s, steps) && WakesOnce(s, steps)
    ensures var t := Run(s, steps);
            && Suspended(t, f) && t.workers == s.workers[w := Free] && t.tasks == s.tasks
            && forall g :: g in s.states && g != f ==> g in t.states && t.states[g] == s.states[g]
  {
    if s.workers[w].Running? {
      One(s, Yield(w, S.HOLD));
      steps := [Yield(w, S.HOLD)];
    } else {
      NoSteps(s);
      steps := [];
      assert s.workers[w := Free] == s.workers;
    }
  }

  // ----- the discipline is exact -----

  /** Whatever happens from here on, with every fiber asking for one wake-up at a time. */
  ghost predicate AlwaysResumable(s: Sys) {
    forall steps :: Possible(s, steps) && WakesOnce(s, steps) ==> Resumable(Run(s, steps))
  }

  lemma InvariantResumable(s: Sys)
    requires Invariant(s)
    ensures Resumable(s)
  {
    forall w | w in s.workers && s.workers[w].Holding?
      ensures Enabled(s, Resume(w))
    {
      if s.workers[w].task.fiber.Some? {
        assert Holds(s, w, s.workers[w].task.fiber.value);
      }
    }
  }

  lemma StepIsSafeIffOneWakeUp(s: Sys, step: Step)
    requires Invariant(s) && PinnedIsNew(s) && Enabled(s, step) && |s.workers.Keys| >= 2
    ensures OneWakeUp(s, step) <==> AlwaysResumable(Next(s, step))
  {
    hide Invariant, PinnedIsNew, Enabled, OneWakeUp, Next, Resumable;
    var t := Next(s, step);
    if OneWakeUp(s, step) {
      NextKeeps(s, step);
      forall steps | Possible(t, steps) && WakesOnce(t, steps)
        ensures Resumable(Run(t, steps))
      {
        RunKeeps(t, steps);
        InvariantResumable(Run(t, steps));
      }
    } else {
      AsksAgain(s, step);
      var v := Another(s.workers.Keys, step.w);
      var steps := SecondWakeUpFails(s, step, v);
    }
  }

  lemma AsksAgain(s: Sys, step: Step)
    requires Enabled(s, step) && !OneWakeUp(s, step)
    ensures step.Register? || step.Yield?
  {
  }

  lemma Another(ws: set<int>, w: int) returns (v: int)
    requires |ws| >= 2
    ensures v in ws && v != w
  {
    CardinalitySubset(ws, w);
    v :| v in ws && v != w;
  }

  lemma CardinalitySubset(ws: set<int>, w: int)
    ensures |ws| <= 1 || exists v :: v in ws && v != w
  {
    if forall v :: v in ws ==> v == w {
      assert ws == if w in ws then {w} else {};
    }
  }

  lemma {:induction false} RunStays(s: Sys, steps: seq<Step>)
    requires Invariant(s) && PinnedIsNew(s) && Possible(s, steps) && WakesOnce(s, steps)
    ensures var t := Run(s, steps); Invariant(t) && PinnedIsNew(t) && t.workers.Keys == s.workers.Keys
    decreases |steps|
  {
    hide Invariant, PinnedIsNew, Enabled, OneWakeUp, Next;
    if steps != [] {
      NextKeeps(s, steps[0]);
      PinnedKeeps(s, steps[0]);
      SameWorkers(s, steps[0]);
      RunStays(Next(s, steps[0]), steps[1..]);
    }
  }

  lemma SameWorkers(s: Sys, step: Step)
    requires Enabled(s, step)
    ensures Next(s, step).workers.Keys == s.workers.Keys
  {
    hide S.Take;
  }

  /** In every state that two or more workers reach while every fiber asks for one wake-up at a time, a
      further step is safe, in all its continuations of that kind, if and only if it does so too. */
  lemma OneWakeUpIsExact(workers: set<int>, steps: seq<Step>, step: Step)
    requires |workers| >= 2 && Possible(Start(workers), steps) && WakesOnce(Start(workers), steps)
    requires Enabled(Run(Start(workers), steps), step)
    ensures var s := Run(Start(workers), steps);
            OneWakeUp(s, step) <==> AlwaysResumable(Next(s, step))
  {
    hide Run, Possible, WakesOnce, Next, Enabled, OneWakeUp, AlwaysResumable;
    assert Start(workers).workers.Keys == workers;
    RunStays(Start(workers), steps);
    StepIsSafeIffOneWakeUp(Run(Start(workers), steps), step);
  }
}
