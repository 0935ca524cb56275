/** Nothing asked of the scheduler is lost: a ledger of the callbacks and fibers that were scheduled and
    of what the workers were then seen to do with them (`easy/base/Scheduler.cc`). It holds for all
    programs, also for those that ask for several wake-ups. */
module FiberLogs {
  import opened Options
  import S = Schedulers
  import opened FiberRuns

  /** What a task stands for. */
  datatype Item = Cb(cb: nat) | Fib(fiber: nat)

  function Items(t: S.Task): multiset<Item> {
    (if t.cb.Some? then multiset{Cb(t.cb.value)} else multiset{})
    + (if t.fiber.Some? then multiset{Fib(t.fiber.value)} else multiset{})
  }

  function Listed(tasks: seq<S.Task>): multiset<Item> {
    if tasks == [] then multiset{} else Items(tasks[0]) + Listed(tasks[1..])
  }

  /** The workers that hold a task for this. */
  function Holders(s: Sys, x: Item): set<int> {
    set w | w in s.workers && s.workers[w].Holding? && x in Items(s.workers[w].task)
  }

  /** What was asked for, what was seen to start, what was found to have ended, and the fibers that have
      ended: those that yielded as terminated or with an exception. */
  datatype Ledger = Ledger(asked: multiset<Item>, started: multiset<Item>, over: multiset<Item>, ended: set<nat>)

  function Asked(s: Sys, step: Step): multiset<Item>
    requires Enabled(s, step)
  {
    match step
    case Post(cb, _) => multiset{Cb(cb)}
    case Spawn(_) => multiset{Fib(s.spare)}
    case Fire(f) => multiset{Fib(f)}
    case Yield(w, how) => if how == S.READY then multiset{Fib(s.workers[w].fiber)} else multiset{}
    case _ => multiset{}
  }

  /** A worker that held a task is now seen to execute it: a callback on a fiber that did not exist
      before, a fiber that had not ended itself. */
  ghost predicate Starts(s: Sys, t: Sys, w: int, ended: set<nat>)
    requires w in s.workers && s.workers[w].Holding?
  {
    var task := s.workers[w].task;
    && w in t.workers && t.workers[w].Running?
    && var f := t.workers[w].fiber;
       && f in t.states && t.states[f] == S.EXEC
       && (if task.cb.Some? then f !in s.states else task.fiber == Some(f) && f !in ended)
  }

  /** Or it has put the task away, because the fiber had ended. */
  ghost predicate PutsAway(s: Sys, t: Sys, w: int, ended: set<nat>)
    requires w in s.workers && s.workers[w].Holding?
  {
    var task := s.workers[w].task;
    w in t.workers && t.workers[w].Free? && task.fiber.Some? && task.fiber.value in ended
  }

  ghost function Note(s: Sys, step: Step, l: Ledger): Ledger
    requires Enabled(s, step)
  {
    var t := Next(s, step);
    var l := l.(asked := l.asked + Asked(s, step));
    match step
    case Resume(w) =>
      if Starts(s, t, w, l.ended) then l.(started := l.started + Items(s.workers[w].task))
      else if PutsAway(s, t, w, l.ended) then l.(over := l.over + Items(s.workers[w].task))
      else l
    case Yield(w, how) =>
      if how == S.TERM || how == S.EXCEPT then l.(ended := l.ended + {s.workers[w].fiber}) else l
    case _ => l
  }

  /** Everything asked for is listed, held by one worker, started, or found to have ended. */
  ghost predicate Conserved(s: Sys, l: Ledger) {
    forall x :: l.asked[x] == Listed(s.tasks)[x] + |Holders(s, x)| + l.started[x] + l.over[x]
  }

  /** Tasks have one item, executing fibers exist and execute on one worker, and exactly the fibers that
      have ended are in a final state. */
  ghost predicate Sane(s: Sys, ended: set<nat>) {
    Exclusive(s) && Kinds(s) && Final(s, ended)
  }

  ghost predicate Kinds(s: Sys) {
    && (forall f :: f in s.states ==> f < s.spare)
    && (forall i :: 0 <= i < |s.tasks| ==> OneKind(s.tasks[i]))
    && (forall w :: w in s.workers && s.workers[w].Holding? ==> OneKind(s.workers[w].task))
  }

  ghost predicate Final(s: Sys, ended: set<nat>) {
    forall f :: f in ended <==> f in s.states && (s.states[f] == S.TERM || s.states[f] == S.EXCEPT)
  }

  // ----- sanity -----

  lemma NextSane(s: Sys, step: Step, l: Ledger)
    requires Sane(s, l.ended) && Enabled(s, step)
    ensures Sane(Next(s, step), Note(s, step, l).ended)
  {
    hide *;
    match step
    case TakeTask(_) => TakeSane(s, step, l);
    case Resume(_) => ResumeSane(s, step, l);
    case Yield(_, _) => YieldSane(s, step, l);
    case _ => OtherSane(s, step, l);
  }

  lemma OtherSane(s: Sys, step: Step, l: Ledger)
    requires Sane(s, l.ended) && Enabled(s, step) && !step.TakeTask? && !step.Resume? && !step.Yield?
    ensures Sane(Next(s, step), Note(s, step, l).ended)
  {
    var t := Next(s, step);
    SameExclusive(s, t);
    OtherKinds(s, step);
    SameFinal(s, t, l.ended);
    hide Exclusive, Kinds, Final, Next, Enabled;
  }

  lemma OtherKinds(s: Sys, step: Step)
    requires Kinds(s) && Enabled(s, step) && !step.TakeTask? && !step.Resume? && !step.Yield?
    ensures Kinds(Next(s, step))
  {
    hide S.Take;
  }

  lemma SameFinal(s: Sys, t: Sys, ended: set<nat>)
    requires Final(s, ended)
    requires forall f :: f in s.states ==> f in t.states && t.states[f] == s.states[f]
    requires forall f :: f in t.states && f !in s.states ==> t.states[f] == S.INIT
    ensures Final(t, ended)
  {
  }

  lemma SameExclusive(s: Sys, t: Sys)
    requires Exclusive(s) && t.workers == s.workers
    requires forall f :: f in s.states ==> f in t.states && t.states[f] == s.states[f]
    ensures Exclusive(t)
  {
    assert forall w, f :: Runs(t, w, f) <==> Runs(s, w, f);
  }

  lemma TakeSane(s: Sys, step: Step, l: Ledger)
    requires Sane(s, l.ended) && Enabled(s, step) && step.TakeTask?
    ensures Sane(Next(s, step), Note(s, step, l).ended)
  {
    hide S.Take;
    S.TakeExact(s.tasks, step.w, s.states);
    var t := Next(s, step);
    assert forall w, f :: Runs(t, w, f) ==> Runs(s, w, f);
    assert forall i :: 0 <= i < |t.tasks| ==> t.tasks[i] in s.tasks;
  }

  lemma ResumeSane(s: Sys, step: Step, l: Ledger)
    requires Sane(s, l.ended) && Enabled(s, step) && step.Resume?
    ensures Sane(Next(s, step), Note(s, step, l).ended)
  {
    hide Starts, PutsAway, Items;
    var t := Next(s, step);
    assert forall v, f :: v != step.w ==> (Runs(t, v, f) <==> Runs(s, v, f));
  }

  lemma YieldSane(s: Sys, step: Step, l: Ledger)
    requires Sane(s, l.ended) && Enabled(s, step) && step.Yield?
    ensures Sane(Next(s, step), Note(s, step, l).ended)
  {
    var t := Next(s, step);
    assert Runs(s, step.w, s.workers[step.w].fiber);
    assert forall v, g :: Runs(t, v, g) <==> v != step.w && Runs(s, v, g);
  }

  // ----- conservation -----

  lemma {:induction false} ListedAppend(a: seq<S.Task>, b: seq<S.Task>)
    ensures Listed(a + b) == Listed(a) + Listed(b)
  {
    hide Items;
    if a == [] {
      assert a + b == b;
    } else {
      assert (a + b)[1..] == a[1..] + b;
      ListedAppend(a[1..], b);
    }
  }

  lemma ListedOne(t: S.Task)
    ensures Listed([t]) == Items(t)
  {
    hide Items;
    assert [t][1..] == [];
  }

  /** A task more in the list, and nothing else changed as far as the ledger can see. */
  lemma PostConserves(s: Sys, step: Step, l: Ledger)
    requires Sane(s, l.ended) && Conserved(s, l) && Enabled(s, step)
    requires !step.TakeTask? && !step.Resume?
    ensures Conserved(Next(s, step), Note(s, step, l))
  {
    var t, m := Next(s, step), Note(s, step, l);
    assert m.asked == l.asked + Asked(s, step) && m.started == l.started && m.over == l.over;
    Posted(s, step);
    hide Sane, Next, Note;
    forall x
      ensures m.asked[x] == Listed(t.tasks)[x] + |Holders(t, x)| + m.started[x] + m.over[x]
    {
      assert Holders(t, x) == Holders(s, x);
      assert l.asked[x] == Listed(s.tasks)[x] + |Holders(s, x)| + l.started[x] + l.over[x];
    }
  }

  lemma Posted(s: Sys, step: Step)
    requires Enabled(s, step) && !step.TakeTask? && !step.Resume?
    ensures var t := Next(s, step);
            && Listed(t.tasks) == Listed(s.tasks) + Asked(s, step)
            && forall x :: Holders(t, x) == Holders(s, x)
  {
    PostedHolders(s, step);
    hide Listed, Holders, Items, S.Push;
    var t := Next(s, step);
    match step
    case Post(cb, threadId) => PostedTask(s.tasks, S.Task(s.spare, None, Some(cb), threadId));
    case Spawn(threadId) => PostedTask(s.tasks, S.Task(s.spare, Some(s.spare), None, threadId));
    case Fire(f) => PostedTask(s.tasks, S.Task(s.spare, Some(f), None, -1));
    case Yield(w, _) => PostedTask(s.tasks, S.Task(s.spare, Some(s.workers[w].fiber), None, -1));
    case _ =>
  }

  lemma PostedTask(tasks: seq<S.Task>, t: S.Task)
    requires OneKind(t)
    ensures Listed(S.Push(tasks, t))
         == Listed(tasks) + if t.cb.Some? then multiset{Cb(t.cb.value)} else multiset{Fib(t.fiber.value)}
  {
    ListedAppend(tasks, [t]);
    ListedOne(t);
    hide Listed;
  }

  lemma PostedHolders(s: Sys, step: Step)
    requires Enabled(s, step) && !step.TakeTask? && !step.Resume?
    ensures forall x :: Holders(Next(s, step), x) == Holders(s, x)
  {
    hide Items, S.Take, S.Push;
    forall x
      ensures Holders(Next(s, step), x) == Holders(s, x)
    {
    }
  }

  lemma ListedRemoved(tasks: seq<S.Task>, i: nat)
    requires i < |tasks|
    ensures Listed(tasks) == Listed(tasks[..i] + tasks[i + 1..]) + Items(tasks[i])
  {
    hide Listed, Items;
    assert tasks == tasks[..i] + ([tasks[i]] + tasks[i + 1..]);
    ListedAppend(tasks[..i], [tasks[i]] + tasks[i + 1..]);
    ListedAppend([tasks[i]], tasks[i + 1..]);
    ListedAppend(tasks[..i], tasks[i + 1..]);
    ListedOne(tasks[i]);
  }

  lemma TakeConserves(s: Sys, step: Step, l: Ledger)
    requires Sane(s, l.ended) && Conserved(s, l) && Enabled(s, step) && step.TakeTask?
    ensures Conserved(Next(s, step), Note(s, step, l))
  {
    var w, t := step.w, Next(s, step);
    var m := Note(s, step, l);
    assert m == l.(asked := l.asked + multiset{});
    var (r, rest) := S.Take(s.tasks, w, s.states);
    if r.Some? {
      TakenTask(s, w);
      HolderMore(s, t, w, r.value);
      hide Sane, Next, Note, Items, Holders, Listed, S.Take;
      forall x
        ensures m.asked[x] == Listed(t.tasks)[x] + |Holders(t, x)| + m.started[x] + m.over[x]
      {
        assert l.asked[x] == Listed(s.tasks)[x] + |Holders(s, x)| + l.started[x] + l.over[x];
      }
    } else {
      hide S.Take, Sane;
      assert t == s && m == l;
    }
  }

  lemma TakenTask(s: Sys, w: int)
    requires forall i :: 0 <= i < |s.tasks| ==> OneKind(s.tasks[i])
    ensures var (r, rest) := S.Take(s.tasks, w, s.states);
            r.Some? ==> OneKind(r.value) && Listed(s.tasks) == Listed(rest) + Items(r.value)
  {
    S.TakeExact(s.tasks, w, s.states);
    hide S.Take, Listed, Items;
    var (r, rest) := S.Take(s.tasks, w, s.states);
    if r.Some? {
      var i :| 0 <= i < |s.tasks| && s.tasks[i] == r.value && rest == s.tasks[..i] + s.tasks[i + 1..];
      ListedRemoved(s.tasks, i);
    }
  }

  /** One more holder of each item of a task. */
  lemma HolderMore(s: Sys, t: Sys, w: int, task: S.Task)
    requires w in s.workers && s.workers[w].Free? && OneKind(task)
    requires t.workers == s.workers[w := Holding(task)]
    ensures forall x :: |Holders(t, x)| == |Holders(s, x)| + Items(task)[x]
  {
    forall x
      ensures |Holders(t, x)| == |Holders(s, x)| + Items(task)[x]
    {
      OneItem(task, x);
      assert w !in Holders(s, x);
      assert Holders(t, x) == Holders(s, x) + if x in Items(task) then {w} else {};
    }
  }

  lemma OneItem(task: S.Task, x: Item)
    requires OneKind(task)
    ensures Items(task)[x] == if x in Items(task) then 1 else 0
  {
  }

  lemma HolderLess(s: Sys, t: Sys, w: int)
    requires w in s.workers && s.workers[w].Holding? && OneKind(s.workers[w].task)
    requires w in t.workers && !t.workers[w].Holding? && t.workers == s.workers[w := t.workers[w]]
    ensures forall x :: |Holders(s, x)| == |Holders(t, x)| + Items(s.workers[w].task)[x]
  {
    HolderMore(s.(workers := s.workers[w := Free]), s, w, s.workers[w].task);
    assert s.workers[w := Free][w := Holding(s.workers[w].task)] == s.workers;
    forall x
      ensures Holders(s.(workers := s.workers[w := Free]), x) == Holders(t, x)
    {
    }
  }

  /** A worker that resumes a task is seen to start it, unless the fiber had ended. */
  lemma ResumeStarts(s: Sys, w: int, l: Ledger)
    requires Sane(s, l.ended) && Enabled(s, Resume(w))
    ensures var t, task := Next(s, Resume(w)), s.workers[w].task;
            && t.tasks == s.tasks && w in t.workers && t.workers == s.workers[w := t.workers[w]]
            && (task.cb.Some? ==> Starts(s, t, w, l.ended))
            && (task.fiber.Some? ==> if task.fiber.value in l.ended then PutsAway(s, t, w, l.ended)
                                     else Starts(s, t, w, l.ended) && t.workers[w] == Running(task.fiber.value))
  {
  }

  lemma ResumeConserves(s: Sys, step: Step, l: Ledger)
    requires Sane(s, l.ended) && Conserved(s, l) && Enabled(s, step) && step.Resume?
    ensures Conserved(Next(s, step), Note(s, step, l))
  {
    var w, t, m := step.w, Next(s, step), Note(s, step, l);
    var items := Items(s.workers[w].task);
    ResumeStarts(s, w, l);
    HolderLess(s, t, w);
    hide Next, Starts, PutsAway, Items, Holders, Listed, Exclusive;
    assert m.asked == l.asked + multiset{};
    assert m.started + m.over == l.started + l.over + items;
    hide Sane, Kinds, Final, Note, Enabled;
    forall x
      ensures m.asked[x] == Listed(t.tasks)[x] + |Holders(t, x)| + m.started[x] + m.over[x]
    {
      assert l.asked[x] == Listed(s.tasks)[x] + |Holders(s, x)| + l.started[x] + l.over[x];
      assert (m.started + m.over)[x] == (l.started + l.over + items)[x];
    }
  }

  lemma NextConserves(s: Sys, step: Step, l: Ledger)
    requires Sane(s, l.ended) && Conserved(s, l) && Enabled(s, step)
    ensures Conserved(Next(s, step), Note(s, step, l))
  {
    hide *;
    match step
    case TakeTask(_) => TakeConserves(s, step, l);
    case Resume(_) => ResumeConserves(s, step, l);
    case _ => PostConserves(s, step, l);
  }

  // ----- registrations -----

  /** The fibers that a step registers, and those whose registration it ends: the event fires, or is
      removed. */
  function RegisteredBy(s: Sys, step: Step): multiset<nat>
    requires Enabled(s, step)
  {
    if step.Register? then multiset{s.workers[step.w].fiber} else multiset{}
  }

  function EndedBy(step: Step): multiset<nat> {
    if step.Fire? || step.Forget? then multiset{step.fiber} else multiset{}
  }

  function RegisteredIn(s: Sys, steps: seq<Step>): multiset<nat>
    requires Possible(s, steps)
    decreases |steps|
  {
    if steps == [] then multiset{} else RegisteredBy(s, steps[0]) + RegisteredIn(Next(s, steps[0]), steps[1..])
  }

  function EndedIn(steps: seq<Step>): multiset<nat> {
    if steps == [] then multiset{} else EndedBy(steps[0]) + EndedIn(steps[1..])
  }

  lemma NextRegisters(s: Sys, step: Step)
    requires Enabled(s, step)
    ensures s.parked + RegisteredBy(s, step) == Next(s, step).parked + EndedBy(step)
  {
    hide S.Take, S.Push;
  }

  /** Over any run, every registration is outstanding or was ended by its event or by its removal. */
  lemma {:induction false} RegistrationsConserved(s: Sys, steps: seq<Step>)
    requires Possible(s, steps)
    ensures s.parked + RegisteredIn(s, steps) == Run(s, steps).parked + EndedIn(steps)
    decreases |steps|
  {
    hide Next, Enabled, RegisteredBy, EndedBy;
    if steps != [] {
      var t := Next(s, steps[0]);
      NextRegisters(s, steps[0]);
      RegistrationsConserved(t, steps[1..]);
      Chain(s.parked, RegisteredBy(s, steps[0]), t.parked, EndedBy(steps[0]), RegisteredIn(t, steps[1..]),
            Run(t, steps[1..]).parked, EndedIn(steps[1..]));
    }
  }

  lemma Chain(p: multiset<nat>, a: multiset<nat>, q: multiset<nat>, b: multiset<nat>, c: multiset<nat>,
              r: multiset<nat>, d: multiset<nat>)
    requires p + a == q + b && q + c == r + d
    ensures p + (a + c) == r + (b + d)
  {
    assert p + (a + c) == (q + b) + c == (q + c) + b;
  }

  // ----- runs -----

  ghost function NoteRun(s: Sys, steps: seq<Step>, l: Ledger): Ledger
    requires Possible(s, steps)
    decreases |steps|
  {
    if steps == [] then l else NoteRun(Next(s, steps[0]), steps[1..], Note(s, steps[0], l))
  }

  lemma {:induction false} RunConserves(s: Sys, steps: seq<Step>, l: Ledger)
    requires Sane(s, l.ended) && Conserved(s, l) && Possible(s, steps)
    ensures var m := NoteRun(s, steps, l); Sane(Run(s, steps), m.ended) && Conserved(Run(s, steps), m)
    decreases |steps|
  {
    hide Sane, Conserved, Next, Note, Enabled;
    if steps != [] {
      NextSane(s, steps[0], l);
      NextConserves(s, steps[0], l);
      RunConserves(Next(s, steps[0]), steps[1..], Note(s, steps[0], l));
    }
  }

  /** In any interleaving of any programs on any workers, every callback posted and every fiber spawned or
      woken is exactly one of: in the list, held by one worker, seen to start, or put away because the
      fiber had ended. Exactly the fibers that have ended are in a final state. */
  lemma NothingIsLost(workers: set<int>, steps: seq<Step>, x: Item)
    requires Possible(Start(workers), steps)
    ensures var s, l := Run(Start(workers), steps), NoteRun(Start(workers), steps, EMPTY);
            && Sane(s, l.ended)
            && l.asked[x] == Listed(s.tasks)[x] + |Holders(s, x)| + l.started[x] + l.over[x]
  {
    StartConserved(workers);
    RunConserves(Start(workers), steps, EMPTY);
    hide Run, NoteRun, Sane, Possible;
  }

  const EMPTY := Ledger(multiset{}, multiset{}, multiset{}, {})

  lemma StartConserved(workers: set<int>)
    ensures Sane(Start(workers), {}) && Conserved(Start(workers), EMPTY)
  {
    forall x
      ensures Holders(Start(workers), x) == {}
    {
    }
  }

  /** A fiber that has ended never executes again. */
  lemma {:induction false} EndedIsFinal(s: Sys, steps: seq<Step>, l: Ledger, f: nat, w: int)
    requires Sane(s, l.ended) && Possible(s, steps) && f in l.ended
    ensures f in NoteRun(s, steps, l).ended && !Runs(Run(s, steps), w, f)
    decreases |steps|
  {
    if steps != [] {
      NextSane(s, steps[0], l);
      hide Sane, Next, Enabled, Runs;
      EndedIsFinal(Next(s, steps[0]), steps[1..], Note(s, steps[0], l), f, w);
    }
  }
}
