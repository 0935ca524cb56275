/** What a call of `do_io` returns, in terms of what happened to it (`easy/base/hook.cc`). */
module Results {
  import opened Channels
  import opened Options
  import opened Waiting
  import opened DoIo
  import opened Timeouts
  import R = Registration
  import T = TimerRuns

  /** `addEvent` answers this registration with -1. */
  ghost predicate Refused(c: Call, w: Wait, s: Step)
    requires Invariant(c, w)
  {
    BooksTable(c, w);
    R.ResizedAgrees(w.h.io, c.fd);
    s.Register? && R.AddEvent(w.h.io, c.fd, c.event, c.scheduler, Fiber(c.me), s.ok).1 != 0
  }

  /** The flag is read while it is set. */
  ghost predicate SeesFlag(w: Wait, s: Step) {
    s.Check? && w.cancelled
  }

  /** `addEvent` fails exactly when the kernel refuses or someone waits for the event already. */
  lemma RefusedIff(c: Call, w: Wait, s: Step)
    requires Invariant(c, w) && s.Register?
    ensures Refused(c, w, s) <==>
              !s.ok || (c.fd < |w.h.io.chans| && w.h.io.chans[c.fd].events.Has(c.event))
  {
    BooksTable(c, w);
    R.AddEventStep(w.h.io, c.fd, c.event, c.scheduler, Fiber(c.me), s.ok);
    hide R.AddEvent, R.Agreed, R.Conserved, T.Invariant, R.Step;
    R.ResizedAgrees(w.h.io, c.fd);
  }

  /** What one step does to the phase, as far as returning is concerned. */
  lemma NextReturns(c: Call, w: Wait, s: Step)
    requires Invariant(c, w) && Enabled(c, w, s)
    ensures var p, q := w.phase, Next(c, w, s).phase;
            && (q == Returned(Completed) <==> p == Returned(Completed) || s.Try?)
            && (q == Returned(NotRegistered) <==> p == Returned(NotRegistered) || s.GiveUp?)
            && (q == Returned(TimedOut) <==> p == Returned(TimedOut) || SeesFlag(w, s))
            && (q.Failing? <==> (p.Failing? && !s.GiveUp?) || Refused(c, w, s))
            && (s.GiveUp? ==> p.Failing?)
            && (s.Try? || s.Check? || s.Register? || s.GiveUp? ==> !p.Returned?)
  {
    if s.Register? {
      RegisterOutcome(c, w, s);
    }
    hide Invariant, R.Next, T.Next, CancelLocal, R.AddEvent;
  }

  lemma RegisterOutcome(c: Call, w: Wait, s: Step)
    requires Invariant(c, w) && Enabled(c, w, s) && s.Register?
    ensures Next(c, w, s).phase == if Refused(c, w, s) then Failing else Parked
  {
    var a := w.h.accepted;
    assert (a + multiset{Fiber(c.me)})[Fiber(c.me)] == a[Fiber(c.me)] + 1;
    hide R.AddEvent, Books, Blamed, HeldWhileParked;
  }

  // ----- along a run -----

  ghost predicate SomeRefused(c: Call, w: Wait, steps: seq<Step>)
    requires Invariant(c, w) && Possible(c, w, steps)
    decreases |steps|
  {
    steps != [] &&
    (|| Refused(c, w, steps[0])
     || (NextKeeps(c, w, steps[0]); SomeRefused(c, Next(c, w, steps[0]), steps[1..])))
  }

  ghost predicate SomeSeesFlag(c: Call, w: Wait, steps: seq<Step>)
    requires Invariant(c, w) && Possible(c, w, steps)
    decreases |steps|
  {
    steps != [] &&
    (|| SeesFlag(w, steps[0])
     || (NextKeeps(c, w, steps[0]); SomeSeesFlag(c, Next(c, w, steps[0]), steps[1..])))
  }

  lemma {:induction false} RunReturns(c: Call, w: Wait, steps: seq<Step>)
    requires Invariant(c, w) && Possible(c, w, steps)
    ensures var p, q := w.phase, Run(c, w, steps).phase;
            && (q == Returned(Completed) <==> p == Returned(Completed) || Try in steps)
            && (q == Returned(NotRegistered) <==> p == Returned(NotRegistered) || GiveUp in steps)
            && (q == Returned(TimedOut) <==> p == Returned(TimedOut) || SomeSeesFlag(c, w, steps))
            && (q.Failing? || GiveUp in steps ==> p.Failing? || SomeRefused(c, w, steps))
            && (SomeRefused(c, w, steps) ==> q.Failing? || GiveUp in steps)
    decreases |steps|
  {
    hide Invariant, Enabled, Next, Refused, SeesFlag;
    if steps != [] {
      var s, t := steps[0], Next(c, w, steps[0]);
      NextKeeps(c, w, s);
      NextReturns(c, w, s);
      RunReturns(c, t, steps[1..]);
      assert steps == [s] + steps[1..];
      FailingStays(c, t, steps[1..]);
    }
  }

  /** A call whose registration has failed can only give up. */
  lemma {:induction false} FailingStays(c: Call, w: Wait, steps: seq<Step>)
    requires Invariant(c, w) && Possible(c, w, steps)
    ensures w.phase.Failing? ==> Run(c, w, steps).phase.Failing? || GiveUp in steps
    decreases |steps|
  {
    hide Invariant, Enabled, Next, Refused, SeesFlag;
    if steps != [] {
      var s, t := steps[0], Next(c, w, steps[0]);
      NextKeeps(c, w, s);
      NextReturns(c, w, s);
      FailingStays(c, t, steps[1..]);
      assert steps == [s] + steps[1..];
    }
  }

  /** What a call returns, over every run from its beginning. It returns what the system call did if and
      only if the system call was made and neither would block nor was interrupted; it returns the
      failure of `addEvent` if and only if a registration of its own was refused and it gave up; and it
      times out if and only if it read the flag while it was set. */
  lemma ResultIsExact(c: Call, w: Wait, steps: seq<Step>)
    requires Begins(c, w)
    ensures Invariant(c, w)
    ensures Possible(c, w, steps) ==>
              var p := Run(c, w, steps).phase;
              && (p == Returned(Completed) <==> Try in steps)
              && (p == Returned(NotRegistered) <==> GiveUp in steps && SomeRefused(c, w, steps))
              && (SomeRefused(c, w, steps) ==> p.Failing? || p == Returned(NotRegistered))
              && (p == Returned(TimedOut) <==> SomeSeesFlag(c, w, steps))
  {
    if Possible(c, w, steps) {
      RunReturns(c, w, steps);
    }
    hide Invariant, Run, Possible;
  }

  /** So without a refused registration and without a timer that fired, a call that returns has
      completed. */
  lemma OnlyCompletes(c: Call, w: Wait, steps: seq<Step>)
    requires Begins(c, w)
    ensures Invariant(c, w)
    ensures Possible(c, w, steps) && !SomeRefused(c, w, steps) ==>
              var r := Run(c, w, steps);
              r.phase.Returned? && (forall a :: a in r.mine ==> r.log.fired[a] == 0) ==>
                r.phase == Returned(Completed) && Try in steps
  {
    hide *;
    ResultIsExact(c, w, steps);
    if Possible(c, w, steps) && !SomeRefused(c, w, steps) {
      var r := Run(c, w, steps);
      RunKeeps(c, w, steps);
      TimedOutFired(c, r);
      ThreeResults(r.phase);
    }
  }

  lemma ThreeResults(p: Phase)
    ensures p.Returned? ==> p == Returned(Completed) || p == Returned(NotRegistered) || p == Returned(TimedOut)
  {
    if p.Returned? {
      match p.result
      case Completed =>
      case NotRegistered =>
      case TimedOut =>
    }
  }

  lemma TimedOutFired(c: Call, w: Wait)
    requires Invariant(c, w)
    ensures w.phase == Returned(TimedOut) ==> exists a :: a in w.mine && w.log.fired[a] > 0
  {
  }

  /** Without a timeout a call makes no timer. */
  lemma {:induction false} NoTimeoutNoTimer(c: Call, w: Wait, steps: seq<Step>)
    requires Invariant(c, w) && Possible(c, w, steps) && c.ms.None?
    ensures Run(c, w, steps).mine == w.mine
    decreases |steps|
  {
    hide Invariant, Enabled;
    if steps != [] {
      NextKeeps(c, w, steps[0]);
      assert Next(c, w, steps[0]).mine == w.mine;
      hide Next;
      NoTimeoutNoTimer(c, Next(c, w, steps[0]), steps[1..]);
    }
  }

  /** And a call is never stuck: unless it is parked and not queued, it can return by steps of its own. */
  lemma CanReturn(c: Call, w: Wait) returns (steps: seq<Step>)
    requires Invariant(c, w) && (w.phase.Parked? ==> Queued(c, w))
    ensures Possible(c, w, steps) && Run(c, w, steps).phase.Returned?
    ensures forall s :: s in steps ==> !s.OtherIo? && !s.OtherTimer? && !s.CallbackFlag? && !s.CallbackCancel?
  {
    hide Invariant, Possible, Run;
    Nothing(c, w);
    steps := [];
    if w.phase.Timing? {
      Refusal(c, w);
      steps := Extend(c, w, steps, Register(false));
    }
    if Run(c, w, steps).phase.Failing? {
      steps := Extend(c, w, steps, GiveUp);
    }
    if Run(c, w, steps).phase.Parked? {
      Wakes(c, w);
      steps := Extend(c, w, steps, Wake);
    }
    if Run(c, w, steps).phase.Woken? {
      steps := Extend(c, w, steps, CancelTimer);
    }
    if Run(c, w, steps).phase.Checking? {
      steps := Extend(c, w, steps, Check);
    }
    if Run(c, w, steps).phase.Trying? {
      steps := Extend(c, w, steps, Try);
    }
  }

  lemma Refusal(c: Call, w: Wait)
    requires Invariant(c, w) && w.phase.Timing?
    ensures Enabled(c, w, Register(false)) && Next(c, w, Register(false)).phase == Failing
  {
    RefusedIff(c, w, Register(false));
    RegisterOutcome(c, w, Register(false));
    hide Next;
  }
}
