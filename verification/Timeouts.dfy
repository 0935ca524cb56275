/** When a `do_io` wait is ended by its timeout: which timer is to blame, and whether the timeout wakes
    the fiber (`easy/base/hook.cc`). */
module Timeouts {
  import opened Channels
  import opened Options
  import opened Waiting
  import opened DoIo
  import R = Registration
  import T = TimerRuns
  import B = TimerBook

  // ----- runs, one step at a time -----

  /** A run with one more step at its end. */
  lemma {:induction false} Extend(c: Call, w: Wait, steps: seq<Step>, s: Step) returns (more: seq<Step>)
    requires Invariant(c, w) && Possible(c, w, steps)
    requires Invariant(c, Run(c, w, steps)) && Enabled(c, Run(c, w, steps), s)
    ensures more == steps + [s]
    ensures Possible(c, w, more) && Run(c, w, more) == Next(c, Run(c, w, steps), s)
    ensures Invariant(c, Run(c, w, more))
    decreases |steps|
  {
    hide Invariant, Enabled, Next;
    more := steps + [s];
    if steps == [] {
      assert more[0] == s && more[1..] == [];
      NextKeeps(c, w, s);
    } else {
      assert more[0] == steps[0] && more[1..] == steps[1..] + [s];
      NextKeeps(c, w, steps[0]);
      var _ := Extend(c, Next(c, w, steps[0]), steps[1..], s);
    }
  }

  lemma {:induction false} Join(c: Call, w: Wait, a: seq<Step>, b: seq<Step>)
    requires Invariant(c, w) && Possible(c, w, a)
    requires Invariant(c, Run(c, w, a)) && Possible(c, Run(c, w, a), b)
    ensures Possible(c, w, a + b) && Run(c, w, a + b) == Run(c, Run(c, w, a), b)
    decreases |a|
  {
    hide Invariant, Enabled, Next;
    if a == [] {
      assert a + b == b;
    } else {
      assert (a + b)[1..] == a[1..] + b;
      NextKeeps(c, w, a[0]);
      Join(c, Next(c, w, a[0]), a[1..], b);
    }
  }

  lemma Nothing(c: Call, w: Wait)
    requires Invariant(c, w)
    ensures Possible(c, w, []) && Run(c, w, []) == w
  {
  }

  // ----- whose timeout ends an attempt -----

  /** Within an attempt that started with no callback left over, the flag and every callback are due to
      the timer of the attempt. */
  ghost predicate OwnBlame(w: Wait, a: nat) {
    && !w.phase.Trying?
    && w.timer == Some(a) && a in w.mine
    && (w.due > 0 || w.cancelled ==> w.log.fired[a] > 0)
  }

  lemma OwnBlameKeeps(c: Call, w: Wait, s: Step, a: nat)
    requires Invariant(c, w) && Enabled(c, w, s) && OwnBlame(w, a) && !s.Check?
    ensures OwnBlame(Next(c, w, s), a)
  {
    StillFired(c, w, s, a);
    if s.OtherTimer? && s.timerOp.DoExpire? && HarvestsMine(w, s.timerOp.now) {
      OwnHarvest(c, w, s.timerOp.now, a);
    }
    hide Invariant, R.Next, T.Next, CancelLocal, HarvestsMine;
  }

  /** A harvest of a timer of the call is one of the local timer. */
  lemma OwnHarvest(c: Call, w: Wait, now: int, a: nat)
    requires Invariant(c, w) && T.Callable(w.log, T.DoExpire(now)) && HarvestsMine(w, now) && w.timer == Some(a)
    ensures T.Next(w.log, T.DoExpire(now)).fired[a] > 0
  {
    hide B.Tick;
    var b :| b in w.mine && w.log.book.order != [] && b in w.log.book.order[..B.Harvested(w.log.book, now)];
    assert MyTimer(c, w, b) && b in w.log.book.order;
  }

  ghost predicate NoCheck(steps: seq<Step>) {
    forall s :: s in steps ==> !s.Check?
  }

  lemma {:induction false} OwnBlameRuns(c: Call, w: Wait, steps: seq<Step>, a: nat)
    requires Invariant(c, w) && Possible(c, w, steps) && OwnBlame(w, a) && NoCheck(steps)
    ensures OwnBlame(Run(c, w, steps), a)
    decreases |steps|
  {
    hide Invariant, Enabled, Next, OwnBlame;
    if steps != [] {
      NextKeeps(c, w, steps[0]);
      OwnBlameKeeps(c, w, steps[0], a);
      OwnBlameRuns(c, Next(c, w, steps[0]), steps[1..], a);
    }
  }

  /** In every continuation up to the reading of the flag, if it is set, the timer of the attempt has left
      the set by firing. */
  ghost predicate EndsByOwnTimer(c: Call, v: Wait, a: nat)
    requires Invariant(c, v)
  {
    forall steps :: Possible(c, v, steps) && NoCheck(steps) ==>
      var r := Run(c, v, steps);
      r.cancelled ==> r.log.fired[a] == 1 && a !in r.log.book.order
  }

  /** The state in which an attempt with a timeout starts to wait, after its timer is made. */
  lemma Starts(c: Call, w: Wait, a: nat, now: int)
    requires Invariant(c, w) && w.phase.Trying? && c.ms.Some? && a !in w.log.book.recs
    ensures Enabled(c, w, WouldBlock(a, now))
    ensures var v := Next(c, w, WouldBlock(a, now));
            && Invariant(c, v)
            && v.phase.Timing? && v.timer == Some(a) && a in v.mine
            && v.log.fired[a] == 0 && a in v.log.book.order
            && v.log.book.recs.Keys == w.log.book.recs.Keys + {a}
            && v.log.book.recs[a].expiration == now + c.ms.value * 1000
            && v == w.(phase := v.phase, timer := v.timer, mine := v.mine, log := v.log)
  {
    NextKeeps(c, w, WouldBlock(a, now));
    MadeTimer(w.log, T.DoAdd(a, c.ms.value, Some(c.cb), false, now)) by {
      BooksTable(c, w);
    }
  }

  lemma MadeTimer(l: T.Log, op: T.Op)
    requires T.Invariant(l) && op.DoAdd? && T.Callable(l, op)
    ensures var t := T.Next(l, op);
            && op.a in t.book.order && t.fired[op.a] == 0
            && t.book.recs.Keys == l.book.recs.Keys + {op.a}
            && t.book.recs[op.a].expiration == op.now + op.interval * 1000
  {
    B.AddKeeps(l.book, op.a, op.interval, op.cb, op.repeat, op.now);
    assert T.Alive(l, op.a);
  }

  /** Exactly when a wait is only ended by its own timeout: if and only if, when the attempt starts, no
      callback of an earlier one is left in the task list and the flag is not set. */
  lemma OwnTimeoutIsExact(c: Call, w: Wait, a: nat, now: int)
    requires Invariant(c, w) && w.phase.Trying? && c.ms.Some? && a !in w.log.book.recs
    ensures Invariant(c, Next(c, w, WouldBlock(a, now)))
    ensures w.due == 0 && !w.cancelled <==> EndsByOwnTimer(c, Next(c, w, WouldBlock(a, now)), a)
  {
    Starts(c, w, a, now);
    var v := Next(c, w, WouldBlock(a, now));
    hide Invariant, Next, Enabled, Run, Possible;
    if w.due == 0 && !w.cancelled {
      forall steps | Possible(c, v, steps) && NoCheck(steps)
        ensures var r := Run(c, v, steps); r.cancelled ==> r.log.fired[a] == 1 && a !in r.log.book.order
      {
        OwnBlameRuns(c, v, steps, a);
        RunKeeps(c, v, steps);
        FiredOnce(c, Run(c, v, steps));
      }
    } else {
      var steps := StaleEndsWait(c, v, a);
    }
  }

  /** Otherwise there is a continuation that ends the wait although its timer is pending: the flag is set
      by the callback left over, the descriptor becomes ready, and the fiber wakes. */
  lemma StaleEndsWait(c: Call, v: Wait, a: nat) returns (steps: seq<Step>)
    requires Invariant(c, v) && v.phase.Timing? && v.timer == Some(a) && v.log.fired[a] == 0
    requires a in v.log.book.order && (v.due > 0 || v.cancelled)
    ensures Possible(c, v, steps) && NoCheck(steps)
    ensures var r := Run(c, v, steps);
            && Invariant(c, r) && r.phase.Woken? && r.cancelled && r.timer == Some(a)
            && r.log == v.log && a in r.log.book.order && r.mine == v.mine
  {
    hide Invariant, Run, Possible, Next, Enabled;
    Nothing(c, v);
    steps := [];
    if !v.cancelled {
      FlagSet(c, v);
      steps := Extend(c, v, steps, CallbackFlag);
    }
    var clear, ready := OtherIo(R.Cancel(c.fd, c.event, true)), OtherIo(Ready(c));
    OthersMay(c, Run(c, v, steps), R.Cancel(c.fd, c.event, true));
    BitCleared(c, Run(c, v, steps), clear);
    steps := Extend(c, v, steps, clear);
    Parks(c, Run(c, v, steps));
    steps := Extend(c, v, steps, Register(true));
    Readies(c, Run(c, v, steps));
    steps := Extend(c, v, steps, ready);
    Wakes(c, Run(c, v, steps));
    steps := Extend(c, v, steps, Wake);
  }

  // ----- the steps of these runs -----

  /** A report that the descriptor is ready for what the call waits for. */
  function Ready(c: Call): R.Op {
    R.Arrive(c.fd, R.Report(c.event.Read?, c.event.Write?, false), true)
  }

  lemma FlagSet(c: Call, w: Wait)
    requires Invariant(c, w) && w.due > 0 && !w.phase.Returned? && !w.cancelled
    ensures Enabled(c, w, CallbackFlag)
    ensures Next(c, w, CallbackFlag) == w.(due := w.due - 1, cancelled := true, firing := true)
  {
  }

  /** Others may cancel events at any time. */
  lemma OthersMay(c: Call, w: Wait, op: R.Op)
    requires op.Cancel?
    ensures Enabled(c, w, OtherIo(op))
  {
  }

  /** The bit of the event is clear. */
  predicate BitClear(c: Call, w: Wait) {
    c.fd < |w.h.io.chans| ==> !w.h.io.chans[c.fd].events.Has(c.event)
  }

  /** Cancelling the event, by whomever, clears its bit. */
  lemma BitCleared(c: Call, w: Wait, s: Step)
    requires Invariant(c, w) && Enabled(c, w, s)
    requires s == OtherIo(R.Cancel(c.fd, c.event, true)) || s == CallbackCancel(true)
    ensures var t := Next(c, w, s);
            && BitClear(c, t)
            && t == w.(h := t.h, firing := if s.CallbackCancel? then false else w.firing)
  {
    BooksTable(c, w);
    R.CancelEventStep(w.h.io, c.fd, c.event, true);
    hide R.CancelEvent, R.Step, Invariant, R.Agreed, R.Conserved;
  }

  /** Registering for a clear bit succeeds and queues nothing. */
  lemma Parks(c: Call, w: Wait)
    requires Invariant(c, w) && w.phase.Timing? && BitClear(c, w)
    ensures Enabled(c, w, Register(true))
    ensures var t := Next(c, w, Register(true));
            && t.phase.Parked? && t == w.(h := t.h, phase := Parked)
            && Count(t.h.io.queue, Fiber(c.me)) == t.resumed
  {
    BooksTable(c, w);
    Account(w.h, Fiber(c.me));
    R.AddEventStep(w.h.io, c.fd, c.event, c.scheduler, Fiber(c.me), true);
    var a := w.h.accepted;
    assert (a + multiset{Fiber(c.me)})[Fiber(c.me)] == a[Fiber(c.me)] + 1;
    hide R.AddEvent, R.Step, R.Agreed, R.Conserved, T.Invariant, R.AllParked;
    R.ResizedAgrees(w.h.io, c.fd);
  }

  /** Readiness queues the parked fiber. */
  lemma Readies(c: Call, w: Wait)
    requires Invariant(c, w) && w.phase.Parked? && Count(w.h.io.queue, Fiber(c.me)) == w.resumed
    ensures Enabled(c, w, OtherIo(Ready(c)))
    ensures var t := Next(c, w, OtherIo(Ready(c)));
            t == w.(h := t.h) && Count(t.h.io.queue, Fiber(c.me)) > t.resumed
  {
    BooksTable(c, w);
    var op := Ready(c);
    ThroughDispatch(w.h.io, c.fd, op.report, true, c.fd, c.event, Fiber(c.me));
    hide R.Dispatch, R.Agreed, R.Conserved, T.Invariant, Books, Count;
  }

  lemma Wakes(c: Call, w: Wait)
    requires Invariant(c, w) && w.phase.Parked? && Count(w.h.io.queue, Fiber(c.me)) > w.resumed
    ensures Enabled(c, w, Wake) && Next(c, w, Wake) == w.(phase := Woken, resumed := w.resumed + 1)
  {
  }

  /** After waking, the local timer is cancelled and the flag decides. */
  lemma Finish(c: Call, w: Wait, steps: seq<Step>) returns (more: seq<Step>)
    requires Invariant(c, w) && Possible(c, w, steps)
    requires Invariant(c, Run(c, w, steps)) && Run(c, w, steps).phase.Woken?
    ensures Possible(c, w, more)
    ensures var v, r := Run(c, w, steps), Run(c, w, more);
            && Invariant(c, r)
            && r.phase == (if v.cancelled then Returned(TimedOut) else Trying)
            && r == v.(log := r.log, phase := r.phase, timer := None)
            && r.log.fired == v.log.fired && r.log.book.recs.Keys == v.log.book.recs.Keys
  {
    hide Invariant, Run, Possible;
    var v := Run(c, w, steps);
    CancelKeepsRest(v);
    more := Extend(c, w, steps, CancelTimer);
    more := Extend(c, w, more, Check);
  }

  lemma CancelKeepsRest(w: Wait)
    ensures CancelLocal(w).fired == w.log.fired && CancelLocal(w).book.recs.Keys == w.log.book.recs.Keys
  {
  }

  /** A tick at the expiration of the pending local timer harvests it and leaves a callback. */
  lemma Expires(c: Call, w: Wait, a: nat, now: int)
    requires Invariant(c, w) && w.timer == Some(a) && a in w.log.book.order
    requires a in w.log.book.recs && w.log.book.recs[a].expiration <= now
    ensures Enabled(c, w, OtherTimer(T.DoExpire(now)))
    ensures var t := Next(c, w, OtherTimer(T.DoExpire(now)));
            && t == w.(log := t.log, due := w.due + 1)
            && t.log.fired[a] > 0 && a !in t.log.book.order
            && t.log.book.recs.Keys == w.log.book.recs.Keys
  {
    BooksTable(c, w);
    LocalIsMine(c, w);
    B.DueIsHarvested(w.log.book, a, now);
    TickNext(c, w, now, a);
    TickKeys(w.log, now);
    OwnHarvest(c, w, now, a);
    var s := OtherTimer(T.DoExpire(now));
    NextKeeps(c, w, s);
    FiredOnce(c, Next(c, w, s));
    hide Next, Enabled, T.Next, T.Invariant, Invariant, R.Invariant, B.WellFormed;
  }

  lemma TickNext(c: Call, w: Wait, now: int, a: nat)
    requires Invariant(c, w) && a in w.mine && w.log.book.order != []
    requires a in w.log.book.order[..B.Harvested(w.log.book, now)]
    ensures T.Callable(w.log, T.DoExpire(now)) && HarvestsMine(w, now)
    ensures Enabled(c, w, OtherTimer(T.DoExpire(now)))
    ensures Next(c, w, OtherTimer(T.DoExpire(now))) == w.(log := T.Next(w.log, T.DoExpire(now)), due := w.due + 1)
  {
    BooksTable(c, w);
    hide B.Harvested, Invariant, T.Next;
  }

  lemma TickKeys(l: T.Log, now: int)
    requires T.Invariant(l) && l.book.order != [] && T.Callable(l, T.DoExpire(now))
    ensures T.Next(l, T.DoExpire(now)).book.recs.Keys == l.book.recs.Keys
  {
    B.TickExact(l.book, now);
    hide B.Tick, B.Harvested;
  }

  lemma LocalIsMine(c: Call, w: Wait)
    requires Invariant(c, w)
    ensures w.timer.Some? ==> w.timer.value in w.mine
  {
  }

  // ----- from the beginning of a call -----

  /** A call with a stale timeout, from its very beginning: its timer expires, but readiness wakes the
      fiber before the callback runs; the call tries again with a new timer; the callback of the first
      one ends this second wait, whose own timer is pending and never fires. */
  lemma StaleCallbackEndsNextWait(c: Call, w: Wait, a: nat, now: int, b: nat, later: int) returns (steps: seq<Step>)
    requires Begins(c, w) && c.ms.Some? && a != b && a !in w.log.book.recs && b !in w.log.book.recs
    requires BitClear(c, w)
    ensures Invariant(c, w) && Possible(c, w, steps)
    ensures var r := Run(c, w, steps);
            r.phase == Returned(TimedOut) && b in r.mine && r.log.fired[a] == 1 && r.log.fired[b] == 0
  {
    hide Possible, Run, Next, Enabled;
    BeginsWell(c, w);
    hide Invariant;
    steps := FirstAttempt(c, w, a, now);
    var v := Run(c, w, steps);
    Starts(c, v, b, later);
    var u := Next(c, v, WouldBlock(b, later));
    steps := Extend(c, w, steps, WouldBlock(b, later));
    var rest := StaleEndsWait(c, u, b);
    Join(c, w, steps, rest);
    steps := Finish(c, w, steps + rest);
    FiredOnce(c, Run(c, w, steps));
    NotLess(c, v, WouldBlock(b, later), a);
  }

  lemma NotLess(c: Call, w: Wait, s: Step, a: nat)
    requires Invariant(c, w) && Enabled(c, w, s)
    ensures Next(c, w, s).log.fired[a] >= w.log.fired[a] && w.mine <= Next(c, w, s).mine
  {
    StillFired(c, w, s, a);
  }

  lemma BeginsWell(c: Call, w: Wait)
    requires Begins(c, w)
    ensures Invariant(c, w)
  {
  }

  /** The first attempt of that call: readiness wins, and the callback is left in the task list. */
  lemma FirstAttempt(c: Call, w: Wait, a: nat, now: int) returns (steps: seq<Step>)
    requires Begins(c, w) && Invariant(c, w) && c.ms.Some? && a !in w.log.book.recs && BitClear(c, w)
    ensures Possible(c, w, steps)
    ensures var r := Run(c, w, steps);
            && Invariant(c, r) && r.phase.Trying? && r.due == 1 && !r.cancelled
            && a in r.mine && r.log.fired[a] > 0 && r.log.book.recs.Keys == w.log.book.recs.Keys + {a}
  {
    hide Possible, Run, Next, Enabled, Invariant;
    Nothing(c, w);
    Starts(c, w, a, now);
    steps := Extend(c, w, [], WouldBlock(a, now));
    Parks(c, Run(c, w, steps));
    steps := Extend(c, w, steps, Register(true));
    var due := OtherTimer(T.DoExpire(now + c.ms.value * 1000));
    Expires(c, Run(c, w, steps), a, now + c.ms.value * 1000);
    steps := Extend(c, w, steps, due);
    Readies(c, Run(c, w, steps));
    steps := Extend(c, w, steps, OtherIo(Ready(c)));
    Wakes(c, Run(c, w, steps));
    steps := Extend(c, w, steps, Wake);
    steps := Finish(c, w, steps);
  }

  /** A timeout that is lost, from the very beginning of a call: the timer is made before the fiber
      registers, expires in between, and its callback finds nothing to cancel. The fiber is then parked
      with no timer left. */
  lemma LostTimeoutRun(c: Call, w: Wait, a: nat, now: int) returns (steps: seq<Step>)
    requires Begins(c, w) && c.ms.Some? && a !in w.log.book.recs
    ensures Invariant(c, w) && Possible(c, w, steps)
    ensures var r := Run(c, w, steps);
            && Invariant(c, r) && r.phase.Parked? && r.cancelled && !r.firing && r.due == 0
            && Count(r.h.io.queue, Fiber(c.me)) == r.resumed
            && forall x :: x in r.mine ==> x !in r.log.book.order
  {
    hide Possible, Run, Next, Enabled;
    BeginsWell(c, w);
    hide Invariant;
    Nothing(c, w);
    Starts(c, w, a, now);
    steps := Extend(c, w, [], WouldBlock(a, now));
    Expires(c, Run(c, w, steps), a, now + c.ms.value * 1000);
    steps := Extend(c, w, steps, OtherTimer(T.DoExpire(now + c.ms.value * 1000)));
    FlagSet(c, Run(c, w, steps));
    steps := Extend(c, w, steps, CallbackFlag);
    CancelReady(c, Run(c, w, steps));
    BitCleared(c, Run(c, w, steps), CallbackCancel(true));
    steps := Extend(c, w, steps, CallbackCancel(true));
    Parks(c, Run(c, w, steps));
    steps := Extend(c, w, steps, Register(true));
    OnlyLocal(c, Run(c, w, steps), a);
  }

  lemma CancelReady(c: Call, w: Wait)
    requires w.firing
    ensures Enabled(c, w, CallbackCancel(true))
  {
  }

  lemma OnlyLocal(c: Call, w: Wait, a: nat)
    requires Invariant(c, w) && w.timer == Some(a) && a !in w.log.book.order
    ensures forall x :: x in w.mine ==> x !in w.log.book.order
  {
    forall x | x in w.mine
      ensures x !in w.log.book.order
    {
      assert MyTimer(c, w, x);
    }
  }

  // ----- whether a timeout wakes the fiber -----

  /** The callback has run to its end. */
  predicate CallbackDone(w: Wait) {
    w.cancelled && !w.firing
  }

  predicate Queued(c: Call, w: Wait) {
    Count(w.h.io.queue, Fiber(c.me)) > w.resumed
  }

  /** The fiber is not resumed, and the kernel lets the callbacks cancel. */
  ghost predicate StillWaiting(steps: seq<Step>) {
    forall s :: s in steps ==> !s.Wake? && (s.CallbackCancel? ==> s.ok)
  }

  ghost predicate NoOtherIo(steps: seq<Step>) {
    forall s :: s in steps ==> !s.OtherIo?
  }

  /** Once registered, a callback that runs to its end has queued the fiber. */
  lemma CallbackQueues(c: Call, w: Wait, s: Step)
    requires Invariant(c, w) && Enabled(c, w, s) && w.phase.Parked? && !s.Wake? && (s.CallbackCancel? ==> s.ok)
    requires CallbackDone(w) ==> Queued(c, w)
    ensures var t := Next(c, w, s); t.phase.Parked? && (CallbackDone(t) ==> Queued(c, t))
  {
    BooksTable(c, w);
    if s.OtherIo? || s.CallbackCancel? {
      var op := if s.OtherIo? then s.tableOp else R.Cancel(c.fd, c.event, s.ok);
      TableKeeps(w.h, op, Fiber(c.me));
      CountGrows(w.h.io.queue, R.Next(w.h, op).io.queue, Fiber(c.me));
      if s.CallbackCancel? && !Queued(c, w) {
        ThroughCancel(w.h.io, c.fd, c.event, true, c.fd, c.event, Fiber(c.me));
      }
    }
    hide R.CancelEvent, R.Conserved, R.Agreed, T.Invariant, T.Next, Count, R.AddEvent, R.RemoveEvent, R.CancelAll,
      R.Dispatch;
  }

  lemma {:induction false} TimeoutWakes(c: Call, w: Wait, steps: seq<Step>)
    requires Invariant(c, w) && Possible(c, w, steps) && StillWaiting(steps)
    requires w.phase.Parked? && (CallbackDone(w) ==> Queued(c, w))
    ensures var r := Run(c, w, steps); r.phase.Parked? && (CallbackDone(r) ==> Queued(c, r))
    decreases |steps|
  {
    hide Invariant, Enabled, Next, CallbackDone, Queued;
    if steps != [] {
      NextKeeps(c, w, steps[0]);
      CallbackQueues(c, w, steps[0]);
      TimeoutWakes(c, Next(c, w, steps[0]), steps[1..]);
    }
  }

  /** With the callback at its end and the fiber not queued, only an operation of others on the event table
      can queue it: no timeout will. */
  lemma {:induction false} TimeoutIsLost(c: Call, w: Wait, steps: seq<Step>)
    requires Invariant(c, w) && Possible(c, w, steps) && NoOtherIo(steps)
    requires w.phase.Parked? && CallbackDone(w) && !Queued(c, w)
    ensures var r := Run(c, w, steps); r.phase.Parked? && CallbackDone(r) && !Queued(c, r)
    decreases |steps|
  {
    hide Invariant;
    if steps != [] {
      var s, t := steps[0], Next(c, w, steps[0]);
      NextKeeps(c, w, s);
      assert t.phase.Parked? && CallbackDone(t) && !Queued(c, t);
      hide Next, Enabled, CallbackDone, Queued;
      TimeoutIsLost(c, t, steps[1..]);
    }
  }

  /** Exactly when a timeout wakes the fiber. Let it register and wait, with nothing else happening to the
      event table. Once the callback has run to its end, the fiber is queued if and only if the callback
      had not done so before the registration. */
  lemma TimeoutWakesExactly(c: Call, w: Wait, steps: seq<Step>)
    requires Invariant(c, w) && w.phase.Timing? && BitClear(c, w)
    ensures Enabled(c, w, Register(true))
    ensures var u := Next(c, w, Register(true));
            && Invariant(c, u) && u.phase.Parked?
            && (Possible(c, u, steps) && StillWaiting(steps) && NoOtherIo(steps) && CallbackDone(Run(c, u, steps)) ==>
                 (Queued(c, Run(c, u, steps)) <==> !CallbackDone(w)))
  {
    Parks(c, w);
    NextKeeps(c, w, Register(true));
    var u := Next(c, w, Register(true));
    hide Invariant, Next, Enabled, Possible, Run;
    if Possible(c, u, steps) && StillWaiting(steps) && NoOtherIo(steps) {
      if CallbackDone(w) {
        TimeoutIsLost(c, u, steps);
      } else {
        TimeoutWakes(c, u, steps);
      }
    }
  }

  // ----- the first call of a program -----

  /** A program that has done nothing yet begins a call. */
  function First(now: int): Wait {
    Wait(R.START, T.Start(now), Trying, None, {}, 0, false, false, 0)
  }

  lemma FirstBegins(c: Call, now: int)
    ensures Begins(c, First(now)) && BitClear(c, First(now))
  {
    R.StartInvariant();
    T.StartInvariant(now);
  }

  /** A stale timeout can end such a call. */
  lemma FirstCallCanBeStale(c: Call, now: int, later: int) returns (steps: seq<Step>)
    requires c.ms.Some?
    ensures Invariant(c, First(now)) && Possible(c, First(now), steps)
    ensures var r := Run(c, First(now), steps);
            r.phase == Returned(TimedOut) && 2 in r.mine && r.log.fired[1] == 1 && r.log.fired[2] == 0
  {
    hide Possible, Run, Invariant;
    FirstBegins(c, now);
    steps := StaleCallbackEndsNextWait(c, First(now), 1, now, 2, later);
  }

  /** And its timeout can be lost. */
  lemma FirstCallCanBeLost(c: Call, now: int) returns (steps: seq<Step>)
    requires c.ms.Some?
    ensures Invariant(c, First(now)) && Possible(c, First(now), steps)
    ensures var r := Run(c, First(now), steps);
            && r.phase.Parked? && CallbackDone(r) && r.due == 0 && !Queued(c, r)
            && forall x :: x in r.mine ==> x !in r.log.book.order
  {
    hide Possible, Run, Invariant;
    FirstBegins(c, now);
    steps := LostTimeoutRun(c, First(now), 1, now);
  }
}
