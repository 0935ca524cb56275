/** One blocking call of `do_io` in `easy/base/hook.cc`: try, set a timer, register, park, wake by
    readiness or by timeout, cancel the timer, and return or try again, with everything else that
    happens on the event table and on the timers in between.

    Each operation on a shared object is one step. The event table is that of `Registration`, the
    timers are those of `TimerRuns`. */
module DoIo {
  import opened Channels
  import opened Options
  import opened Waiting
  import R = Registration
  import T = TimerRuns
  import B = TimerBook

  /** The calling fiber, what it waits for, its timeout (none for -1), and the timeout callback. */
  datatype Call = Call(me: nat, fd: nat, event: Event, ms: Option<int>, cb: nat, scheduler: nat)

  datatype Result = Completed | NotRegistered | TimedOut

  /** Before the system call; with the timer set; registered and given up the worker; after a failed
      registration; woken; with the timer cancelled; returned. */
  datatype Phase = Trying | Timing | Parked | Failing | Woken | Checking | Returned(result: Result)

  /** `timer` is the local timer, `mine` all the timers this call made; `due` counts callbacks of
      theirs that were handed to the scheduler and have not run; `cancelled` is the shared flag and
      `firing` says that a callback has set it and has yet to call `cancelEvent`; `resumed` counts the
      wake-ups taken. */
  datatype Wait = Wait(h: R.History, log: T.Log, phase: Phase, timer: Option<nat>, mine: set<nat>,
                       due: nat, cancelled: bool, firing: bool, resumed: nat)

  datatype Step =
    | Try                                // the system call does not return EAGAIN or EINTR
    | Interrupted                        // it returns EINTR, and is made again
    | WouldBlock(addr: nat, now: int)    // it returns EAGAIN: the timer is made, if there is a timeout
    | Register(ok: bool)                 // addEvent; if it succeeds the fiber yields
    | GiveUp                             // registration failed: the timer is cancelled
    | Wake                               // the fiber is resumed
    | CancelTimer
    | Check                              // the flag is read
    | CallbackFlag                       // a timeout callback runs up to setting the flag
    | CallbackCancel(ok: bool)           // and calls cancelEvent
    | OtherIo(tableOp: R.Op)
    | OtherTimer(timerOp: T.Op)

  /** Whether the timers harvested at `now` include one of this call. */
  ghost predicate HarvestsMine(w: Wait, now: int) {
    exists a :: a in w.mine && w.log.book.order != [] && a in w.log.book.order[..B.Harvested(w.log.book, now)]
  }

  /** Other users of the table do not register or remove this fiber; other users of the timers do not
      hold this call's timer. */
  ghost predicate Enabled(c: Call, w: Wait, s: Step) {
    match s
    case Try => w.phase.Trying?
    case Interrupted => w.phase.Trying?
    case WouldBlock(a, now) => w.phase.Trying? && (c.ms.Some? ==> a !in w.log.book.recs)
    case Register(_) => w.phase.Timing?
    case GiveUp => w.phase.Failing?
    case Wake => w.phase.Parked? && Count(w.h.io.queue, Fiber(c.me)) > w.resumed
    case CancelTimer => w.phase.Woken?
    case Check => w.phase.Checking?
    case CallbackFlag => w.due > 0 && !w.phase.Returned?
    case CallbackCancel(_) => w.firing
    case OtherIo(op) =>
      && (op.Add? ==> op.c != Fiber(c.me))
      && (op.Remove? && op.fd < |w.h.io.chans| ==> Held(w.h.io.chans[op.fd].Ctx(op.event))[Fiber(c.me)] == 0)
    case OtherTimer(op) => T.Callable(w.log, op) && (op.DoCancel? || op.DoRefresh? || op.DoReset? ==> op.a !in w.mine)
  }

  /** The account of the fiber's registrations and wake-ups, and of the timers of the call. */
  ghost predicate Books(c: Call, w: Wait) {
    && R.Invariant(w.h) && T.Invariant(w.log)
    && w.h.dropped[Fiber(c.me)] == 0
    && w.h.accepted[Fiber(c.me)] == w.resumed + (if w.phase.Parked? then 1 else 0)
    && w.resumed <= Count(w.h.io.queue, Fiber(c.me))
    && (w.timer.Some? ==> w.timer.value in w.mine)
    && (forall a :: a in w.mine ==> MyTimer(c, w, a))
  }

  /** The flag is set, and a callback is under way, only because a timer of this call has fired; and only
      the flag makes the call time out. */
  ghost predicate Blamed(w: Wait) {
    && (w.firing ==> w.cancelled)
    && (w.phase == Returned(TimedOut) ==> w.cancelled)
    && (w.due > 0 || w.cancelled ==> exists a :: a in w.mine && w.log.fired[a] > 0)
  }

  /** A parked fiber that nothing has queued is held where its event will find it. */
  ghost predicate HeldWhileParked(c: Call, w: Wait) {
    w.phase.Parked? && Count(w.h.io.queue, Fiber(c.me)) == w.resumed ==>
      HeldAt(w.h.io, c.fd, c.event, Fiber(c.me))
  }

  ghost predicate Invariant(c: Call, w: Wait) {
    Books(c, w) && Blamed(w) && HeldWhileParked(c, w)
  }

  /** A timer of this call is a one-shot with the timeout callback, and it is pending only while it is
      the local timer of an attempt that has not cancelled it yet. */
  ghost predicate MyTimer(c: Call, w: Wait, a: nat) {
    var b := w.log.book;
    && a in b.recs && b.recs[a].made == Some(c.cb) && !b.recs[a].repeat
    && (a in b.order ==>
         w.timer == Some(a) && (w.phase.Timing? || w.phase.Parked? || w.phase.Failing? || w.phase.Woken?))
  }

  function CancelLocal(w: Wait): (l: T.Log) {
    if w.timer.Some? && T.Callable(w.log, T.DoCancel(w.timer.value))
    then T.Next(w.log, T.DoCancel(w.timer.value)) else w.log
  }

  ghost function Next(c: Call, w: Wait, s: Step): Wait
    requires Invariant(c, w) && Enabled(c, w, s)
  {
    match s
    case Try => w.(phase := Returned(Completed))
    case Interrupted => w
    case WouldBlock(a, now) =>
      if c.ms.None? then w.(phase := Timing, timer := None)
      else
        w.(phase := Timing, timer := Some(a), mine := w.mine + {a},
           log := T.Next(w.log, T.DoAdd(a, c.ms.value, Some(c.cb), false, now)))
    case Register(ok) =>
      var h := R.Next(w.h, R.Add(c.fd, c.event, c.scheduler, Fiber(c.me), ok));
      w.(h := h, phase := if h.accepted == w.h.accepted then Failing else Parked)
    case GiveUp => w.(log := CancelLocal(w), phase := Returned(NotRegistered))
    case Wake => w.(phase := Woken, resumed := w.resumed + 1)
    case CancelTimer => w.(log := CancelLocal(w), phase := Checking)
    case Check => w.(phase := if w.cancelled then Returned(TimedOut) else Trying, timer := None)
    case CallbackFlag =>
      if w.cancelled then w.(due := w.due - 1) else w.(due := w.due - 1, cancelled := true, firing := true)
    case CallbackCancel(ok) => w.(h := R.Next(w.h, R.Cancel(c.fd, c.event, ok)), firing := false)
    case OtherIo(op) => w.(h := R.Next(w.h, op))
    case OtherTimer(op) =>
      w.(log := T.Next(w.log, op),
         due := if op.DoExpire? && HarvestsMine(w, op.now) then w.due + 1 else w.due)
  }

  // ----- what the shared objects do to this call -----

  /** An operation on the table that does not accept or drop a continuation leaves its account. */
  lemma TableKeeps(h: R.History, op: R.Op, x: Continuation)
    requires R.Invariant(h)
    requires op.Add? ==> op.c != x
    requires op.Remove? && op.fd < |h.io.chans| ==> Held(h.io.chans[op.fd].Ctx(op.event))[x] == 0
    ensures var t := R.Next(h, op);
            && R.Invariant(t)
            && t.accepted[x] == h.accepted[x] && t.dropped[x] == h.dropped[x]
            && h.io.queue <= t.io.queue
  {
    hide R.Agreed, R.Conserved, R.AllParked, R.AddEvent, R.RemoveEvent, R.CancelEvent, R.CancelAll, R.Dispatch;
    R.NextInvariant(h, op);
    R.QueueGrows(h, op);
    if op.Remove? {
      R.RemoveEventStep(h.io, op.fd, op.event, op.ok);
    }
  }

  /** A timer that is out of the set stays out, and keeps what it was made with, whatever other timers
      do. */
  lemma TimerKeeps(l: T.Log, op: T.Op, a: nat)
    requires T.Invariant(l) && T.Callable(l, op) && a in l.book.recs
    ensures var t := T.Next(l, op);
            && T.Invariant(t)
            && a in t.book.recs && t.book.recs[a].made == l.book.recs[a].made
            && t.book.recs[a].repeat == l.book.recs[a].repeat
            && (a in t.book.order ==> a in l.book.order)
  {
    T.NextInvariant(l, op);
    T.NextOrder(l, op, a);
  }

  // ----- every step keeps the invariant -----

  lemma TableStepKeeps(c: Call, w: Wait, s: Step)
    requires Invariant(c, w) && Enabled(c, w, s) && (s.OtherIo? || s.CallbackCancel?)
    ensures Books(c, Next(c, w, s))
  {
    hide R.Invariant, T.Invariant, R.Next, Count;
    var op := if s.OtherIo? then s.tableOp else R.Cancel(c.fd, c.event, s.ok);
    TableKeeps(w.h, op, Fiber(c.me));
    CountGrows(w.h.io.queue, Next(c, w, s).h.io.queue, Fiber(c.me));
    assert forall a :: a in w.mine ==> MyTimer(c, w, a);
  }

  lemma RegisterKeeps(c: Call, w: Wait, s: Step)
    requires Invariant(c, w) && Enabled(c, w, s) && s.Register?
    ensures Books(c, Next(c, w, s))
  {
    hide R.Agreed, R.Conserved, R.AllParked, R.AddEvent, T.Invariant, Count;
    var op := R.Add(c.fd, c.event, c.scheduler, Fiber(c.me), s.ok);
    RegisterAccount(w.h, op);
    CountGrows(w.h.io.queue, R.Next(w.h, op).io.queue, Fiber(c.me));
    assert forall a :: a in w.mine ==> MyTimer(c, w, a);
  }

  /** A successful registration is accepted once; a failed one leaves the account. */
  lemma RegisterAccount(h: R.History, op: R.Op)
    requires R.Invariant(h) && op.Add?
    ensures var t := R.Next(h, op);
            && R.Invariant(t) && h.io.queue <= t.io.queue && t.dropped == h.dropped
            && t.accepted[op.c] == (if t.accepted == h.accepted then h.accepted[op.c] else h.accepted[op.c] + 1)
  {
    hide R.Agreed, R.Conserved, R.AllParked, R.AddEvent;
    R.NextInvariant(h, op);
    R.QueueGrows(h, op);
    assert (h.accepted + multiset{op.c})[op.c] == h.accepted[op.c] + 1;
  }

  lemma StartTimerKeeps(c: Call, w: Wait, s: Step)
    requires Invariant(c, w) && Enabled(c, w, s) && s.WouldBlock?
    ensures Books(c, Next(c, w, s))
  {
    hide R.Invariant, T.Invariant, Count;
    var t := Next(c, w, s);
    if c.ms.Some? {
      var op := T.DoAdd(s.addr, c.ms.value, Some(c.cb), false, s.now);
      T.NextInvariant(w.log, op);
      forall a | a in t.mine
        ensures MyTimer(c, t, a)
      {
        if a != s.addr {
          assert MyTimer(c, w, a);
          TimerKeeps(w.log, op, a);
        } else {
          AddedRecord(w.log, op);
        }
      }
    } else {
      assert forall a :: a in w.mine ==> MyTimer(c, w, a);
    }
  }

  lemma AddedRecord(l: T.Log, op: T.Op)
    requires op.DoAdd? && T.Callable(l, op)
    ensures var t := T.Next(l, op);
            op.a in t.book.recs && t.book.recs[op.a].made == op.cb && t.book.recs[op.a].repeat == op.repeat
  {
  }

  /** `timer->cancel()`: afterwards no timer of this call is pending. */
  lemma CancelLocalKeeps(c: Call, w: Wait, s: Step)
    requires Invariant(c, w) && Enabled(c, w, s) && (s.GiveUp? || s.CancelTimer?)
    ensures Books(c, Next(c, w, s))
  {
    hide R.Invariant, T.Invariant, Count;
    var t := Next(c, w, s);
    if w.timer.Some? {
      var op := T.DoCancel(w.timer.value);
      assert MyTimer(c, w, w.timer.value);
      T.NextInvariant(w.log, op);
      CancelRemoves(w.log, op);
      forall a | a in t.mine
        ensures MyTimer(c, t, a)
      {
        assert MyTimer(c, w, a);
        TimerKeeps(w.log, op, a);
      }
    } else {
      assert forall a :: a in w.mine ==> MyTimer(c, w, a);
    }
  }

  lemma CancelRemoves(l: T.Log, op: T.Op)
    requires T.Invariant(l) && op.DoCancel? && T.Callable(l, op) && l.book.recs[op.a].made.Some?
    ensures op.a !in T.Next(l, op).book.order
  {
    B.CancelKeeps(l.book, op.a);
    assert l.book.recs[op.a].cb.None? ==> op.a !in l.book.order;
  }

  lemma OtherTimerKeeps(c: Call, w: Wait, s: Step)
    requires Invariant(c, w) && Enabled(c, w, s) && s.OtherTimer?
    ensures Books(c, Next(c, w, s))
  {
    hide R.Invariant, T.Invariant, Count, T.Next;
    var t := Next(c, w, s);
    T.NextInvariant(w.log, s.timerOp);
    forall a | a in t.mine
      ensures MyTimer(c, t, a)
    {
      assert MyTimer(c, w, a);
      TimerKeeps(w.log, s.timerOp, a);
    }
  }

  lemma LocalStepKeeps(c: Call, w: Wait, s: Step)
    requires Invariant(c, w) && Enabled(c, w, s) && (s.Try? || s.Interrupted? || s.Wake? || s.Check? || s.CallbackFlag?)
    ensures Books(c, Next(c, w, s))
  {
    hide R.Invariant, T.Invariant, Count;
    var t := Next(c, w, s);
    assert forall a :: a in w.mine ==> MyTimer(c, w, a);
    assert forall a :: a in w.mine ==> MyTimer(c, t, a);
  }

  // ----- blame -----

  lemma FiredGrows(l: T.Log, op: T.Op, a: nat)
    requires T.Callable(l, op)
    ensures T.Next(l, op).fired[a] >= l.fired[a]
  {
  }

  lemma HarvestFires(w: Wait, now: int)
    requires T.Callable(w.log, T.DoExpire(now)) && HarvestsMine(w, now)
    ensures exists a :: a in w.mine && T.Next(w.log, T.DoExpire(now)).fired[a] > 0
  {
    hide B.Tick;
    var a :| a in w.mine && w.log.book.order != [] && a in w.log.book.order[..B.Harvested(w.log.book, now)];
    assert T.Next(w.log, T.DoExpire(now)).fired[a] > 0;
  }

  /** No step of the timers takes back that a timer has fired. */
  lemma StillFired(c: Call, w: Wait, s: Step, a: nat)
    requires Invariant(c, w) && Enabled(c, w, s)
    ensures Next(c, w, s).log.fired[a] >= w.log.fired[a] && w.mine <= Next(c, w, s).mine
  {
    hide Invariant, R.Next, T.Next, T.Callable;
    match s
    case WouldBlock(addr, now) =>
      if c.ms.Some? {
        FreshCallable(w, addr);
        FiredGrows(w.log, T.DoAdd(addr, c.ms.value, Some(c.cb), false, now), a);
      }
    case OtherTimer(op) => FiredGrows(w.log, op, a);
    case GiveUp => CancelFires(w, a);
    case CancelTimer => CancelFires(w, a);
    case _ =>
  }

  lemma FreshCallable(w: Wait, a: nat)
    requires a !in w.log.book.recs
    ensures forall ms, cb, r, now :: T.Callable(w.log, T.DoAdd(a, ms, cb, r, now))
  {
  }

  lemma CancelFires(w: Wait, a: nat)
    ensures CancelLocal(w).fired[a] == w.log.fired[a]
  {
  }

  lemma BlameKeeps(c: Call, w: Wait, s: Step)
    requires Invariant(c, w) && Enabled(c, w, s)
    ensures Blamed(Next(c, w, s))
  {
    var t := Next(c, w, s);
    if w.due > 0 || w.cancelled {
      var a :| a in w.mine && w.log.fired[a] > 0;
      StillFired(c, w, s, a);
      hide Books, HeldWhileParked, R.Next, T.Next, CancelLocal;
    } else {
      hide Books, HeldWhileParked, R.Next, T.Next, CancelLocal;
      if s.OtherTimer? && s.timerOp.DoExpire? && HarvestsMine(w, s.timerOp.now) {
        HarvestFires(w, s.timerOp.now);
      }
    }
  }

  // ----- where the fiber is held -----

  lemma TableReaches(c: Call, w: Wait, s: Step)
    requires Invariant(c, w) && Enabled(c, w, s) && (s.OtherIo? || s.CallbackCancel?)
    ensures HeldWhileParked(c, Next(c, w, s))
  {
    var op := if s.OtherIo? then s.tableOp else R.Cancel(c.fd, c.event, s.ok);
    TableKeeps(w.h, op, Fiber(c.me));
    CountGrows(w.h.io.queue, R.Next(w.h, op).io.queue, Fiber(c.me));
    if w.phase.Parked? && Count(w.h.io.queue, Fiber(c.me)) == w.resumed {
      HeldOrQueued(w.h, op, c.fd, c.event, Fiber(c.me));
    }
    hide R.Invariant, R.Next, T.Invariant, Count, HeldAt;
  }

  /** The registration puts the fiber into the context of its event. */
  lemma RegisterReaches(c: Call, w: Wait, s: Step)
    requires Invariant(c, w) && Enabled(c, w, s) && s.Register?
    ensures HeldWhileParked(c, Next(c, w, s))
  {
    hide T.Invariant, Books, R.Conserved;
    assert R.Invariant(w.h) by {
      BooksTable(c, w);
    }
    Registered(w.h, R.Add(c.fd, c.event, c.scheduler, Fiber(c.me), s.ok));
    hide R.Next, HeldAt;
  }

  lemma BooksTable(c: Call, w: Wait)
    requires Books(c, w)
    ensures R.Invariant(w.h) && T.Invariant(w.log)
  {
  }

  lemma Registered(h: R.History, op: R.Op)
    requires R.Invariant(h) && op.Add?
    ensures var t := R.Next(h, op); t.accepted != h.accepted ==> HeldAt(t.io, op.fd, op.event, op.c)
  {
    R.AddEventStep(h.io, op.fd, op.event, op.scheduler, op.c, op.ok);
    hide R.Agreed, R.Conserved, R.Step;
    R.HeldParking(op.scheduler, op.c);
  }

  lemma OthersReach(c: Call, w: Wait, s: Step)
    requires Invariant(c, w) && Enabled(c, w, s) && !s.OtherIo? && !s.CallbackCancel? && !s.Register?
    ensures HeldWhileParked(c, Next(c, w, s))
  {
    hide Books, T.Next, R.Next, HeldAt, Count, CancelLocal;
  }

  lemma NextKeeps(c: Call, w: Wait, s: Step)
    requires Invariant(c, w) && Enabled(c, w, s)
    ensures Invariant(c, Next(c, w, s))
  {
    BlameKeeps(c, w, s);
    hide Books, HeldWhileParked, Blamed, Next, Enabled;
    match s
    case Register(_) => RegisterKeeps(c, w, s); RegisterReaches(c, w, s);
    case WouldBlock(_, _) => StartTimerKeeps(c, w, s); OthersReach(c, w, s);
    case GiveUp => CancelLocalKeeps(c, w, s); OthersReach(c, w, s);
    case CancelTimer => CancelLocalKeeps(c, w, s); OthersReach(c, w, s);
    case OtherTimer(_) => OtherTimerKeeps(c, w, s); OthersReach(c, w, s);
    case OtherIo(_) => TableStepKeeps(c, w, s); TableReaches(c, w, s);
    case CallbackCancel(_) => TableStepKeeps(c, w, s); TableReaches(c, w, s);
    case Try => LocalStepKeeps(c, w, s); OthersReach(c, w, s);
    case Interrupted => LocalStepKeeps(c, w, s); OthersReach(c, w, s);
    case Wake => LocalStepKeeps(c, w, s); OthersReach(c, w, s);
    case Check => LocalStepKeeps(c, w, s); OthersReach(c, w, s);
    case CallbackFlag => LocalStepKeeps(c, w, s); OthersReach(c, w, s);
  }

  // ----- runs -----

  ghost predicate Possible(c: Call, w: Wait, steps: seq<Step>)
    requires Invariant(c, w)
    decreases |steps|
  {
    steps == [] ||
    (&& Enabled(c, w, steps[0])
     && (NextKeeps(c, w, steps[0]); Possible(c, Next(c, w, steps[0]), steps[1..])))
  }

  ghost function Run(c: Call, w: Wait, steps: seq<Step>): Wait
    requires Invariant(c, w) && Possible(c, w, steps)
    decreases |steps|
  {
    if steps == [] then w
    else
      NextKeeps(c, w, steps[0]);
      Run(c, Next(c, w, steps[0]), steps[1..])
  }

  lemma {:induction false} RunKeeps(c: Call, w: Wait, steps: seq<Step>)
    requires Invariant(c, w) && Possible(c, w, steps)
    ensures Invariant(c, Run(c, w, steps))
    decreases |steps|
  {
    hide Invariant, Enabled, Next;
    if steps != [] {
      NextKeeps(c, w, steps[0]);
      RunKeeps(c, Next(c, w, steps[0]), steps[1..]);
    }
  }

  /** A call begins: this fiber has no wake-up outstanding, and no timer of the call exists. */
  ghost predicate Begins(c: Call, w: Wait) {
    && R.Invariant(w.h) && T.Invariant(w.log)
    && w.phase.Trying? && w.timer.None? && w.mine == {} && w.due == 0 && !w.cancelled && !w.firing
    && w.h.dropped[Fiber(c.me)] == 0
    && w.h.accepted[Fiber(c.me)] == w.resumed == Count(w.h.io.queue, Fiber(c.me))
  }

  /** Whatever happens around a call, readiness and timeouts in any order: between the successful
      registrations and the wake-ups of the fiber the account is exact. It is queued at most once per
      registration; when it is not parked, each registration has queued it exactly once and nothing of
      it is left in the table; and when the call has returned, no timer it made is in `timers_`. */
  lemma WaitIsExact(c: Call, w: Wait, steps: seq<Step>)
    requires Begins(c, w)
    ensures Invariant(c, w)
    ensures Possible(c, w, steps) ==>
              var r := Run(c, w, steps);
              var queued := Count(r.h.io.queue, Fiber(c.me));
              && r.resumed <= queued <= r.h.accepted[Fiber(c.me)] <= r.resumed + 1
              && (!r.phase.Parked? ==>
                   && queued == r.h.accepted[Fiber(c.me)] == r.resumed
                   && R.AllParked(r.h.io.chans)[Fiber(c.me)] == 0)
              && (r.phase.Returned? ==> forall a :: a in r.mine ==> a !in r.log.book.order)
              && (r.phase == Returned(TimedOut) ==> exists a :: a in r.mine && r.log.fired[a] == 1)
  {
    assert Invariant(c, w);
    if Possible(c, w, steps) {
      var r := Run(c, w, steps);
      RunKeeps(c, w, steps);
      Account(r.h, Fiber(c.me));
      if r.phase.Returned? {
        forall a | a in r.mine
          ensures a !in r.log.book.order
        {
          assert MyTimer(c, r, a);
        }
      }
      FiredOnce(c, r);
    }
  }

  /** A timer of the call that has fired has fired once and is not pending. */
  lemma FiredOnce(c: Call, w: Wait)
    requires Invariant(c, w)
    ensures forall a :: a in w.mine && w.log.fired[a] > 0 ==> w.log.fired[a] == 1 && a !in w.log.book.order
  {
    forall a | a in w.mine && w.log.fired[a] > 0
      ensures w.log.fired[a] == 1 && a !in w.log.book.order
    {
      assert MyTimer(c, w, a) && T.Alive(w.log, a);
    }
  }

  lemma Account(h: R.History, x: Continuation)
    requires R.Invariant(h)
    ensures h.accepted[x] == R.AllParked(h.io.chans)[x] + Count(h.io.queue, x) + h.dropped[x]
  {
  }

  /** When the fiber resumes, its registration is gone: the context of its event does not hold it. */
  lemma {:induction false} NotParkedNotHeld(chans: seq<Chan>, x: Continuation, fd: nat, e: Event)
    requires R.AllParked(chans)[x] == 0 && fd < |chans|
    ensures Held(chans[fd].Ctx(e))[x] == 0
  {
    hide Held;
    if fd > 0 {
      NotParkedNotHeld(chans[1..], x, fd - 1, e);
    }
  }

  /** And its interest bit is clear, unless someone else has registered for the event since. */
  lemma BitClearAfterWake(c: Call, w: Wait)
    requires Invariant(c, w) && !w.phase.Parked? && c.fd < |w.h.io.chans|
    ensures var ch := w.h.io.chans[c.fd];
            ch.events.Has(c.event) ==>
              Occupied(ch.Ctx(c.event)) && Held(ch.Ctx(c.event))[Fiber(c.me)] == 0 && |Held(ch.Ctx(c.event))| == 1
  {
    Account(w.h, Fiber(c.me));
    NotParkedNotHeld(w.h.io.chans, Fiber(c.me), c.fd, c.event);
    assert w.h.io.chans[c.fd].Consistent();
    HeldIsScheduled(w.h.io.chans[c.fd].Ctx(c.event));
  }
}
