/** Whole runs of the timer operations: the life of a timer across any mix of additions, cancels,
    refreshes, resets, expiries, and clock readings in any order. */
module TimerRuns {
  import opened Options
  import opened TimerBook

  datatype Op =
    | DoAdd(a: nat, interval: int, cb: Option<nat>, repeat: bool, now: int)
    | DoCancel(a: nat)
    | DoRefresh(a: nat, now: int)
    | DoReset(a: nat, interval: int, fromNow: bool, now: int)
    | DoExpire(now: int)   // the timerfd fires, and the callbacks are listed

  /** The timers with, per timer, how often its callback was emitted and how often `cancel` on it
      returned true, and the emitted callbacks in order. */
  datatype Log = Log(book: Book, fired: multiset<nat>, cancelled: multiset<nat>, emitted: seq<Option<nat>>)

  /** A new timer has a new address, and the other calls are made on timers that exist. */
  predicate Callable(l: Log, op: Op) {
    match op
    case DoAdd(a, _, _, _, _) => a !in l.book.recs
    case DoCancel(a) => a in l.book.recs
    case DoRefresh(a, _) => a in l.book.recs
    case DoReset(a, _, _, _) => a in l.book.recs
    case DoExpire(_) => forall a :: a in l.book.order ==> a in l.book.recs
  }

  function Next(l: Log, op: Op): Log
    requires Callable(l, op)
  {
    match op
    case DoAdd(a, interval, cb, repeat, now) => l.(book := Add(l.book, a, interval, cb, repeat, now))
    case DoCancel(a) =>
      var (t, done) := Cancel(l.book, a);
      l.(book := t, cancelled := if done then l.cancelled + multiset{a} else l.cancelled)
    case DoRefresh(a, now) => l.(book := Refresh(l.book, a, now).0)
    case DoReset(a, interval, fromNow, now) => l.(book := Reset(l.book, a, interval, fromNow, now).0)
    case DoExpire(now) =>
      var (t, cbs) := Tick(l.book, now);
      var harvested := if l.book.order == [] then [] else l.book.order[..Harvested(l.book, now)];
      l.(book := t, fired := l.fired + multiset(harvested), emitted := l.emitted + cbs)
  }

  function Ones(b: bool): nat {
    if b then 1 else 0
  }

  /** Where a timer is in its life. A one-shot with a callback is pending, has fired once, or was
      cancelled; a repeater with a callback is pending or was cancelled; nothing is known to have
      happened to an address before a timer is made there. */
  ghost predicate Alive(l: Log, a: nat) {
    if a !in l.book.recs then l.fired[a] == 0 && l.cancelled[a] == 0
    else
      var rec, pending := l.book.recs[a], Ones(a in l.book.order);
      && (rec.made.Some? && !rec.repeat ==> pending + l.fired[a] + l.cancelled[a] == 1)
      && (rec.made.Some? && rec.repeat ==> pending + l.cancelled[a] == 1)
      && (rec.made.None? ==> l.cancelled[a] == 0)
  }

  ghost predicate Invariant(l: Log) {
    WellFormed(l.book) && forall a :: Alive(l, a)
  }

  /** The life of one timer does not depend on what happens to others. */
  lemma SameLife(l: Log, t: Log, a: nat)
    requires Alive(l, a)
    requires a in l.book.recs <==> a in t.book.recs
    requires a in l.book.recs ==>
               l.book.recs[a].made == t.book.recs[a].made && l.book.recs[a].repeat == t.book.recs[a].repeat
    requires a in l.book.order <==> a in t.book.order
    requires l.fired[a] == t.fired[a] && l.cancelled[a] == t.cancelled[a]
    ensures Alive(t, a)
  {
  }

  lemma AddLife(l: Log, op: Op)
    requires Invariant(l) && op.DoAdd? && Callable(l, op)
    ensures Invariant(Next(l, op))
  {
    AddKeeps(l.book, op.a, op.interval, op.cb, op.repeat, op.now);
    var t := Next(l, op);
    InsertSorts(t.book.recs, l.book.order, op.a) by {
      SortedFrame(l.book.recs, t.book.recs, l.book.order);
    }
    forall a
      ensures Alive(t, a)
    {
      assert Alive(l, a);
    }
  }

  lemma CancelLife(l: Log, op: Op)
    requires Invariant(l) && op.DoCancel? && Callable(l, op)
    ensures Invariant(Next(l, op))
  {
    CancelKeeps(l.book, op.a);
    RemoveSorts(l.book.recs, l.book.order, op.a);
    var t := Next(l, op);
    forall a
      ensures Alive(t, a)
    {
      assert Alive(l, a);
      assert (l.cancelled + multiset{op.a})[a] == l.cancelled[a] + Ones(a == op.a);
    }
  }

  lemma MoveLife(l: Log, op: Op)
    requires Invariant(l) && (op.DoRefresh? || op.DoReset?) && Callable(l, op)
    ensures Invariant(Next(l, op))
  {
    hide Insert, Remove;
    var t := Next(l, op);
    var rec := l.book.recs[op.a];
    if op.DoRefresh? {
      RefreshKeeps(l.book, op.a, op.now);
      if op.a in l.book.order {
        MoveSorts(l.book, op.a, rec.(expiration := AddTime(op.now, rec.interval)));
      }
    } else {
      ResetKeeps(l.book, op.a, op.interval, op.fromNow, op.now);
      if op.a in l.book.order {
        var start := if op.fromNow then op.now else AddTime(rec.expiration, -rec.interval);
        MoveSorts(l.book, op.a, rec.(interval := op.interval, expiration := AddTime(start, op.interval)));
      }
    }
    forall a
      ensures Alive(t, a)
    {
      SameLife(l, t, a);
    }
  }

  lemma ExpireLife(l: Log, op: Op)
    requires Invariant(l) && op.DoExpire? && Callable(l, op) && l.book.order != []
    ensures Invariant(Next(l, op))
  {
    hide Tick, Harvested;
    TickExact(l.book, op.now);
    var b, t, n := l.book, Next(l, op), Harvested(l.book, op.now);
    forall a
      ensures Alive(t, a)
    {
      assert Alive(l, a);
      OnceInPrefix(b.recs, b.order, n, a);
      assert t.fired[a] == l.fired[a] + Ones(a in b.order[..n]);
    }
  }

  lemma OnceInPrefix(recs: map<nat, Rec>, order: seq<nat>, n: nat, a: nat)
    requires Sorted(recs, order) && n <= |order|
    ensures multiset(order[..n])[a] == Ones(a in order[..n])
    ensures a in order <==> a in order[..n] || a in order[n..]
    ensures !(a in order[..n] && a in order[n..])
  {
    assert order == order[..n] + order[n..];
    CountSorted(recs, order[..n], a);
  }

  lemma {:induction false} CountSorted(recs: map<nat, Rec>, order: seq<nat>, a: nat)
    requires Sorted(recs, order)
    ensures multiset(order)[a] == Ones(a in order)
  {
    if order != [] {
      var front, last := order[..|order| - 1], order[|order| - 1];
      assert order == front + [last];
      CountSorted(recs, front, a);
    }
  }

  /** Every operation keeps the invariant. */
  lemma NextInvariant(l: Log, op: Op)
    requires Invariant(l)
    ensures Callable(l, op) ==> Invariant(Next(l, op))
  {
    if Callable(l, op) {
      match op
      case DoAdd(_, _, _, _, _) => AddLife(l, op);
      case DoCancel(_) => CancelLife(l, op);
      case DoRefresh(_, _) => MoveLife(l, op);
      case DoReset(_, _, _, _) => MoveLife(l, op);
      case DoExpire(now) =>
        if l.book.order != [] {
          ExpireLife(l, op);
        } else {
          forall a
            ensures Alive(Next(l, op), a)
          {
            SameLife(l, Next(l, op), a);
          }
        }
    }
  }

  /** No operation brings a known timer back into the set, or changes what it was made with. */
  lemma NextOrder(l: Log, op: Op, a: nat)
    requires Invariant(l) && Callable(l, op) && a in l.book.recs
    ensures var t := Next(l, op);
            && a in t.book.recs && t.book.recs[a].made == l.book.recs[a].made
            && t.book.recs[a].repeat == l.book.recs[a].repeat
            && (a in t.book.order ==> a in l.book.order)
  {
    hide Add, Cancel, Refresh, Reset, Tick, Alive, Sorted;
    var b := l.book;
    match op
    case DoAdd(c, interval, cb, repeat, now) => AddKeeps(b, c, interval, cb, repeat, now);
    case DoCancel(c) => CancelKeeps(b, c);
    case DoRefresh(c, now) => RefreshKeeps(b, c, now);
    case DoReset(c, interval, fromNow, now) => ResetKeeps(b, c, interval, fromNow, now);
    case DoExpire(now) => TickOrder(b, now);
  }

  lemma TickOrder(b: Book, now: int)
    requires WellFormed(b)
    ensures var t := Tick(b, now).0;
            && t.recs.Keys == b.recs.Keys
            && (forall a :: a in b.recs ==> t.recs[a].made == b.recs[a].made && t.recs[a].repeat == b.recs[a].repeat)
            && (forall a :: a in t.order ==> a in b.order)
  {
    if b.order != [] {
      TickExact(b, now);
      hide Tick, Harvested, WellFormed;
    } else {
      EmptyTick(b, now);
    }
  }

  /** Operations that cannot be called are skipped. */
  ghost function Run(l: Log, ops: seq<Op>): (r: Log)
    requires Invariant(l)
    ensures Invariant(r)
    decreases |ops|
  {
    if ops == [] then l
    else
      NextInvariant(l, ops[0]);
      Run(if Callable(l, ops[0]) then Next(l, ops[0]) else l, ops[1..])
  }

  /** A manager made at `now`. */
  function Start(now: int): Log {
    Log(Book(map[], [], now, None), multiset{}, multiset{}, [])
  }

  lemma StartInvariant(now: int)
    ensures Invariant(Start(now))
  {
  }

  /** In every reachable state `timers_` is strictly sorted, holds a timer made with a callback exactly
      while `cb_` is set, and each one-shot is pending, fired once, or cancelled: exactly one. */
  lemma OneShotLifecycle(now: int, ops: seq<Op>, a: nat)
    ensures Invariant(Start(now))
    ensures var l := Run(Start(now), ops);
            && WellFormed(l.book)
            && (a in l.book.recs && l.book.recs[a].made.Some? && !l.book.recs[a].repeat ==>
                 Ones(a in l.book.order) + l.fired[a] + l.cancelled[a] == 1)
  {
    assert Alive(Run(Start(now), ops), a);
  }

  /** Once `cancel` has returned true, the callback is never emitted again and no later `cancel`
      returns true, whatever follows. */
  lemma {:induction false} CancelledIsFinal(l: Log, ops: seq<Op>, a: nat)
    requires Invariant(l) && l.cancelled[a] >= 1
    ensures Run(l, ops).fired[a] == l.fired[a] && Run(l, ops).cancelled[a] == l.cancelled[a] == 1
    decreases |ops|
  {
    assert Alive(l, a);
    if ops != [] {
      NextInvariant(l, ops[0]);
      if Callable(l, ops[0]) {
        CancelledStays(l, ops[0], a);
        CancelledIsFinal(Next(l, ops[0]), ops[1..], a);
      } else {
        CancelledIsFinal(l, ops[1..], a);
      }
    }
  }

  lemma CancelledStays(l: Log, op: Op, a: nat)
    requires Invariant(l) && l.cancelled[a] >= 1 && Callable(l, op)
    ensures Next(l, op).fired[a] == l.fired[a] && Next(l, op).cancelled[a] == l.cancelled[a]
  {
    assert Alive(l, a);
    match op
    case DoExpire(now) =>
      if l.book.order != [] {
        OnceInPrefix(l.book.recs, l.book.order, Harvested(l.book, now), a);
      }
    case DoCancel(c) =>
      assert (l.cancelled + multiset{c})[a] == l.cancelled[a] + Ones(a == c);
    case _ =>
  }

  /** An expiry emits, for each timer it fires, the callback that timer was made with. */
  lemma EmitsWhatWasMade(l: Log, now: int)
    requires Invariant(l) && l.book.order != []
    ensures Callable(l, DoExpire(now))
    ensures var t, n := Next(l, DoExpire(now)), Harvested(l.book, now);
            && |t.emitted| == |l.emitted| + n && t.emitted[..|l.emitted|] == l.emitted
            && (forall i :: 0 <= i < n ==> t.emitted[|l.emitted| + i] == l.book.recs[l.book.order[i]].made)
            && t.fired == l.fired + multiset(l.book.order[..n])
  {
    hide Tick, Harvested;
    TickExact(l.book, now);
  }

  // ----- periods -----

  /** The interval each timer was given by `addTimer`, or by a `reset` that returned true. */
  function GivenAfter(l: Log, op: Op, given: map<nat, int>): map<nat, int>
    requires Callable(l, op)
  {
    match op
    case DoAdd(a, interval, _, _, _) => given[a := interval]
    case DoReset(a, interval, fromNow, now) =>
      if Reset(l.book, a, interval, fromNow, now).1 then given[a := interval] else given
    case _ => given
  }

  ghost function Given(l: Log, ops: seq<Op>, given: map<nat, int>): map<nat, int>
    requires Invariant(l)
    decreases |ops|
  {
    if ops == [] then given
    else
      NextInvariant(l, ops[0]);
      if Callable(l, ops[0]) then Given(Next(l, ops[0]), ops[1..], GivenAfter(l, ops[0], given))
      else Given(l, ops[1..], given)
  }

  ghost predicate AsGiven(b: Book, given: map<nat, int>) {
    forall a :: a in b.recs ==> a in given && b.recs[a].interval == given[a]
  }

  lemma NextAsGiven(l: Log, op: Op, given: map<nat, int>)
    requires Invariant(l) && Callable(l, op) && AsGiven(l.book, given)
    ensures AsGiven(Next(l, op).book, GivenAfter(l, op, given))
  {
    hide Add, Cancel, Refresh, Reset, Tick, Alive, AsGiven, OnlyTimer;
    var b := l.book;
    match op
    case DoAdd(a, interval, cb, repeat, now) =>
      AddKeeps(b, a, interval, cb, repeat, now);
      OneGiven(b, Add(b, a, interval, cb, repeat, now), a, given, interval);
    case DoCancel(a) =>
      CancelKeeps(b, a);
      SameGiven(b, Cancel(b, a).0, a, given);
    case DoRefresh(a, now) =>
      RefreshKeeps(b, a, now);
      SameGiven(b, Refresh(b, a, now).0, a, given);
    case DoReset(a, interval, fromNow, now) =>
      ResetKeeps(b, a, interval, fromNow, now);
      if Reset(b, a, interval, fromNow, now).1 {
        OneGiven(b, Reset(b, a, interval, fromNow, now).0, a, given, interval);
      }
    case DoExpire(now) => TickGiven(b, now, given);
  }

  lemma OneGiven(b: Book, t: Book, a: nat, given: map<nat, int>, interval: int)
    requires AsGiven(b, given) && OnlyTimer(b, t, a) && a in t.recs && t.recs[a].interval == interval
    ensures AsGiven(t, given[a := interval])
  {
  }

  lemma SameGiven(b: Book, t: Book, a: nat, given: map<nat, int>)
    requires AsGiven(b, given) && OnlyTimer(b, t, a)
    requires a in b.recs && a in t.recs && t.recs[a].interval == b.recs[a].interval
    ensures AsGiven(t, given)
  {
  }

  lemma TickGiven(b: Book, now: int, given: map<nat, int>)
    requires WellFormed(b) && AsGiven(b, given)
    ensures AsGiven(Tick(b, now).0, given)
  {
    if b.order != [] {
      TickExact(b, now);
      hide Tick, Harvested, WellFormed;
    } else {
      EmptyTick(b, now);
    }
  }

  /** Through every run a timer's interval is the one it was given last. */
  lemma {:induction false} IntervalsAsGiven(l: Log, ops: seq<Op>, given: map<nat, int>)
    requires Invariant(l) && AsGiven(l.book, given)
    ensures AsGiven(Run(l, ops).book, Given(l, ops, given))
    decreases |ops|
  {
    hide Invariant, AsGiven, Next, Callable;
    if ops != [] {
      NextInvariant(l, ops[0]);
      if Callable(l, ops[0]) {
        NextAsGiven(l, ops[0], given);
        IntervalsAsGiven(Next(l, ops[0]), ops[1..], GivenAfter(l, ops[0], given));
      } else {
        IntervalsAsGiven(l, ops[1..], given);
      }
    }
  }

  /** After any run, a repeater that is due when the timerfd fires at `now` is pending again, one given
      interval (in milliseconds) after `now`. */
  lemma RepeaterIsPutBack(start: int, ops: seq<Op>, now: int, a: nat)
    ensures Invariant(Start(start))
    ensures var l, given := Run(Start(start), ops), Given(Start(start), ops, map[]);
            && Callable(l, DoExpire(now))
            && (a in l.book.order && a in l.book.recs && l.book.recs[a].repeat && l.book.recs[a].expiration <= now ==>
                 var t := Next(l, DoExpire(now)).book;
                 && a in t.order && a in t.recs && a in given
                 && t.recs[a].expiration == now + given[a] * 1000)
  {
    StartInvariant(start);
    IntervalsAsGiven(Start(start), ops, map[]);
    var l := Run(Start(start), ops);
    hide Run, Given, Alive, Tick, Harvested;
    if a in l.book.order && l.book.recs[a].expiration <= now {
      DueIsHarvested(l.book, a, now);
      TickExact(l.book, now);
    }
  }

  // ----- arming over runs -----

  /** The clock reading of an operation; `cancel` takes none. */
  function Clock(op: Op, clock: int): int {
    if op.DoCancel? then clock else op.now
  }

  /** A clock that does not go back, and every tick harvests a timer and leaves the set empty or with a
      positive expiration first; the other ticks are those of `TickArms`. */
  ghost predicate Forward(l: Log, ops: seq<Op>, clock: int)
    requires Invariant(l)
    decreases |ops|
  {
    ops == [] ||
    (&& clock <= Clock(ops[0], clock)
     && (ops[0].DoExpire? ==> Rearms(l.book, ops[0].now))
     && (NextInvariant(l, ops[0]);
         Forward(if Callable(l, ops[0]) then Next(l, ops[0]) else l, ops[1..], Clock(ops[0], clock))))
  }

  function LastClock(ops: seq<Op>, clock: int): int {
    if ops == [] then clock else LastClock(ops[1..], Clock(ops[0], clock))
  }

  /** Through such a run, ticks included, the timerfd stays set for no later than the earliest pending
      timer. */
  lemma {:induction false} StaysArmed(l: Log, ops: seq<Op>, clock: int)
    requires Invariant(l) && Armed(l.book, clock) && Forward(l, ops, clock)
    ensures Armed(Run(l, ops).book, LastClock(ops, clock))
    decreases |ops|
  {
    hide Armed, Rearms, Next, Invariant;
    if ops != [] {
      var op, now := ops[0], Clock(ops[0], clock);
      NextInvariant(l, op);
      if Callable(l, op) {
        NextArms(l, op, clock);
        StaysArmed(Next(l, op), ops[1..], now);
      } else {
        SameArmed(l.book, clock, now);
        StaysArmed(l, ops[1..], now);
      }
    }
  }

  lemma SameArmed(b: Book, clock: int, now: int)
    requires Armed(b, clock) && clock <= now
    ensures Armed(b, now)
  {
  }

  lemma NextArms(l: Log, op: Op, clock: int)
    requires Invariant(l) && Armed(l.book, clock) && Callable(l, op) && clock <= Clock(op, clock)
    requires op.DoExpire? ==> Rearms(l.book, op.now)
    ensures Armed(Next(l, op).book, Clock(op, clock))
  {
    match op
    case DoAdd(a, interval, cb, repeat, now) => AddArms(l.book, clock, a, interval, cb, repeat, now);
    case DoCancel(a) => CancelArms(l.book, clock, a);
    case DoRefresh(a, now) => RefreshArms(l.book, clock, a, now);
    case DoReset(a, interval, fromNow, now) => ResetArms(l.book, clock, a, interval, fromNow, now);
    case DoExpire(now) => TickRearms(l.book, clock, now);
  }
}
