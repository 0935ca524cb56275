/** The timers without the ordered set: a map of the pending ones, each with the time it was started at.
    Every run of `easy/base/Timer.cc` is a run of this. */
module SimpleTimers {
  import opened Options
  import opened TimerBook
  import opened TimerRuns

  /** A pending timer expires one interval (in milliseconds) after it was started. */
  datatype Pending = Pending(repeat: bool, interval: int, since: int, cb: Option<nat>) {
    function At(): int {
      since + interval * 1000
    }
  }

  /** `previous` is the clock reading of the last tick that found a timer. */
  datatype Simple = Simple(pending: map<nat, Pending>, previous: int)

  predicate IsDue(s: Simple, a: nat, now: int)
    requires a in s.pending
  {
    s.pending[a].At() <= now || now < s.previous - 3600 * 1000
  }

  /** The operations: a timer without a callback can only expire. */
  function Do(s: Simple, op: Op): Simple {
    match op
    case DoAdd(a, interval, cb, repeat, now) => s.(pending := s.pending[a := Pending(repeat, interval, now, cb)])
    case DoCancel(a) =>
      if a in s.pending && s.pending[a].cb.Some? then s.(pending := s.pending - {a}) else s
    case DoRefresh(a, now) =>
      if a in s.pending && s.pending[a].cb.Some? then s.(pending := s.pending[a := s.pending[a].(since := now)]) else s
    case DoReset(a, interval, fromNow, now) =>
      if a in s.pending && s.pending[a].cb.Some? then
        var p := s.pending[a];
        s.(pending := s.pending[a := p.(interval := interval, since := if fromNow then now else p.since)])
      else s
    case DoExpire(now) =>
      if s.pending == map[] then s
      else
        Simple(map a | a in s.pending && (s.pending[a].repeat || !IsDue(s, a, now)) ::
                 if IsDue(s, a, now) then s.pending[a].(since := now) else s.pending[a],
               now)
  }

  /** The set holds the pending timers, each with its members. */
  ghost predicate Refines(b: Book, s: Simple) {
    && b.previous == s.previous
    && (forall a :: a in b.order <==> a in s.pending)
    && (forall a :: a in s.pending ==> a in b.recs && Matches(b.recs[a], s.pending[a]))
  }

  predicate Matches(rec: Rec, p: Pending) {
    rec.repeat == p.repeat && rec.interval == p.interval && rec.expiration == p.At() && rec.cb == p.cb
  }

  // ----- one operation -----

  /** An operation on one timer. */
  lemma OneRefines(b: Book, t: Book, s: Simple, a: nat, p: Option<Pending>)
    requires Refines(b, s) && OnlyTimer(b, t, a)
    requires if p.Some? then a in t.order && a in t.recs && Matches(t.recs[a], p.value) else a !in t.order
    ensures Refines(t, s.(pending := if p.Some? then s.pending[a := p.value] else s.pending - {a}))
  {
    hide Matches;
  }

  lemma AddRefines(b: Book, s: Simple, op: Op)
    requires WellFormed(b) && Refines(b, s) && op.DoAdd? && op.a !in b.recs
    ensures Refines(Add(b, op.a, op.interval, op.cb, op.repeat, op.now), Do(s, op))
  {
    hide Add, WellFormed, Refines, OnlyTimer;
    AddKeeps(b, op.a, op.interval, op.cb, op.repeat, op.now);
    OneRefines(b, Add(b, op.a, op.interval, op.cb, op.repeat, op.now), s, op.a,
               Some(Pending(op.repeat, op.interval, op.now, op.cb)));
  }

  /** What is known of the timer of an operation. */
  lemma KnownTimer(b: Book, s: Simple, a: nat)
    requires WellFormed(b) && Refines(b, s) && a in b.recs
    ensures a in s.pending && s.pending[a].cb.Some? <==> b.recs[a].cb.Some?
    ensures a in s.pending ==> Matches(b.recs[a], s.pending[a])
  {
  }

  lemma CancelRefines(b: Book, s: Simple, op: Op)
    requires WellFormed(b) && Refines(b, s) && op.DoCancel? && op.a in b.recs
    ensures Refines(Cancel(b, op.a).0, Do(s, op))
  {
    CancelKeeps(b, op.a);
    KnownTimer(b, s, op.a);
    hide Cancel, WellFormed, Refines, OnlyTimer;
    if b.recs[op.a].cb.Some? {
      OneRefines(b, Cancel(b, op.a).0, s, op.a, None);
    }
  }

  lemma RefreshRefines(b: Book, s: Simple, op: Op)
    requires WellFormed(b) && Refines(b, s) && op.DoRefresh? && op.a in b.recs
    ensures Refines(Refresh(b, op.a, op.now).0, Do(s, op))
  {
    RefreshKeeps(b, op.a, op.now);
    KnownTimer(b, s, op.a);
    hide Refresh, WellFormed, Refines, OnlyTimer;
    if b.recs[op.a].cb.Some? {
      OneRefines(b, Refresh(b, op.a, op.now).0, s, op.a, Some(s.pending[op.a].(since := op.now)));
    }
  }

  lemma ResetRefines(b: Book, s: Simple, op: Op)
    requires WellFormed(b) && Refines(b, s) && op.DoReset? && op.a in b.recs
    ensures Refines(Reset(b, op.a, op.interval, op.fromNow, op.now).0, Do(s, op))
  {
    ResetKeeps(b, op.a, op.interval, op.fromNow, op.now);
    KnownTimer(b, s, op.a);
    hide Reset, WellFormed, Refines, OnlyTimer;
    if b.recs[op.a].cb.Some? {
      var p := s.pending[op.a];
      if op.interval == p.interval && !op.fromNow {
        assert s.pending[op.a := p] == s.pending;
      } else {
        OneRefines(b, Reset(b, op.a, op.interval, op.fromNow, op.now).0, s, op.a,
                   Some(p.(interval := op.interval, since := if op.fromNow then op.now else p.since)));
      }
    }
  }

  lemma ExpireRefines(b: Book, s: Simple, op: Op)
    requires WellFormed(b) && Refines(b, s) && op.DoExpire?
    ensures Refines(Tick(b, op.now).0, Do(s, op))
  {
    if b.order == [] {
      EmptyTick(b, op.now);
      assert s.pending == map[];
    } else {
      assert b.order[0] in s.pending;
      TickPrevious(b, op.now);
      assert Do(s, op).previous == op.now;
      var t, u := Tick(b, op.now).0, Do(s, op);
      hide Tick, WellFormed, Do, Matches;
      forall a
        ensures a in t.order <==> a in u.pending
        ensures a in u.pending ==> a in t.recs && Matches(t.recs[a], u.pending[a])
      {
        OneTicks(b, s, op, a);
      }
    }
  }

  lemma TickPrevious(b: Book, now: int)
    requires WellFormed(b) && b.order != []
    ensures Tick(b, now).0.previous == now
  {
    ExpireExact(b.(armed := None), now);
  }

  ghost predicate TickedAt(t: Book, u: Simple, a: nat) {
    && (a in t.order <==> a in u.pending)
    && (a in u.pending ==> a in t.recs && Matches(t.recs[a], u.pending[a]))
  }

  lemma OneTicks(b: Book, s: Simple, op: Op, a: nat)
    requires WellFormed(b) && Refines(b, s) && op.DoExpire? && b.order != [] && s.pending != map[]
    ensures TickedAt(Tick(b, op.now).0, Do(s, op), a)
  {
    var t, n := Tick(b, op.now).0, Harvested(b, op.now);
    TickExact(b, op.now);
    HarvestIsDue(b, s, op.now);
    if a in s.pending {
      assert a in b.recs && Matches(b.recs[a], s.pending[a]);
      var rec := b.recs[a];
      assert a in b.order[..n] <==> IsDue(s, a, op.now);
      assert a in t.order <==> !IsDue(s, a, op.now) || rec.repeat;
      assert t.recs[a] == if !IsDue(s, a, op.now) then rec
                          else if rec.repeat then rec.(expiration := op.now + rec.interval * 1000)
                          else rec.(cb := None);
      hide Tick, WellFormed, Harvested, IsDue, Refines;
    } else {
      assert a !in b.order[..n] && a !in b.order[n..];
      hide Tick, WellFormed, Harvested, IsDue;
    }
  }

  /** The harvested timers are the due ones. */
  lemma HarvestIsDue(b: Book, s: Simple, now: int)
    requires WellFormed(b) && Refines(b, s) && b.order != []
    ensures forall a :: a in s.pending ==> (a in b.order[..Harvested(b, now)] <==> IsDue(s, a, now))
    ensures forall a :: a in s.pending ==> (a in b.order[Harvested(b, now)..] <==> !IsDue(s, a, now))
  {
    ExpireExact(b, now);
    hide Expire, Harvested;
    var n := Harvested(b, now);
    forall a | a in s.pending
      ensures a in b.order[..n] <==> IsDue(s, a, now)
      ensures a in b.order[n..] <==> !IsDue(s, a, now)
    {
      OnceInPrefix(b.recs, b.order, n, a);
      var i :| 0 <= i < |b.order| && b.order[i] == a;
      if i < n {
        assert b.order[..n][i] == a;
      } else {
        assert b.order[n..][i - n] == a;
      }
    }
  }

  // ----- runs -----

  lemma NextRefines(l: Log, op: Op, s: Simple)
    requires Invariant(l) && Callable(l, op) && Refines(l.book, s)
    ensures Refines(TimerRuns.Next(l, op).book, Do(s, op))
  {
    hide Add, Cancel, Refresh, Reset, Tick, Do, Refines, Alive;
    match op
    case DoAdd(_, _, _, _, _) => AddRefines(l.book, s, op);
    case DoCancel(_) => CancelRefines(l.book, s, op);
    case DoRefresh(_, _) => RefreshRefines(l.book, s, op);
    case DoReset(_, _, _, _) => ResetRefines(l.book, s, op);
    case DoExpire(_) => ExpireRefines(l.book, s, op);
  }

  /** The same operations on the map; those that cannot be called are skipped. */
  ghost function DoAll(l: Log, ops: seq<Op>, s: Simple): Simple
    requires Invariant(l)
    decreases |ops|
  {
    if ops == [] then s
    else
      NextInvariant(l, ops[0]);
      if Callable(l, ops[0]) then DoAll(TimerRuns.Next(l, ops[0]), ops[1..], Do(s, ops[0])) else DoAll(l, ops[1..], s)
  }

  lemma {:induction false} RunRefines(l: Log, ops: seq<Op>, s: Simple)
    requires Invariant(l) && Refines(l.book, s)
    ensures Refines(TimerRuns.Run(l, ops).book, DoAll(l, ops, s))
    decreases |ops|
  {
    hide Invariant, Refines, Do, TimerRuns.Next, Callable;
    if ops != [] {
      NextInvariant(l, ops[0]);
      if Callable(l, ops[0]) {
        NextRefines(l, ops[0], s);
        RunRefines(TimerRuns.Next(l, ops[0]), ops[1..], Do(s, ops[0]));
      } else {
        RunRefines(l, ops[1..], s);
      }
    }
  }

  /** Every run, with any clock readings, is one of the simple timers. */
  lemma TimersAreSimple(now: int, ops: seq<Op>)
    ensures Invariant(TimerRuns.Start(now))
    ensures Refines(TimerRuns.Run(TimerRuns.Start(now), ops).book,
                    DoAll(TimerRuns.Start(now), ops, Simple(map[], now)))
  {
    StartInvariant(now);
    RunRefines(TimerRuns.Start(now), ops, Simple(map[], now));
  }
}
