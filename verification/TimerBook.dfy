/** Timers as values (`easy/base/Timer.cc`): records by identity, and the ordered set `timers_` as the
    sequence of the identities in it.

    Times are microseconds, intervals milliseconds. An identity stands for a timer's address, which
    breaks ties between equal expirations. Every operation holds the manager's lock and is one step;
    the clock reading is an argument. */
module TimerBook {
  import opened Options

  /** `made` is the callback the timer was made with, if any; `cb`, the member, is cleared later. */
  datatype Rec = Rec(repeat: bool, interval: int, expiration: int, cb: Option<nat>, made: Option<nat>)

  /** `armed` is the last expiration passed to `resetTimerfd`. */
  datatype Book = Book(recs: map<nat, Rec>, order: seq<nat>, previous: int, armed: Option<int>)

  /** `addTime`. */
  function AddTime(t: int, ms: int): int {
    t + ms * 1000
  }

  function Expiration(recs: map<nat, Rec>, a: nat): int {
    if a in recs then recs[a].expiration else 0
  }

  // ----- the comparator -----

  /** A `Timer::ptr` as the comparator sees it: null, or an expiration and an address. */
  datatype Key = Null | At(expiration: int, addr: nat)

  /** `Timer::Comparator`. */
  predicate Less(l: Key, r: Key) {
    if l.Null? && r.Null? then false
    else if l.Null? then true
    else if r.Null? then false
    else if l.expiration < r.expiration then true
    else if r.expiration < l.expiration then false
    else l.addr < r.addr
  }

  /** The comparator is a strict total order, as `std::set` demands: by expiration, then by address, with
      null first. */
  lemma LessIsStrictOrder(a: Key, b: Key, c: Key)
    ensures !Less(a, a)
    ensures a.At? && b.At? ==>
              (Less(a, b) <==> a.expiration < b.expiration || (a.expiration == b.expiration && a.addr < b.addr))
    ensures a.Null? && b.At? ==> Less(a, b)
    ensures Less(a, b) && Less(b, c) ==> Less(a, c)
    ensures Less(a, b) || a == b || Less(b, a)
  {
  }

  function KeyOf(recs: map<nat, Rec>, a: nat): Key {
    At(Expiration(recs, a), a)
  }

  predicate Before(recs: map<nat, Rec>, a: nat, b: nat) {
    Less(KeyOf(recs, a), KeyOf(recs, b))
  }

  // ----- the ordered set -----

  ghost predicate Sorted(recs: map<nat, Rec>, order: seq<nat>) {
    forall i, j :: 0 <= i < j < |order| ==> Before(recs, order[i], order[j])
  }

  function Insert(recs: map<nat, Rec>, order: seq<nat>, a: nat): seq<nat> {
    if order == [] then [a]
    else if Before(recs, order[0], a) then [order[0]] + Insert(recs, order[1..], a)
    else [a] + order
  }

  function Remove(order: seq<nat>, a: nat): (r: seq<nat>)
    ensures forall x :: x in r ==> x in order && x != a
  {
    if order == [] then []
    else if order[0] == a then Remove(order[1..], a)
    else [order[0]] + Remove(order[1..], a)
  }

  lemma SortedFrame(recs: map<nat, Rec>, recs': map<nat, Rec>, order: seq<nat>)
    requires Sorted(recs, order)
    requires forall x :: x in order ==> Expiration(recs, x) == Expiration(recs', x)
    ensures Sorted(recs', order)
  {
  }

  lemma {:induction false} InsertSorts(recs: map<nat, Rec>, order: seq<nat>, a: nat)
    requires Sorted(recs, order) && a !in order
    ensures Sorted(recs, Insert(recs, order, a))
    ensures forall x :: x in Insert(recs, order, a) <==> x in order || x == a
    ensures Insert(recs, order, a)[0] == a <==> order == [] || Before(recs, a, order[0])
    ensures order != [] && Insert(recs, order, a)[0] != a ==> Insert(recs, order, a)[0] == order[0]
  {
    if order != [] {
      LessIsStrictOrder(KeyOf(recs, order[0]), KeyOf(recs, a), KeyOf(recs, a));
      if Before(recs, order[0], a) {
        InsertSorts(recs, order[1..], a);
        var r := Insert(recs, order[1..], a);
        forall j | 0 <= j < |r|
          ensures Before(recs, order[0], r[j])
        {
          assert r[j] in r;
        }
      } else {
        forall j | 0 <= j < |order|
          ensures Before(recs, a, order[j])
        {
          LessIsStrictOrder(KeyOf(recs, a), KeyOf(recs, order[0]), KeyOf(recs, order[j]));
        }
      }
    }
  }

  lemma {:induction false} RemoveSorts(recs: map<nat, Rec>, order: seq<nat>, a: nat)
    requires Sorted(recs, order)
    ensures Sorted(recs, Remove(order, a))
    ensures forall x :: x in Remove(order, a) <==> x in order && x != a
  {
    if order != [] {
      RemoveSorts(recs, order[1..], a);
      forall j | 0 <= j < |Remove(order[1..], a)|
        ensures Before(recs, order[0], Remove(order[1..], a)[j])
      {
        assert Remove(order[1..], a)[j] in order[1..];
      }
    }
  }

  // ----- operations -----

  function Add(b: Book, a: nat, interval: int, cb: Option<nat>, repeat: bool, now: int): Book {
    var rec := Rec(repeat, interval, AddTime(now, interval), cb, cb);
    AddTimer(b.(recs := b.recs[a := rec]), a)
  }

  /** The protected `addTimer`: inserts and, when the timer is now the first, arms the timerfd. */
  function AddTimer(b: Book, a: nat): Book {
    var order := Insert(b.recs, b.order, a);
    b.(order := order,
       armed := if order[0] == a then Some(Expiration(b.recs, a)) else b.armed)
  }

  function Cancel(b: Book, a: nat): (Book, bool)
    requires a in b.recs
  {
    if b.recs[a].cb.None? then (b, false)
    else (b.(recs := b.recs[a := b.recs[a].(cb := None)], order := Remove(b.order, a)), true)
  }

  function Refresh(b: Book, a: nat, now: int): (Book, bool)
    requires a in b.recs
  {
    var rec := b.recs[a];
    if rec.cb.None? || a !in b.order then (b, false)
    else
      var recs := b.recs[a := rec.(expiration := AddTime(now, rec.interval))];
      (b.(recs := recs, order := Insert(recs, Remove(b.order, a), a)), true)
  }

  function Reset(b: Book, a: nat, interval: int, fromNow: bool, now: int): (Book, bool)
    requires a in b.recs
  {
    var rec := b.recs[a];
    if interval == rec.interval && !fromNow then (b, true)
    else if rec.cb.None? || a !in b.order then (b, false)
    else
      var start := if fromNow then now else AddTime(rec.expiration, -rec.interval);
      var rec' := rec.(interval := interval, expiration := AddTime(start, interval));
      (AddTimer(b.(recs := b.recs[a := rec'], order := Remove(b.order, a)), a), true)
  }

  /** `detectClockRollover`: the threshold is 3600 ms, although the constant counts seconds. */
  predicate Rollover(previous: int, now: int) {
    now < previous && now < AddTime(previous, -3600)
  }

  /** How many leading timers are due at `now`. */
  function Due(recs: map<nat, Rec>, order: seq<nat>, now: int): (n: nat)
    ensures n <= |order|
  {
    if order != [] && Expiration(recs, order[0]) <= now then 1 + Due(recs, order[1..], now) else 0
  }

  function Harvested(b: Book, now: int): (n: nat)
    ensures n <= |b.order|
  {
    if Rollover(b.previous, now) then |b.order| else Due(b.recs, b.order, now)
  }

  /** What the loop over the expired timers does to one of them. */
  function Serve(b: Book, a: nat, now: int): Book
    requires a in b.recs
  {
    var rec := b.recs[a];
    if rec.repeat then AddTimer(b.(recs := b.recs[a := rec.(expiration := AddTime(now, rec.interval))]), a)
    else b.(recs := b.recs[a := rec.(cb := None)])
  }

  function ServeAll(b: Book, expired: seq<nat>, now: int): (r: Book)
    requires forall a :: a in expired ==> a in b.recs
    decreases |expired|
    ensures r.recs.Keys == b.recs.Keys && r.previous == b.previous
  {
    if expired == [] then b else ServeAll(Serve(b, expired[0], now), expired[1..], now)
  }

  function Rearm(b: Book): Book {
    if b.order != [] && Expiration(b.recs, b.order[0]) > 0
    then b.(armed := Some(Expiration(b.recs, b.order[0]))) else b
  }

  function Callbacks(recs: map<nat, Rec>, as_: seq<nat>): (cbs: seq<Option<nat>>)
    requires forall a :: a in as_ ==> a in recs
    ensures |cbs| == |as_|
  {
    if as_ == [] then [] else [recs[as_[0]].cb] + Callbacks(recs, as_[1..])
  }

  /** `listExpiredCallback`. */
  function Expire(b: Book, now: int): (Book, seq<Option<nat>>)
    requires forall a :: a in b.order ==> a in b.recs
  {
    if b.order == [] then (b, [])
    else
      var n := Harvested(b, now);
      var b' := b.(previous := now);
      if n == 0 then (b', [])
      else (Rearm(ServeAll(b'.(order := b.order[n..]), b.order[..n], now)), Callbacks(b.recs, b.order[..n]))
  }

  // ----- the invariant -----

  ghost predicate Settled(rec: Rec, pending: bool) {
    if rec.made.Some? then rec.cb == if pending then rec.made else None
    else rec.cb.None? && (rec.repeat ==> pending)
  }

  /** The set is strictly sorted and holds a timer exactly while its callback is set; a timer made
      with an empty callback cannot be cancelled and leaves the set by expiring. */
  ghost predicate WellFormed(b: Book) {
    && Sorted(b.recs, b.order)
    && (forall a :: a in b.order ==> a in b.recs)
    && (forall a :: a in b.recs ==> Settled(b.recs[a], a in b.order))
  }

  lemma SortedIsDistinct(recs: map<nat, Rec>, order: seq<nat>, i: nat, j: nat)
    requires Sorted(recs, order) && i < j < |order|
    ensures order[i] != order[j]
  {
  }

  /** Of all timers only `a` may have changed: its record, and whether it is in the set. */
  ghost predicate OnlyTimer(b: Book, t: Book, a: nat) {
    && t.previous == b.previous
    && t.recs.Keys == b.recs.Keys + {a}
    && (forall x :: x in b.recs && x != a ==> t.recs[x] == b.recs[x])
    && (forall x :: x != a ==> (x in t.order <==> x in b.order))
  }

  lemma AddKeeps(b: Book, a: nat, interval: int, cb: Option<nat>, repeat: bool, now: int)
    requires WellFormed(b) && a !in b.recs
    ensures var t := Add(b, a, interval, cb, repeat, now);
            && WellFormed(t) && OnlyTimer(b, t, a)
            && a in t.order
            && t.recs[a] == Rec(repeat, interval, now + interval * 1000, cb, cb)
            && t.armed == if t.order[0] == a then Some(now + interval * 1000) else b.armed
  {
    var recs := Add(b, a, interval, cb, repeat, now).recs;
    SortedFrame(b.recs, recs, b.order);
    InsertSorts(recs, b.order, a);
  }

  lemma CancelKeeps(b: Book, a: nat)
    requires WellFormed(b) && a in b.recs
    ensures var (t, done) := Cancel(b, a);
            && WellFormed(t) && OnlyTimer(b, t, a) && t.armed == b.armed
            && (done <==> b.recs[a].cb.Some?)
            && (done ==> a in b.order && a !in t.order && t.recs[a] == b.recs[a].(cb := None))
            && (!done ==> t == b)
  {
    RemoveSorts(b.recs, b.order, a);
    SortedFrame(b.recs, Cancel(b, a).0.recs, Remove(b.order, a));
  }

  /** Moving a timer: out of the set, its expiration changed, and back in. */
  lemma MoveSorts(b: Book, a: nat, rec: Rec)
    requires WellFormed(b) && a in b.order
    ensures var recs := b.recs[a := rec];
            var r := Insert(recs, Remove(b.order, a), a);
            Sorted(recs, r) && forall x :: x in r <==> x in b.order
  {
    RemoveSorts(b.recs, b.order, a);
    SortedFrame(b.recs, b.recs[a := rec], Remove(b.order, a));
    InsertSorts(b.recs[a := rec], Remove(b.order, a), a);
  }

  lemma RefreshKeeps(b: Book, a: nat, now: int)
    requires WellFormed(b) && a in b.recs
    ensures var (t, done) := Refresh(b, a, now);
            && WellFormed(t) && OnlyTimer(b, t, a) && t.armed == b.armed
            && (done <==> b.recs[a].cb.Some?)
            && (done ==>
                 a in t.order && t.recs[a] == b.recs[a].(expiration := now + b.recs[a].interval * 1000))
            && (!done ==> t == b)
  {
    if a in b.order {
      MoveSorts(b, a, b.recs[a].(expiration := AddTime(now, b.recs[a].interval)));
    }
  }

  lemma ResetKeeps(b: Book, a: nat, interval: int, fromNow: bool, now: int)
    requires WellFormed(b) && a in b.recs
    ensures var (t, done) := Reset(b, a, interval, fromNow, now);
            var same := interval == b.recs[a].interval && !fromNow;
            && WellFormed(t) && OnlyTimer(b, t, a)
            && (done <==> b.recs[a].cb.Some? || same)
            && (done && !same ==>
                 && a in t.order
                 && var start := if fromNow then now else b.recs[a].expiration - b.recs[a].interval * 1000;
                    && t.recs[a] == b.recs[a].(interval := interval, expiration := start + interval * 1000)
                    && t.armed == if t.order[0] == a then Some(start + interval * 1000) else b.armed)
            && (!done || same ==> t == b)
  {
    hide Sorted, Insert, Remove;
    var rec := b.recs[a];
    var start := if fromNow then now else AddTime(rec.expiration, -rec.interval);
    if a in b.order {
      MoveSorts(b, a, rec.(interval := interval, expiration := AddTime(start, interval)));
    }
  }

  // ----- expiry -----

  /** The due timers are the leading ones: everything that expires at or before `now`, whatever the
      addresses of timers with equal expirations. */
  lemma {:induction false} DueExact(recs: map<nat, Rec>, order: seq<nat>, now: int)
    requires Sorted(recs, order)
    ensures forall i :: 0 <= i < |order| ==> (i < Due(recs, order, now) <==> Expiration(recs, order[i]) <= now)
  {
    if order != [] {
      if Expiration(recs, order[0]) <= now {
        DueExact(recs, order[1..], now);
      } else {
        forall i | 0 < i < |order|
          ensures Expiration(recs, order[i]) > now
        {
          assert Before(recs, order[0], order[i]);
        }
      }
    }
  }

  lemma {:induction false} CallbacksAt(recs: map<nat, Rec>, as_: seq<nat>)
    requires forall a :: a in as_ ==> a in recs
    ensures forall i :: 0 <= i < |as_| ==> Callbacks(recs, as_)[i] == recs[as_[i]].cb
  {
    if as_ != [] {
      CallbacksAt(recs, as_[1..]);
    }
  }

  ghost predicate Distinct(s: seq<nat>) {
    forall i, j :: 0 <= i < j < |s| ==> s[i] != s[j]
  }

  /** Between two turns of the loop over the expired timers: those still to serve are out of the set
      with their callbacks in place. */
  ghost predicate Serving(b: Book, todo: seq<nat>) {
    && Sorted(b.recs, b.order) && Distinct(todo)
    && (forall a :: a in b.order ==> a in b.recs && a !in todo)
    && (forall a :: a in todo ==> a in b.recs && b.recs[a].cb == b.recs[a].made)
    && (forall a :: a in b.recs && a !in todo ==> Settled(b.recs[a], a in b.order))
  }

  /** What expiry makes of a timer's record. */
  function Served(rec: Rec, now: int): Rec {
    if rec.repeat then rec.(expiration := AddTime(now, rec.interval)) else rec.(cb := None)
  }

  lemma ServeKeeps(b: Book, todo: seq<nat>, now: int)
    requires Serving(b, todo) && todo != []
    ensures var t := Serve(b, todo[0], now);
            && Serving(t, todo[1..])
            && t.recs == b.recs[todo[0] := Served(b.recs[todo[0]], now)]
            && (forall x :: x in t.order <==> x in b.order || (x == todo[0] && b.recs[x].repeat))
  {
    var a, t := todo[0], Serve(b, todo[0], now);
    assert forall x :: x in todo[1..] ==> x in todo && x != a;
    assert forall x :: x in todo && x != a ==> x in todo[1..];
    SortedFrame(b.recs, t.recs, b.order);
    InsertSorts(t.recs, b.order, a);
  }

  lemma {:induction false} ServeAllExact(b: Book, todo: seq<nat>, now: int)
    requires Serving(b, todo)
    ensures var t := ServeAll(b, todo, now);
            && WellFormed(t)
            && (forall x :: x in t.order <==> x in b.order || (x in todo && b.recs[x].repeat))
            && (forall x :: x in b.recs ==>
                 t.recs[x] == if x !in todo then b.recs[x]
                              else if b.recs[x].repeat then b.recs[x].(expiration := now + b.recs[x].interval * 1000)
                              else b.recs[x].(cb := None))
    decreases |todo|
  {
    if todo != [] {
      ServeKeeps(b, todo, now);
      ServeAllExact(Serve(b, todo[0], now), todo[1..], now);
      assert forall x :: x in todo <==> x == todo[0] || x in todo[1..];
      assert todo[0] !in todo[1..];
    }
  }

  lemma SplitServing(b: Book, n: nat, now: int)
    requires WellFormed(b) && n <= |b.order|
    ensures Serving(b.(previous := now, order := b.order[n..]), b.order[..n])
  {
    forall a | a in b.order[n..]
      ensures a !in b.order[..n]
    {
    }
    assert forall a :: a in b.order <==> a in b.order[..n] || a in b.order[n..];
  }

  /** `listExpiredCallback` emits, in the order of the set, exactly the callbacks of the timers that
      expire at or before `now`, or of all on a rollover; it drops the one-shots among them, moves each
      repeater to `now` plus its interval, and leaves every other timer alone. */
  lemma ExpireExact(b: Book, now: int)
    requires WellFormed(b) && b.order != []
    ensures var (t, cbs) := Expire(b, now);
            var n := Harvested(b, now);
            && WellFormed(t) && t.previous == now && t.recs.Keys == b.recs.Keys
            && (if now < b.previous - 3600 * 1000 then n == |b.order|
                else forall i :: 0 <= i < |b.order| ==> (i < n <==> Expiration(b.recs, b.order[i]) <= now))
            && |cbs| == n && (forall i :: 0 <= i < n ==> cbs[i] == b.recs[b.order[i]].made)
            && (forall x :: x in t.order <==> x in b.order[n..] || (x in b.order[..n] && b.recs[x].repeat))
            && (forall x :: x in b.recs ==>
                 t.recs[x] == if x !in b.order[..n] then b.recs[x]
                              else if b.recs[x].repeat then b.recs[x].(expiration := now + b.recs[x].interval * 1000)
                              else b.recs[x].(cb := None))
  {
    var n := Harvested(b, now);
    DueExact(b.recs, b.order, now);
    PendingCallbacks(b, n);
    SplitServing(b, n, now);
    hide Serving, Sorted, Due, Callbacks, Rearm;
    ServeAllExact(b.(previous := now, order := b.order[n..]), b.order[..n], now);
    if n == 0 {
      assert b.order[0..] == b.order && b.order[..0] == [];
    }
    hide ServeAll;
    RearmKeeps(ServeAll(b.(previous := now, order := b.order[n..]), b.order[..n], now));
  }

  lemma RearmKeeps(b: Book)
    ensures Rearm(b).recs == b.recs && Rearm(b).order == b.order && Rearm(b).previous == b.previous
    ensures WellFormed(b) ==> WellFormed(Rearm(b))
  {
  }

  /** What is emitted for the first timers is what they were made with. */
  lemma PendingCallbacks(b: Book, n: nat)
    requires WellFormed(b) && n <= |b.order|
    ensures var cbs := Callbacks(b.recs, b.order[..n]);
            |cbs| == n && forall i :: 0 <= i < n ==> cbs[i] == b.recs[b.order[i]].made
  {
    CallbacksAt(b.recs, b.order[..n]);
    forall i | 0 <= i < n
      ensures b.recs[b.order[i]].cb == b.recs[b.order[i]].made
    {
      assert b.order[i] in b.order;
    }
  }

  /** A timer that has expired is harvested, on a rollover or not. */
  lemma DueIsHarvested(b: Book, a: nat, now: int)
    requires WellFormed(b) && a in b.order && Expiration(b.recs, a) <= now
    ensures a in b.order[..Harvested(b, now)]
  {
    ExpireExact(b, now);
    hide Expire, Harvested;
    var i :| 0 <= i < |b.order| && b.order[i] == a;
    assert b.order[..Harvested(b, now)][i] == a;
  }

  // ----- arming -----

  /** While a timer is pending, the timerfd is set for no later than the earliest one; and no pending
      timer started in the future. */
  ghost predicate Armed(b: Book, clock: int) {
    && (b.order != [] ==> b.armed.Some? && b.armed.value <= Expiration(b.recs, b.order[0]))
    && Started(b, clock)
  }

  ghost predicate Started(b: Book, clock: int) {
    forall a :: a in b.order && a in b.recs ==> b.recs[a].expiration <= AddTime(clock, b.recs[a].interval)
  }

  lemma HeadIsEarliest(recs: map<nat, Rec>, order: seq<nat>, a: nat)
    requires Sorted(recs, order) && a in order
    ensures Expiration(recs, order[0]) <= Expiration(recs, a)
  {
    var i :| 0 <= i < |order| && order[i] == a;
    if i > 0 {
      assert Before(recs, order[0], order[i]);
    }
  }

  lemma AddArms(b: Book, clock: int, a: nat, interval: int, cb: Option<nat>, repeat: bool, now: int)
    requires WellFormed(b) && a !in b.recs && Armed(b, clock) && clock <= now
    ensures Armed(Add(b, a, interval, cb, repeat, now), now)
  {
    var t := Add(b, a, interval, cb, repeat, now);
    SortedFrame(b.recs, t.recs, b.order);
    InsertSorts(t.recs, b.order, a);
  }

  lemma CancelArms(b: Book, clock: int, a: nat)
    requires WellFormed(b) && a in b.recs && Armed(b, clock)
    ensures Armed(Cancel(b, a).0, clock)
  {
    var t := Cancel(b, a).0;
    RemoveSorts(b.recs, b.order, a);
    if t.order != [] {
      assert t.order[0] in t.order;
      HeadIsEarliest(b.recs, b.order, t.order[0]);
    }
  }

  /** `refresh` does not arm, and need not: under a clock that does not go back it only postpones. */
  lemma RefreshArms(b: Book, clock: int, a: nat, now: int)
    requires WellFormed(b) && a in b.recs && Armed(b, clock) && clock <= now
    ensures Armed(Refresh(b, a, now).0, now)
  {
    if a in b.order {
      var (t, _) := Refresh(b, a, now);
      MoveSorts(b, a, b.recs[a].(expiration := AddTime(now, b.recs[a].interval)));
      if t.order != [] {
        assert t.order[0] in t.order;
        HeadIsEarliest(b.recs, b.order, t.order[0]);
      }
    }
  }

  lemma ResetArms(b: Book, clock: int, a: nat, interval: int, fromNow: bool, now: int)
    requires WellFormed(b) && a in b.recs && Armed(b, clock) && clock <= now
    ensures Armed(Reset(b, a, interval, fromNow, now).0, now)
  {
    hide Insert, Remove;
    var rec := b.recs[a];
    var start := if fromNow then now else AddTime(rec.expiration, -rec.interval);
    if a in b.order {
      MoveArms(b, clock, a, rec.(interval := interval, expiration := AddTime(start, interval)), now);
    }
  }

  lemma MoveArms(b: Book, clock: int, a: nat, rec: Rec, now: int)
    requires WellFormed(b) && a in b.order && Armed(b, clock) && clock <= now
    requires rec.expiration <= AddTime(now, rec.interval)
    ensures Armed(AddTimer(b.(recs := b.recs[a := rec], order := Remove(b.order, a)), a), now)
  {
    hide Insert, Remove;
    var t := AddTimer(b.(recs := b.recs[a := rec], order := Remove(b.order, a)), a);
    MoveSorts(b, a, rec);
    if t.order != [] {
      assert t.order[0] in t.order;
      HeadIsEarliest(b.recs, b.order, t.order[0]);
    }
  }

  /** The timerfd fires, which disarms it, and the callbacks are listed. */
  function Tick(b: Book, now: int): (Book, seq<Option<nat>>)
    requires forall a :: a in b.order ==> a in b.recs
  {
    Expire(b.(armed := None), now)
  }

  /** A tick does to the timers what `listExpiredCallback` does. */
  lemma TickExact(b: Book, now: int)
    requires WellFormed(b) && b.order != []
    ensures var (t, cbs) := Tick(b, now);
            var n := Harvested(b, now);
            && WellFormed(t) && t.recs.Keys == b.recs.Keys
            && |cbs| == n && (forall i :: 0 <= i < n ==> cbs[i] == b.recs[b.order[i]].made)
            && (forall x :: x in t.order <==> x in b.order[n..] || (x in b.order[..n] && b.recs[x].repeat))
            && (forall x :: x in b.recs ==>
                 t.recs[x] == if x !in b.order[..n] then b.recs[x]
                              else if b.recs[x].repeat then b.recs[x].(expiration := now + b.recs[x].interval * 1000)
                              else b.recs[x].(cb := None))
  {
    ExpireExact(b.(armed := None), now);
  }

  /** While the expired timers are served from an unset timerfd, it is set exactly if the first timer of
      the set is one of those served, and then for that one. */
  ghost predicate ServedFirst(b: Book, served: set<nat>) {
    b.armed == if b.order != [] && b.order[0] in served then Some(Expiration(b.recs, b.order[0])) else None
  }

  lemma ServeArms(b: Book, todo: seq<nat>, served: set<nat>, now: int)
    requires Serving(b, todo) && todo != [] && ServedFirst(b, served)
    ensures ServedFirst(Serve(b, todo[0], now), served + {todo[0]})
  {
    hide Insert, Settled;
    var a, t := todo[0], Serve(b, todo[0], now);
    if b.recs[a].repeat {
      SortedFrame(b.recs, t.recs, b.order);
      InsertSorts(t.recs, b.order, a);
    }
    if b.order != [] {
      assert b.order[0] in b.order;
    }
  }

  lemma {:induction false} ServeAllArms(b: Book, todo: seq<nat>, served: set<nat>, now: int)
    requires Serving(b, todo) && ServedFirst(b, served)
    ensures ServedFirst(ServeAll(b, todo, now), served + (set a | a in todo))
    decreases |todo|
  {
    assert todo != [] ==> todo[0] in b.recs;
    hide ServedFirst, Serve, Serving;
    var all := served + (set a | a in todo);
    if todo != [] {
      var rest := served + {todo[0]};
      ServeKeeps(b, todo, now);
      ServeArms(b, todo, served, now);
      ServeAllArms(Serve(b, todo[0], now), todo[1..], rest, now);
      assert all == rest + (set a | a in todo[1..]);
    } else {
      assert all == served;
    }
  }

  /** What the timerfd is set to after a tick. A tick that harvests nothing leaves it unset, by the early
      return. One that harvests sets it for exactly the earliest pending timer if that expires at a
      `valid()` (positive) time or was itself put back by this tick, and otherwise leaves it unset. */
  lemma TickArms(b: Book, now: int)
    requires WellFormed(b) && b.order != []
    ensures var t, n := Tick(b, now).0, Harvested(b, now);
            && (n == 0 ==> t.order != [])
            && t.armed == (if n > 0 && t.order != []
                              && (Expiration(t.recs, t.order[0]) > 0 || t.order[0] in b.order[..n])
                           then Some(Expiration(t.recs, t.order[0])) else None)
  {
    hide ServeAll, Due, Callbacks, Sorted;
    var n := Harvested(b, now);
    if n > 0 {
      var c := b.(previous := now, armed := None, order := b.order[n..]);
      SplitServing(b.(armed := None), n, now);
      hide WellFormed, Serving;
      ServeAllArms(c, b.order[..n], {}, now);
      assert {} + (set a | a in b.order[..n]) == (set a | a in b.order[..n]);
    } else {
      hide WellFormed;
    }
  }

  lemma EmptyTick(b: Book, now: int)
    requires b.order == []
    ensures Tick(b, now) == (b.(armed := None), [])
  {
  }

  /** The tick harvests, and what it leaves is empty or starts with a `valid()` expiration. */
  ghost predicate Rearms(b: Book, now: int)
    requires forall a :: a in b.order ==> a in b.recs
  {
    var t := Tick(b, now).0;
    b.order != [] && Harvested(b, now) > 0 && (t.order == [] || Expiration(t.recs, t.order[0]) > 0)
  }

  /** Such a tick, under a clock that has not gone back, leaves the timerfd set in time again. */
  lemma TickRearms(b: Book, clock: int, now: int)
    requires WellFormed(b) && Started(b, clock) && clock <= now && Rearms(b, now)
    ensures Armed(Tick(b, now).0, now)
  {
    TickArms(b, now);
    TickExact(b, now);
    hide Tick, Harvested;
    var t := Tick(b, now).0;
    forall a | a in t.order && a in t.recs
      ensures t.recs[a].expiration <= AddTime(now, t.recs[a].interval)
    {
    }
  }

  /** A timer that was postponed after the timerfd was set is forgotten: the tick comes at the old
      time, harvests nothing and sets nothing. */
  lemma PostponedTimerIsForgotten()
    ensures var b0 := Book(map[], [], 0, None);
            var b1 := Add(b0, 1, 10, Some(5), false, 0);
            var b2 := Refresh(b1, 1, 6000).0;
            && WellFormed(b0) && b1.armed == Some(10000) && b2.armed == Some(10000)
            && WellFormed(b2) && b2.order == [1]
    ensures var b1 := Add(Book(map[], [], 0, None), 1, 10, Some(5), false, 0);
            var t := Tick(Refresh(b1, 1, 6000).0, 10000).0;
            t.order == [1] && Expiration(t.recs, 1) == 16000 && t.armed == None
  {
    var b0 := Book(map[], [], 0, None);
    var b1 := Add(b0, 1, 10, Some(5), false, 0);
    AddKeeps(b0, 1, 10, Some(5), false, 0);
    assert b1.order == [1];
    assert Remove(b1.order, 1) == [];
    RefreshKeeps(b1, 1, 6000);
  }
}
