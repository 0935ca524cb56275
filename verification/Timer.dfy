/** `Timer` and `TimerManager` (`easy/base/Timer.cc`) as objects: the members of a timer change while the
    ordered set holds it, and the set finds it by comparing keys. Proved against `TimerBook`. */
module Timers {
  import opened Bits
  import opened Options
  import B = TimerBook
  import opened TimerBook

  class Timer {
    const addr: nat
    const repeat: bool
    const made: Option<nat>
    var interval: int
    var expiration: int
    var cb: Option<nat>

    constructor (addr: nat, interval: int, cb: Option<nat>, repeat: bool, now: int)
      ensures this.addr == addr
      ensures Value() == Rec(repeat, interval, AddTime(now, interval), cb, cb)
    {
      this.addr, this.repeat, this.made := addr, repeat, cb;
      this.interval, this.cb := interval, cb;
      expiration := AddTime(now, interval);
    }

    function Value(): Rec
      reads this
    {
      Rec(repeat, interval, expiration, cb, made)
    }

    function Key(): Key
      reads this
    {
      At(expiration, addr)
    }
  }

  function Addresses(ts: seq<Timer>): (s: seq<nat>)
    ensures |s| == |ts| && forall i :: 0 <= i < |ts| ==> s[i] == ts[i].addr
  {
    seq(|ts|, i requires 0 <= i < |ts| => ts[i].addr)
  }

  /** `timers` is the ordered set; `registry` knows every timer made so far by its address. */
  class TimerManager {
    var timers: seq<Timer>
    var previous: int
    var armed: Option<int>
    ghost var registry: map<nat, Timer>

    ghost predicate Registered()
      reads this`registry, this`timers, registry.Values
    {
      && (forall a :: a in registry ==> registry[a].addr == a)
      && (forall t :: t in timers ==> t.addr in registry && registry[t.addr] == t)
    }

    ghost function Recs(): map<nat, Rec>
      reads this`registry, registry.Values
    {
      map a | a in registry :: registry[a].Value()
    }

    ghost function Order(): seq<nat>
      reads this`timers
    {
      Addresses(timers)
    }

    ghost function State(): Book
      reads this, registry.Values
    {
      Book(Recs(), Order(), previous, armed)
    }

    ghost predicate Valid()
      reads this, registry.Values
    {
      Registered() && WellFormed(State())
    }

    constructor (now: int)
      ensures Valid() && State() == Book(map[], [], now, None)
    {
      timers, previous, armed, registry := [], now, None, map[];
    }

    // ----- std::set -----

    /** `lower_bound`: the first member whose key is not below `k`. */
    method LowerBound(k: Key) returns (i: nat)
      requires Registered()
      ensures i <= |timers|
      ensures forall j :: 0 <= j < i ==> Less(timers[j].Key(), k)
      ensures i < |timers| ==> !Less(timers[i].Key(), k)
    {
      i := 0;
      while i < |timers| && Less(timers[i].Key(), k)
        invariant i <= |timers|
        invariant forall j :: 0 <= j < i ==> Less(timers[j].Key(), k)
      {
        i := i + 1;
      }
    }

    /** `find`: by comparisons alone, never by identity; `|timers|` stands for `end()`. */
    method Find(t: Timer) returns (i: nat)
      requires Registered() && Sorted(State().recs, State().order)
      requires t.addr in registry && registry[t.addr] == t
      ensures i <= |timers|
      ensures t in timers <==> i < |timers|
      ensures i < |timers| ==> timers[i] == t
      ensures forall j :: 0 <= j < i ==> timers[j] != t
    {
      KeysAreBookKeys();
      i := LowerBound(t.Key());
      if i < |timers| && Less(t.Key(), timers[i].Key()) {
        NotBeyond(t, i);
        i := |timers|;
      } else if i < |timers| {
        LessIsStrictOrder(t.Key(), timers[i].Key(), t.Key());
      }
    }

    lemma KeysAreBookKeys()
      requires Registered()
      ensures forall i :: 0 <= i < |timers| ==> timers[i].Key() == KeyOf(State().recs, State().order[i])
    {
    }

    /** If the lower bound is above `t`, no member is `t`. */
    lemma NotBeyond(t: Timer, i: nat)
      requires Registered() && Sorted(State().recs, State().order) && i < |timers|
      requires Less(t.Key(), timers[i].Key()) && forall j :: 0 <= j < i ==> Less(timers[j].Key(), t.Key())
      ensures t !in timers
    {
      KeysAreBookKeys();
      forall j | 0 <= j < |timers|
        ensures timers[j] != t
      {
        LessIsStrictOrder(t.Key(), timers[i].Key(), t.Key());
        if j > i {
          assert Before(State().recs, State().order[i], State().order[j]);
        }
      }
    }

    /** `insert`: the new member goes where its key belongs. */
    method InsertTimer(t: Timer) returns (i: nat)
      requires Registered() && Sorted(State().recs, State().order)
      requires t.addr in registry && registry[t.addr] == t && t !in timers
      modifies this`timers
      ensures Registered() && State() == old(State()).(order := Insert(State().recs, old(State().order), t.addr))
      ensures i < |timers| && timers[i] == t
    {
      hide Insert, Sorted;
      ghost var b := State();
      KeysAreBookKeys();
      i := LowerBound(t.Key());
      timers := timers[..i] + [t] + timers[i..];
      InsertAt(b.recs, b.order, t.addr, i);
      assert State().order == b.order[..i] + [t.addr] + b.order[i..];
    }

    /** `erase` at an iterator. */
    method EraseAt(i: nat)
      requires Registered() && Sorted(State().recs, State().order) && i < |timers|
      modifies this`timers
      ensures Registered() && State() == old(State()).(order := Remove(old(State().order), old(timers[i]).addr))
      ensures old(timers[i]) !in timers
    {
      ghost var b := State();
      RemoveAt(b.recs, b.order, i);
      RemoveSorts(b.recs, b.order, b.order[i]);
      timers := timers[..i] + timers[i + 1..];
      assert State().order == b.order[..i] + b.order[i + 1..];
      forall j | 0 <= j < |timers|
        ensures timers[j] != old(timers[i])
      {
        assert State().order[j] == timers[j].addr;
        assert State().order[j] in State().order;
      }
    }

    /** `find` and, unless that is `end()`, `erase`. */
    method TakeOut(t: Timer) returns (found: bool)
      requires Registered() && Sorted(Recs(), Order())
      requires t.addr in registry && registry[t.addr] == t
      modifies this`timers
      ensures Registered() && Sorted(Recs(), Order()) && t !in timers
      ensures found <==> t.addr in old(Order())
      ensures State() == if found then old(State()).(order := Remove(old(Order()), t.addr)) else old(State())
    {
      hide Sorted, Remove;
      InSetIffInOrder(t);
      RemoveSorts(Recs(), Order(), t.addr);
      var i := Find(t);
      found := i < |timers|;
      if found {
        EraseAt(i);
      }
    }

    // ----- the operations -----

    /** The protected `addTimer`. */
    method AddTimer(t: Timer)
      requires Registered() && Sorted(State().recs, State().order)
      requires t.addr in registry && registry[t.addr] == t && t !in timers
      modifies this`timers, this`armed
      ensures Registered() && State() == B.AddTimer(old(State()), t.addr)
    {
      hide Insert, Sorted;
      ghost var b := State();
      var i := InsertTimer(t);
      InsertedFirst(State().recs, b.order, t.addr, State().order, i);
      if i == 0 {
        armed := Some(t.expiration);
      }
    }

    ghost method Register(t: Timer)
      requires Registered() && t.addr !in registry && t !in registry.Values
      modifies this`registry
      ensures Registered() && registry == old(registry)[t.addr := t] && t !in timers
      ensures State() == old(State()).(recs := old(State().recs)[t.addr := t.Value()])
    {
      ghost var recs := Recs();
      registry := registry[t.addr := t];
      assert Recs() == recs[t.addr := t.Value()];
    }

    /** `addTimer` makes a timer at a fresh address; its interval is converted to `int64_t`. */
    method MakeTimer(addr: nat, interval: nat, cb: Option<nat>, repeat: bool, now: int) returns (t: Timer)
      requires Valid() && addr !in registry && interval < 0x1_0000_0000_0000_0000
      modifies this
      ensures Valid() && fresh(t) && t.addr == addr && registry == old(registry)[addr := t]
      ensures var ms := if interval < 0x8000_0000_0000_0000 then interval else interval - 0x1_0000_0000_0000_0000;
              State() == Add(old(State()), addr, ms, cb, repeat, now)
    {
      WordSizes();
      hide Pow2, Insert, Sorted, OnlyTimer;
      ghost var b := State();
      var ms := Signed(interval, 64);
      AddKeeps(b, addr, ms, cb, repeat, now);
      t := new Timer(addr, ms, cb, repeat, now);
      Register(t);
      SortedFrame(b.recs, State().recs, b.order);
      AddTimer(t);
    }

    /** Assigning members of one timer changes its record and nothing else. */
    twostate lemma OneRecord(t: Timer)
      requires old(Registered()) && t.addr in registry && registry[t.addr] == t
      requires unchanged(this) && forall a :: a in registry && a != t.addr ==> unchanged(registry[a])
      ensures Registered()
      ensures State() == old(State()).(recs := old(State().recs)[t.addr := t.Value()])
    {
      assert Recs() == old(Recs())[t.addr := t.Value()];
    }

    /** `Timer::cancel`. The lookup cannot fail: a timer whose callback is set is in the set. */
    method Cancel(t: Timer) returns (r: bool)
      requires Valid() && t.addr in registry && registry[t.addr] == t
      modifies this`timers, t`cb
      ensures Valid() && (State(), r) == B.Cancel(old(State()), t.addr)
    {
      hide Sorted, OnlyTimer, Remove;
      ghost var b := State();
      CancelKeeps(b, t.addr);
      if t.cb.None? {
        return false;
      }
      t.cb := None;
      OneRecord(t);
      SortedFrame(b.recs, State().recs, b.order);
      var found := TakeOut(t);
      assert found;
      r := true;
    }

    lemma InSetIffInOrder(t: Timer)
      requires Registered() && t.addr in registry && registry[t.addr] == t
      ensures t in timers <==> t.addr in State().order
    {
      if t.addr in State().order {
        var i :| 0 <= i < |timers| && State().order[i] == t.addr;
        assert timers[i] in timers;
      }
      if t in timers {
        var i :| 0 <= i < |timers| && timers[i] == t;
        assert State().order[i] == t.addr;
      }
    }

    /** `Timer::refresh`. */
    method Refresh(t: Timer, now: int) returns (r: bool)
      requires Valid() && t.addr in registry && registry[t.addr] == t
      modifies this`timers, t`expiration
      ensures Valid() && (State(), r) == B.Refresh(old(State()), t.addr, now)
    {
      hide Sorted, OnlyTimer, Remove, Insert;
      ghost var b := State();
      RefreshKeeps(b, t.addr, now);
      if t.cb.None? {
        return false;
      }
      var found := TakeOut(t);
      if !found {
        return false;
      }
      label erased:
      t.expiration := AddTime(now, t.interval);
      OneRecord@erased(t);
      SortedFrame(b.recs, State().recs, State().order);
      var _ := InsertTimer(t);
      r := true;
    }

    /** The end of `reset`: new interval and expiration for a timer out of the set, then `addTimer`. */
    method Restart(t: Timer, interval: int, start: int)
      requires Registered() && Sorted(Recs(), Order())
      requires t.addr in registry && registry[t.addr] == t && t !in timers
      modifies this`timers, this`armed, t`expiration, t`interval
      ensures Registered()
      ensures var b := old(State());
              var rec := b.recs[t.addr].(interval := interval, expiration := AddTime(start, interval));
              State() == B.AddTimer(b.(recs := b.recs[t.addr := rec]), t.addr)
    {
      hide Insert, Sorted;
      ghost var b := State();
      t.interval := interval;
      t.expiration := AddTime(start, t.interval);
      OneRecord(t);
      SortedFrame(b.recs, Recs(), Order());
      AddTimer(t);
    }

    /** `Timer::reset`. */
    method Reset(t: Timer, interval: int, fromNow: bool, now: int) returns (r: bool)
      requires Valid() && t.addr in registry && registry[t.addr] == t
      modifies this`timers, this`armed, t`expiration, t`interval
      ensures Valid() && (State(), r) == B.Reset(old(State()), t.addr, interval, fromNow, now)
    {
      hide Insert, Remove, Sorted, OnlyTimer;
      ghost var b := State();
      ResetKeeps(b, t.addr, interval, fromNow, now);
      if interval == t.interval && !fromNow {
        return true;
      }
      if t.cb.None? {
        return false;
      }
      var found := TakeOut(t);
      if !found {
        return false;
      }
      Restart(t, interval, if fromNow then now else AddTime(t.expiration, -t.interval));
      r := true;
    }

    // ----- expiry -----

    /** `detectClockRollover`. */
    method DetectClockRollover(now: int) returns (rollover: bool)
      modifies this`previous
      ensures rollover == (now < old(previous) - 3600 * 1000) && previous == now
    {
      rollover := now < previous && now < AddTime(previous, -3600);
      previous := now;
    }

    /** The end of the harvest: the lower bound of a key at `now`, whatever its address, moved past
        the timers that expire at `now`. */
    method EndOfDue(now: int, addr: nat) returns (end: nat)
      requires Registered() && Sorted(Recs(), Order())
      ensures end == Due(Recs(), Order(), now)
    {
      hide Sorted, Due;
      KeysAreBookKeys();
      end := LowerBound(At(now, addr));
      KeyBounds(now, addr, end);
      while end < |timers| && timers[end].expiration == now
        invariant end <= |timers|
        invariant forall j :: 0 <= j < end ==> Expiration(Recs(), Order()[j]) <= now
        invariant end < |timers| ==> Expiration(Recs(), Order()[end]) >= now
      {
        ExpirationOf(end);
        SortedFrom(Recs(), Order(), end);
        end := end + 1;
      }
      if end < |timers| {
        ExpirationOf(end);
      }
      DueEnds(Recs(), Order(), now, end);
    }

    lemma ExpirationOf(i: nat)
      requires Registered() && i < |timers|
      ensures Expiration(Recs(), Order()[i]) == timers[i].expiration
    {
      KeysAreBookKeys();
    }

    lemma KeyBounds(now: int, addr: nat, end: nat)
      requires Registered() && end <= |timers|
      requires forall j :: 0 <= j < end ==> Less(timers[j].Key(), At(now, addr))
      requires end < |timers| ==> !Less(timers[end].Key(), At(now, addr))
      ensures forall j :: 0 <= j < end ==> Expiration(Recs(), Order()[j]) <= now
      ensures end < |timers| ==> Expiration(Recs(), Order()[end]) >= now
    {
      forall j | 0 <= j < end
        ensures Expiration(Recs(), Order()[j]) <= now
      {
        ExpirationOf(j);
      }
      if end < |timers| {
        ExpirationOf(end);
      }
    }

    /** One turn of the loop over the expired timers. */
    method ServeTimer(t: Timer, now: int)
      requires Registered() && Sorted(Recs(), Order())
      requires t.addr in registry && registry[t.addr] == t && t !in timers
      modifies this`timers, this`armed, t`expiration, t`cb
      ensures Registered() && State() == B.Serve(old(State()), t.addr, now)
    {
      hide Insert, Sorted;
      ghost var b := State();
      InSetIffInOrder(t);
      if t.repeat {
        t.expiration := AddTime(now, t.interval);
        OneRecord(t);
        SortedFrame(b.recs, Recs(), Order());
        AddTimer(t);
      } else {
        t.cb := None;
        OneRecord(t);
      }
    }

    /** The loop over the expired timers, which are already out of the set. */
    method ServeTimers(expired: seq<Timer>, now: int) returns (cbs: seq<Option<nat>>)
      requires Registered() && forall t :: t in expired ==> t.addr in registry && registry[t.addr] == t
      requires Serving(State(), Addresses(expired))
      modifies this`timers, this`armed, expired
      ensures Registered() && Serving(State(), [])
      ensures State() == ServeAll(old(State()), Addresses(expired), now)
      ensures |cbs| == |expired| && forall i :: 0 <= i < |expired| ==> cbs[i] == expired[i].made
    {
      hide Serving, Serve, Sorted;
      cbs := [];
      ghost var b := State();
      for k := 0 to |expired|
        invariant Registered() && Serving(State(), Addresses(expired[k..]))
        invariant ServeAll(State(), Addresses(expired[k..]), now) == ServeAll(b, Addresses(expired), now)
        invariant |cbs| == k && forall i :: 0 <= i < k ==> cbs[i] == expired[i].made
      {
        ghost var todo := Addresses(expired[k..]);
        assert todo[1..] == Addresses(expired[k + 1..]);
        var cb := ServeNext(expired[k], todo, now);
        cbs := cbs + [cb];
      }
    }

    method ServeNext(t: Timer, ghost todo: seq<nat>, now: int) returns (cb: Option<nat>)
      requires Registered() && t.addr in registry && registry[t.addr] == t
      requires Serving(State(), todo) && todo != [] && todo[0] == t.addr
      modifies this`timers, this`armed, t`expiration, t`cb
      ensures Registered() && Serving(State(), todo[1..])
      ensures ServeAll(State(), todo[1..], now) == ServeAll(old(State()), todo, now)
      ensures cb == t.made
    {
      hide Serving, Serve, Sorted;
      ServeKeeps(State(), todo, now);
      OutOfSet(t, todo);
      cb := t.cb;
      ServeTimer(t, now);
    }

    lemma OutOfSet(t: Timer, todo: seq<nat>)
      requires Registered() && t.addr in registry && registry[t.addr] == t
      requires Serving(State(), todo) && t.addr in todo
      ensures t !in timers && t.cb == t.made && Sorted(Recs(), Order())
    {
      InSetIffInOrder(t);
      assert State().recs[t.addr] == t.Value();
    }

    /** Takes the first `end` timers out, serves them and arms the timerfd for the first one left. */
    method HarvestFirst(end: nat, now: int) returns (cbs: seq<Option<nat>>)
      requires Valid() && end <= |timers|
      modifies this`timers, this`armed, timers
      ensures Registered()
      ensures var b := old(State());
              && (forall a :: a in b.order ==> a in b.recs)
              && State() == Rearm(ServeAll(b.(order := b.order[end..]), b.order[..end], now))
              && cbs == Callbacks(b.recs, b.order[..end])
    {
      hide Serving, Sorted, ServeAll, Callbacks, Settled, Rearm;
      ghost var b := State();
      var expired := timers[..end];
      timers := timers[end..];
      assert Order() == b.order[end..];
      assert Addresses(expired) == b.order[..end];
      SplitServing(b, end, b.previous);
      cbs := ServeTimers(expired, now);
      CallbacksAt(b.recs, b.order[..end]);
      MadeIsSet(b, end);
      assert cbs == Callbacks(b.recs, b.order[..end]);
      ArmFirst();
    }

    /** `resetTimerfd` for the first timer, if its expiration is `valid()`. */
    method ArmFirst()
      requires Registered()
      modifies this`armed
      ensures Registered() && State() == Rearm(old(State()))
    {
      if timers != [] {
        ExpirationOf(0);
      }
      if timers != [] && timers[0].expiration > 0 {
        armed := Some(timers[0].expiration);
      }
    }

    lemma MadeIsSet(b: Book, n: nat)
      requires WellFormed(b) && n <= |b.order|
      ensures forall i :: 0 <= i < n ==> b.recs[b.order[i]].cb == b.recs[b.order[i]].made
    {
    }

    /** `listExpiredCallback`; `addr` is where the key for `now` happens to be allocated. */
    method ListExpired(now: int, addr: nat) returns (cbs: seq<Option<nat>>)
      requires Valid()
      modifies this`timers, this`previous, this`armed, timers
      ensures Valid() && (State(), cbs) == Expire(old(State()), now)
    {
      hide Serving, Sorted, ServeAll, Callbacks, Rearm, Due, Settled, Expire;
      ghost var b := State();
      if timers == [] {
        EmptyExpires(b, now);
        return [];
      }
      ExpireExact(b, now);
      SortedOf(b);
      ExpirationOf(0);
      var rollover := DetectClockRollover(now);
      if !rollover && timers[0].expiration > now {
        NothingDue(b, now);
        return [];
      }
      SomethingDue(b, now);
      var end := |timers|;
      if !rollover {
        end := EndOfDue(now, addr);
      }
      assert end == Harvested(b, now);
      ghost var b' := b.(previous := now);
      assert State() == b';
      ExpireHarvests(b, now, end);
      cbs := HarvestFirst(end, now);
    }
  }

  lemma SortedOf(b: Book)
    requires WellFormed(b)
    ensures Sorted(b.recs, b.order)
  {
  }

  lemma ExpireHarvests(b: Book, now: int, n: nat)
    requires WellFormed(b) && b.order != [] && n == Harvested(b, now) && n > 0
    ensures var b' := b.(previous := now);
            Expire(b, now)
              == (Rearm(ServeAll(b'.(order := b'.order[n..]), b'.order[..n], now)), Callbacks(b'.recs, b'.order[..n]))
  {
  }

  lemma EmptyExpires(b: Book, now: int)
    requires b.order == []
    ensures Expire(b, now) == (b, [])
  {
  }

  lemma SomethingDue(b: Book, now: int)
    requires WellFormed(b) && b.order != [] && (Rollover(b.previous, now) || Expiration(b.recs, b.order[0]) <= now)
    ensures Harvested(b, now) > 0
  {
  }

  lemma NothingDue(b: Book, now: int)
    requires WellFormed(b) && b.order != [] && !Rollover(b.previous, now) && Expiration(b.recs, b.order[0]) > now
    ensures Expire(b, now) == (b.(previous := now), [])
  {
  }

  lemma DueEnds(recs: map<nat, Rec>, order: seq<nat>, now: int, end: nat)
    requires Sorted(recs, order) && end <= |order|
    requires forall j :: 0 <= j < end ==> Expiration(recs, order[j]) <= now
    requires end < |order| ==> Expiration(recs, order[end]) > now
    ensures end == Due(recs, order, now)
  {
    DueExact(recs, order, now);
    var n := Due(recs, order, now);
    assert n < |order| ==> Expiration(recs, order[n]) > now;
  }

  lemma SortedFrom(recs: map<nat, Rec>, order: seq<nat>, i: nat)
    requires Sorted(recs, order) && i < |order|
    ensures i + 1 < |order| ==> Expiration(recs, order[i]) <= Expiration(recs, order[i + 1])
  {
    if i + 1 < |order| {
      assert Before(recs, order[i], order[i + 1]);
    }
  }

  // ----- what insertion and erasure by index do to the order -----

  lemma {:induction false} InsertAt(recs: map<nat, Rec>, order: seq<nat>, a: nat, i: nat)
    requires i <= |order| && forall j :: 0 <= j < i ==> Before(recs, order[j], a)
    requires i < |order| ==> !Before(recs, order[i], a)
    ensures Insert(recs, order, a) == order[..i] + [a] + order[i..]
  {
    if i > 0 {
      InsertAt(recs, order[1..], a, i - 1);
    }
  }

  lemma {:induction false} RemoveAt(recs: map<nat, Rec>, order: seq<nat>, i: nat)
    requires Sorted(recs, order) && i < |order|
    ensures Remove(order, order[i]) == order[..i] + order[i + 1..]
  {
    if i > 0 {
      SortedIsDistinct(recs, order, 0, i);
      RemoveAt(recs, order[1..], i - 1);
    } else {
      forall j | 0 < j < |order|
        ensures order[j] != order[0]
      {
        SortedIsDistinct(recs, order, 0, j);
      }
      RemoveAbsent(order[1..], order[0]);
    }
  }

  lemma {:induction false} RemoveAbsent(order: seq<nat>, a: nat)
    requires a !in order
    ensures Remove(order, a) == order
  {
    if order != [] {
      RemoveAbsent(order[1..], a);
    }
  }

  lemma InsertedFirst(recs: map<nat, Rec>, order: seq<nat>, a: nat, order': seq<nat>, i: nat)
    requires order' == Insert(recs, order, a) && i < |order'| && order'[i] == a && a !in order && Sorted(recs, order)
    ensures i == 0 <==> order'[0] == a
  {
    InsertSorts(recs, order, a);
    if i > 0 && order'[0] == a {
      SortedIsDistinct(recs, order', 0, i);
    }
  }
}
