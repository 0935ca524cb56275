/** Interest bits and parked continuations of one file descriptor (`easy/base/Channel.h`,
    `easy/base/Channel.cc`). */
module Channels {
  import opened Options

  datatype Event = Read | Write

  /** A set of events: `events_`, an epoll mask, or a report. */
  datatype Mask = Mask(read: bool, write: bool) {
    predicate Has(e: Event) {
      if e.Read? then read else write
    }

    function With(e: Event): Mask {
      if e.Read? then this.(read := true) else this.(write := true)
    }

    function Without(e: Event): Mask {
      if e.Read? then this.(read := false) else this.(write := false)
    }

    function Minus(m: Mask): Mask {
      Mask(read && !m.read, write && !m.write)
    }

    predicate Meets(m: Mask) {
      (read && m.read) || (write && m.write)
    }

    predicate Within(m: Mask) {
      (read ==> m.read) && (write ==> m.write)
    }

    function Size(): nat {
      (if read then 1 else 0) + (if write then 1 else 0)
    }
  }

  const NONE := Mask(false, false)

  /** What runs when the event arrives: a parked fiber or a callback. */
  datatype Continuation = Fiber(fiber: nat) | Callback(callback: nat)

  /** `EventCtx`: its three members, each possibly null. */
  datatype EventCtx = EventCtx(scheduler: Option<nat>, fiber: Option<nat>, cb: Option<nat>)

  const EMPTY := EventCtx(None, None, None)

  function Parking(scheduler: nat, c: Continuation): EventCtx {
    match c
    case Fiber(f) => EventCtx(Some(scheduler), Some(f), None)
    case Callback(f) => EventCtx(Some(scheduler), None, Some(f))
  }

  /** The continuations a context holds. */
  function Held(ctx: EventCtx): multiset<Continuation> {
    (if ctx.fiber.Some? then multiset{Fiber(ctx.fiber.value)} else multiset{})
    + (if ctx.cb.Some? then multiset{Callback(ctx.cb.value)} else multiset{})
  }

  /** What `handleEvent` hands to `schedule`. A null fiber makes no task. */
  function Scheduled(ctx: EventCtx): seq<Continuation> {
    if ctx.cb.Some? then [Callback(ctx.cb.value)]
    else if ctx.fiber.Some? then [Fiber(ctx.fiber.value)]
    else []
  }

  /** A channel as a value. */
  datatype Chan = Chan(events: Mask, read: EventCtx, write: EventCtx) {
    function Ctx(e: Event): EventCtx {
      if e.Read? then read else write
    }

    function WithCtx(e: Event, ctx: EventCtx): Chan {
      if e.Read? then this.(read := ctx) else this.(write := ctx)
    }

    function Parked(): multiset<Continuation> {
      Held(read) + Held(write)
    }

    /** A set bit's context has a scheduler and exactly one of fiber and callback; a clear bit's
        context is empty. */
    predicate Consistent() {
      CtxMatches(events.read, read) && CtxMatches(events.write, write)
    }
  }

  predicate Occupied(ctx: EventCtx) {
    ctx.scheduler.Some? && (ctx.fiber.Some? <==> ctx.cb.None?)
  }

  predicate CtxMatches(bit: bool, ctx: EventCtx) {
    if bit then Occupied(ctx) else ctx == EMPTY
  }

  const IDLE := Chan(NONE, EMPTY, EMPTY)

  function Handle(c: Chan, e: Event): (Chan, seq<Continuation>) {
    if !c.events.Has(e) then (c, [])
    else (c.(events := c.events.Without(e)).WithCtx(e, EMPTY), Scheduled(c.Ctx(e)))
  }

  /** Handling an event keeps a channel consistent, clears exactly that bit, and moves what the bit
      parked, and nothing else, to the scheduler. */
  lemma HandleMoves(c: Chan, e: Event)
    requires c.Consistent()
    ensures var (d, q) := Handle(c, e);
            && d.Consistent()
            && d.events == c.events.Without(e)
            && c.Parked() == d.Parked() + multiset(q)
            && |q| == c.events.Size() - d.events.Size()
            && q == (if c.events.Has(e) then Scheduled(c.Ctx(e)) else [])
            && (forall x :: x != e ==> d.Ctx(x) == c.Ctx(x))
  {
    HeldIsScheduled(c.Ctx(e));
  }

  lemma HeldIsScheduled(ctx: EventCtx)
    ensures Occupied(ctx) ==> |Scheduled(ctx)| == 1 && multiset(Scheduled(ctx)) == Held(ctx)
    ensures Held(EMPTY) == multiset{}
  {
  }

  class Channel {
    var events: Mask
    var read: EventCtx
    var write: EventCtx

    constructor ()
      ensures Value() == IDLE
    {
      events, read, write := NONE, EMPTY, EMPTY;
    }

    function Value(): Chan
      reads this
    {
      Chan(events, read, write)
    }

    method SetCtx(e: Event, ctx: EventCtx)
      modifies this
      ensures Value() == old(Value()).WithCtx(e, ctx)
    {
      match e
      case Read => read := ctx;
      case Write => write := ctx;
    }

    /** `cleanUp`: the continuation is dropped. */
    method CleanUp(e: Event)
      modifies this
      ensures Value() == old(Value()).WithCtx(e, EMPTY)
    {
      SetCtx(e, EMPTY);
    }

    /** `handleEvent`: the continuations it schedules are returned. */
    method HandleEvent(e: Event) returns (q: seq<Continuation>)
      modifies this
      ensures (Value(), q) == Handle(old(Value()), e)
    {
      if !events.Has(e) {
        return [];
      }
      events := events.Without(e);
      var ctx := Value().Ctx(e);
      if ctx.cb.Some? {
        q := [Callback(ctx.cb.value)];
      } else if ctx.fiber.Some? {
        q := [Fiber(ctx.fiber.value)];
      } else {
        q := [];
      }
      SetCtx(e, EMPTY);
    }
  }
}
