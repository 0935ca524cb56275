/** One parked continuation through any operation on the event table: it stays in its context, or it is
    handed to the scheduler. */
module Waiting {
  import opened Channels
  import opened Options
  import R = Registration

  function Count(s: seq<Continuation>, x: Continuation): nat {
    multiset(s)[x]
  }

  lemma CountGrows(a: seq<Continuation>, b: seq<Continuation>, x: Continuation)
    requires a <= b
    ensures Count(a, x) <= Count(b, x)
  {
    assert b == a + b[|a|..];
  }

  lemma CountAppend(a: seq<Continuation>, b: seq<Continuation>, x: Continuation)
    ensures Count(a + b, x) == Count(a, x) + Count(b, x)
  {
  }

  /** The context of this event holds the continuation. */
  predicate HeldAt(s: R.Io, fd: nat, e: Event, x: Continuation) {
    fd < |s.chans| && Held(s.chans[fd].Ctx(e))[x] > 0
  }

  /** A context that holds something has its bit set, and would hand over exactly that. */
  lemma HeldIsSet(s: R.Io, fd: nat, e: Event, x: Continuation)
    requires R.Agreed(s) && HeldAt(s, fd, e, x)
    ensures s.chans[fd].events.Has(e) && Scheduled(s.chans[fd].Ctx(e)) == [x]
  {
    assert s.chans[fd].Consistent();
    HeldIsScheduled(s.chans[fd].Ctx(e));
  }

  lemma AnswerIncludes(ch: Chan, m: Mask, e: Event, x: Continuation)
    requires ch.events.Has(e) && m.Has(e) && Scheduled(ch.Ctx(e)) == [x]
    ensures Count(R.Answer(ch, m), x) > 0
  {
    CountAppend(R.AnswerOne(ch, m, Read), R.AnswerOne(ch, m, Write), x);
  }

  lemma ThroughAdd(s: R.Io, op: R.Op, fd: nat, e: Event, x: Continuation)
    requires R.Agreed(s) && HeldAt(s, fd, e, x) && op.Add?
    ensures op.fd < |R.Resized(s.chans, op.fd)|
    ensures HeldAt(R.AddEvent(s, op.fd, op.event, op.scheduler, op.c, op.ok).0, fd, e, x)
  {
    HeldIsSet(s, fd, e, x);
    R.AddEventStep(s, op.fd, op.event, op.scheduler, op.c, op.ok);
    hide R.AddEvent, R.Agreed, R.Step, Held;
    assert R.Resized(s.chans, op.fd)[fd] == s.chans[fd];
  }

  lemma ThroughRemove(s: R.Io, op: R.Op, fd: nat, e: Event, x: Continuation)
    requires R.Agreed(s) && HeldAt(s, fd, e, x) && op.Remove?
    requires op.fd < |s.chans| ==> Held(s.chans[op.fd].Ctx(op.event))[x] == 0
    ensures HeldAt(R.RemoveEvent(s, op.fd, op.event, op.ok).0, fd, e, x)
  {
    R.RemoveEventStep(s, op.fd, op.event, op.ok);
    hide R.RemoveEvent, R.Agreed, R.Step, Held;
  }

  lemma ThroughCancel(s: R.Io, fd': nat, e': Event, ok: bool, fd: nat, e: Event, x: Continuation)
    requires R.Agreed(s) && HeldAt(s, fd, e, x)
    ensures var t := R.CancelEvent(s, fd', e', ok).0;
            if ok && fd' == fd && e' == e then Count(t.queue, x) > Count(s.queue, x) else HeldAt(t, fd, e, x)
  {
    HeldIsSet(s, fd, e, x);
    R.CancelEventStep(s, fd', e', ok);
    hide R.CancelEvent, R.Agreed, R.Step, Held;
    if fd' == fd && e' == e {
      CountAppend(s.queue, [x], x);
    }
  }

  lemma ThroughCancelAll(s: R.Io, fd': nat, ok: bool, fd: nat, e: Event, x: Continuation)
    requires R.Agreed(s) && HeldAt(s, fd, e, x)
    ensures var t := R.CancelAll(s, fd', ok).0;
            if ok && fd' == fd then Count(t.queue, x) > Count(s.queue, x) else HeldAt(t, fd, e, x)
  {
    HeldIsSet(s, fd, e, x);
    R.CancelAllStep(s, fd', ok);
    hide R.CancelAll, R.Agreed, R.Step, Held;
    if fd' == fd {
      var ch := s.chans[fd];
      AnswerIncludes(ch, ch.events, e, x);
      CountAppend(s.queue, R.Answer(ch, ch.events), x);
    }
  }

  lemma ThroughDispatch(s: R.Io, fd': nat, r: R.Report, ok: bool, fd: nat, e: Event, x: Continuation)
    requires R.Agreed(s) && HeldAt(s, fd, e, x) && fd' < |s.chans|
    ensures var t := R.Dispatch(s, fd', r, ok);
            if ok && fd' == fd && R.Revents(s.chans[fd], r).Has(e) then Count(t.queue, x) > Count(s.queue, x)
            else HeldAt(t, fd, e, x)
  {
    HeldIsSet(s, fd, e, x);
    R.DispatchStep(s, fd', r, ok);
    hide R.Dispatch, R.Agreed, R.Step, Held;
    if ok && fd' == fd && R.Revents(s.chans[fd], r).Has(e) {
      var ch := s.chans[fd];
      AnswerIncludes(ch, R.Revents(ch, r), e, x);
      CountAppend(s.queue, R.Answer(ch, R.Revents(ch, r)), x);
    }
  }

  /** No operation loses it, except the removal of its own registration. */
  lemma HeldOrQueued(h: R.History, op: R.Op, fd: nat, e: Event, x: Continuation)
    requires R.Invariant(h) && HeldAt(h.io, fd, e, x)
    requires op.Remove? && op.fd < |h.io.chans| ==> Held(h.io.chans[op.fd].Ctx(op.event))[x] == 0
    ensures var t := R.Next(h, op).io; HeldAt(t, fd, e, x) || Count(t.queue, x) > Count(h.io.queue, x)
  {
    hide R.Agreed, R.Conserved, R.AddEvent, R.RemoveEvent, R.CancelEvent, R.CancelAll, R.Dispatch, HeldAt, Held, Count;
    match op
    case Add(_, _, _, _, _) => ThroughAdd(h.io, op, fd, e, x);
    case Remove(_, _, _) => ThroughRemove(h.io, op, fd, e, x);
    case Cancel(f, v, ok) => ThroughCancel(h.io, f, v, ok, fd, e, x);
    case CancelEvery(f, ok) => ThroughCancelAll(h.io, f, ok, fd, e, x);
    case Arrive(f, r, ok) =>
      if f < |h.io.chans| {
        ThroughDispatch(h.io, f, r, ok, fd, e, x);
      }
  }
}
