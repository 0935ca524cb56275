/** Event registration without masks, contexts, counter and kernel: a map from descriptor and event to the
    continuation that waits. Every run of `easy/base/IOManager.cc` is a run of this. */
module SimpleEvents {
  import opened Channels
  import opened Options
  import opened Waiting
  import R = Registration

  datatype Simple = Simple(waiting: map<(nat, Event), Continuation>, queue: seq<Continuation>)

  /** The event happens: who waits for it, if anyone, is scheduled. */
  function Wake(s: Simple, fd: nat, e: Event): Simple {
    if (fd, e) in s.waiting then Simple(s.waiting - {(fd, e)}, s.queue + [s.waiting[(fd, e)]]) else s
  }

  /** The operations that the kernel lets pass; the others do nothing. */
  function Do(s: Simple, op: R.Op): Simple {
    match op
    case Add(fd, e, _, c, ok) =>
      if ok && (fd, e) !in s.waiting then s.(waiting := s.waiting[(fd, e) := c]) else s
    case Remove(fd, e, ok) => if ok then s.(waiting := s.waiting - {(fd, e)}) else s
    case Cancel(fd, e, ok) => if ok then Wake(s, fd, e) else s
    case CancelEvery(fd, ok) => if ok then Wake(Wake(s, fd, Read), fd, Write) else s
    case Arrive(fd, r, ok) =>
      if !ok then s
      else
        var t := if r.input || r.failure then Wake(s, fd, Read) else s;
        if r.output || r.failure then Wake(t, fd, Write) else t
  }

  /** The waiting continuations are those in the contexts, and the same were scheduled in the same order. */
  ghost predicate Refines(io: R.Io, s: Simple) {
    io.queue == s.queue && forall fd: nat, e: Event :: At(io, s, fd, e)
  }

  ghost predicate At(io: R.Io, s: Simple, fd: nat, e: Event) {
    if (fd, e) in s.waiting then
      fd < |io.chans| && io.chans[fd].events.Has(e) && Scheduled(io.chans[fd].Ctx(e)) == [s.waiting[(fd, e)]]
    else fd < |io.chans| ==> !io.chans[fd].events.Has(e)
  }

  // ----- one channel at a time -----

  /** What a channel schedules for an event of its own is what waits. */
  lemma WakeAt(io: R.Io, s: Simple, fd: nat, e: Event)
    requires R.Agreed(io) && Refines(io, s)
    ensures Wake(s, fd, e).queue
         == s.queue + if fd < |io.chans| && io.chans[fd].events.Has(e) then Scheduled(io.chans[fd].Ctx(e)) else []
    ensures forall x :: Wake(s, fd, x).waiting == s.waiting - {(fd, x)}
  {
    forall x
      ensures Wake(s, fd, x).waiting == s.waiting - {(fd, x)}
    {
    }
    assert At(io, s, fd, e);
    hide Scheduled, R.Agreed;
    assert s.queue + [] == s.queue;
  }

  /** Clearing the bits of one channel. */
  lemma ClearRefines(io: R.Io, t: R.Io, s: Simple, u: Simple, fd: nat, m: Mask)
    requires Refines(io, s) && fd < |io.chans| == |t.chans|
    requires t.chans == io.chans[fd := t.chans[fd]] && t.chans[fd].events == io.chans[fd].events.Minus(m)
    requires forall e :: !m.Has(e) ==> t.chans[fd].Ctx(e) == io.chans[fd].Ctx(e)
    requires t.queue == u.queue
    requires u.waiting == s.waiting - (set e: Event | e in {Read, Write} && m.Has(e) :: (fd, e))
    ensures Refines(t, u)
  {
    hide Scheduled;
    forall g: nat, e: Event
      ensures At(t, u, g, e)
    {
      assert At(io, s, g, e);
      assert e == Read || e == Write;
    }
  }

  lemma Masked(fd: nat, m: Mask)
    ensures (set e: Event | e in {Read, Write} && m.Has(e) :: (fd, e))
         == (if m.read then {(fd, Read)} else {}) + (if m.write then {(fd, Write)} else {})
  {
    assert m.read ==> Read in {Read, Write} && m.Has(Read);
    assert m.write ==> Write in {Read, Write} && m.Has(Write);
  }

  function Only(e: Event): Mask {
    if e.Read? then Mask(true, false) else Mask(false, true)
  }

  lemma OnlyClears(m: Mask, e: Event)
    ensures m.Minus(Only(e)) == m.Without(e) && forall x :: Only(e).Has(x) <==> x == e
  {
  }

  // ----- the operations -----

  lemma AddRefines(io: R.Io, s: Simple, op: R.Op)
    requires R.Agreed(io) && Refines(io, s) && op.Add?
    ensures op.fd < |R.Resized(io.chans, op.fd)|
    ensures Refines(R.AddEvent(io, op.fd, op.event, op.scheduler, op.c, op.ok).0, Do(s, op))
  {
    R.AddEventStep(io, op.fd, op.event, op.scheduler, op.c, op.ok);
    AddedScheduled(io, op);
    var (t, rc) := R.AddEvent(io, op.fd, op.event, op.scheduler, op.c, op.ok);
    var grown := io.(chans := R.Resized(io.chans, op.fd));
    GrownRefines(io, s, op.fd);
    assert At(grown, s, op.fd, op.event);
    hide R.AddEvent, R.Agreed, R.Step, Held, Scheduled, At, R.Resized, Refines;
    if rc == 0 {
      SetRefines(grown, t, s, op.fd, op.event, op.c);
    }
  }

  lemma GrownRefines(io: R.Io, s: Simple, fd: nat)
    requires Refines(io, s)
    ensures Refines(io.(chans := R.Resized(io.chans, fd)), s)
  {
    hide Scheduled;
    var grown := io.(chans := R.Resized(io.chans, fd));
    forall g: nat, e: Event
      ensures At(grown, s, g, e)
    {
      assert At(io, s, g, e);
    }
  }

  /** Setting one bit. */
  lemma SetRefines(io: R.Io, t: R.Io, s: Simple, fd: nat, e: Event, c: Continuation)
    requires Refines(io, s) && fd < |io.chans| == |t.chans| && t.chans == io.chans[fd := t.chans[fd]]
    requires t.chans[fd].events == io.chans[fd].events.With(e) && Scheduled(t.chans[fd].Ctx(e)) == [c]
    requires forall x :: x != e ==> t.chans[fd].Ctx(x) == io.chans[fd].Ctx(x)
    requires t.queue == io.queue
    ensures Refines(t, s.(waiting := s.waiting[(fd, e) := c]))
  {
    hide Scheduled;
    var u := s.(waiting := s.waiting[(fd, e) := c]);
    forall g: nat, x: Event
      ensures At(t, u, g, x)
    {
      assert At(io, s, g, x);
    }
  }

  /** What is parked by `addEvent` is what would be scheduled. */
  lemma AddedScheduled(io: R.Io, op: R.Op)
    requires R.Agreed(io) && op.Add? && op.fd < |R.Resized(io.chans, op.fd)|
    ensures var (t, rc) := R.AddEvent(io, op.fd, op.event, op.scheduler, op.c, op.ok);
            rc == 0 ==> op.fd < |t.chans| && Scheduled(t.chans[op.fd].Ctx(op.event)) == [op.c]
  {
    hide R.Agreed;
  }

  lemma RemoveRefines(io: R.Io, s: Simple, op: R.Op)
    requires R.Agreed(io) && Refines(io, s) && op.Remove?
    ensures Refines(R.RemoveEvent(io, op.fd, op.event, op.ok).0, Do(s, op))
  {
    R.RemoveEventStep(io, op.fd, op.event, op.ok);
    var (t, done) := R.RemoveEvent(io, op.fd, op.event, op.ok);
    assert At(io, s, op.fd, op.event);
    hide R.RemoveEvent, R.Agreed, R.Step, Held, Scheduled, Refines, At;
    if done {
      OnlyClears(io.chans[op.fd].events, op.event);
      Masked(op.fd, Only(op.event));
      ClearRefines(io, t, s, Do(s, op), op.fd, Only(op.event));
    } else {
      Absent(io, s, op.fd, op.event, op.ok);
    }
  }

  /** An event that nobody waits for is not in the map. */
  lemma Absent(io: R.Io, s: Simple, fd: nat, e: Event, ok: bool)
    requires Refines(io, s)
    ensures !(fd < |io.chans| && io.chans[fd].events.Has(e)) ==> (fd, e) !in s.waiting
    ensures (fd, e) !in s.waiting ==> s.waiting - {(fd, e)} == s.waiting
  {
    assert At(io, s, fd, e);
  }

  lemma CancelRefines(io: R.Io, s: Simple, op: R.Op)
    requires R.Agreed(io) && Refines(io, s) && op.Cancel?
    ensures Refines(R.CancelEvent(io, op.fd, op.event, op.ok).0, Do(s, op))
  {
    R.CancelEventStep(io, op.fd, op.event, op.ok);
    WakeAt(io, s, op.fd, op.event);
    var (t, done) := R.CancelEvent(io, op.fd, op.event, op.ok);
    assert io.queue == s.queue;
    Absent(io, s, op.fd, op.event, op.ok);
    hide R.CancelEvent, R.Agreed, R.Step, Held, Scheduled, Refines, At;
    if done {
      OnlyClears(io.chans[op.fd].events, op.event);
      Masked(op.fd, Only(op.event));
      ClearRefines(io, t, s, Do(s, op), op.fd, Only(op.event));
    }
  }

  /** Waking for both events of a mask, reading first. */
  lemma WakeMask(io: R.Io, s: Simple, fd: nat, m: Mask)
    requires R.Agreed(io) && Refines(io, s) && fd < |io.chans|
    ensures var t := if m.read then Wake(s, fd, Read) else s;
            var u := if m.write then Wake(t, fd, Write) else t;
            && u.queue == s.queue + R.Answer(io.chans[fd], m)
            && u.waiting
               == s.waiting - ((if m.read then {(fd, Read)} else {}) + (if m.write then {(fd, Write)} else {}))
  {
    WakeAt(io, s, fd, Read);
    WakeAt(io, s, fd, Write);
    R.AnswerReadsFirst(io.chans[fd], m);
    var p := if io.chans[fd].events.read && m.read then Scheduled(io.chans[fd].read) else [];
    var q := if io.chans[fd].events.write && m.write then Scheduled(io.chans[fd].write) else [];
    assert p == [] || m.read;
    hide Scheduled, R.Agreed, Refines, R.Answer;
    WakeBoth(s, fd, m, p, q);
  }

  lemma WakeBoth(s: Simple, fd: nat, m: Mask, p: seq<Continuation>, q: seq<Continuation>)
    requires if m.read then Wake(s, fd, Read).queue == s.queue + p else p == []
    requires if m.write then Wake(s, fd, Write).queue == s.queue + q else q == []
    requires forall e :: Wake(s, fd, e).waiting == s.waiting - {(fd, e)}
    ensures var t := if m.read then Wake(s, fd, Read) else s;
            var u := if m.write then Wake(t, fd, Write) else t;
            && u.queue == s.queue + (p + q)
            && u.waiting
               == s.waiting - ((if m.read then {(fd, Read)} else {}) + (if m.write then {(fd, Write)} else {}))
  {
    var t := if m.read then Wake(s, fd, Read) else s;
    assert t.queue == s.queue + p;
    var u := if m.write then Wake(t, fd, Write) else t;
    if m.write {
      assert (fd, Write) in t.waiting <==> (fd, Write) in s.waiting;
      SameSuffix(s.queue, q, t.queue, if (fd, Write) in s.waiting then [s.waiting[(fd, Write)]] else []);
    }
    assert s.queue + p + q == s.queue + (p + q);
    assert u.waiting == s.waiting - ((if m.read then {(fd, Read)} else {}) + (if m.write then {(fd, Write)} else {}));
  }

  lemma SameSuffix(a: seq<Continuation>, q: seq<Continuation>, b: seq<Continuation>, r: seq<Continuation>)
    ensures a + q == a + r ==> q == r
    ensures b + [] == b && a + [] == a
  {
    assert (a + q)[|a|..] == q && (a + r)[|a|..] == r;
  }

  lemma CancelAllRefines(io: R.Io, s: Simple, op: R.Op)
    requires R.Agreed(io) && Refines(io, s) && op.CancelEvery?
    ensures Refines(R.CancelAll(io, op.fd, op.ok).0, Do(s, op))
  {
    R.CancelAllStep(io, op.fd, op.ok);
    var (t, done) := R.CancelAll(io, op.fd, op.ok);
    var both := Mask(true, true);
    Absent(io, s, op.fd, Read, op.ok);
    Absent(io, s, op.fd, Write, op.ok);
    assert io.queue == s.queue;
    hide R.CancelAll, R.Agreed, R.Step, Held, Scheduled, Refines, At;
    if done {
      WakeMask(io, s, op.fd, both);
      AnswerOwn(io.chans[op.fd]);
      Masked(op.fd, both);
      ClearRefines(io, t, s, Do(s, op), op.fd, both);
    }
  }

  lemma AnswerOwn(ch: Chan)
    ensures R.Answer(ch, Mask(true, true)) == R.Answer(ch, ch.events)
    ensures ch.events.Minus(Mask(true, true)) == NONE
  {
    hide Scheduled;
  }

  lemma ArriveRefines(io: R.Io, s: Simple, op: R.Op)
    requires R.Agreed(io) && Refines(io, s) && op.Arrive? && op.fd < |io.chans|
    ensures Refines(R.Dispatch(io, op.fd, op.report, op.ok), Do(s, op))
  {
    var r := op.report;
    var ch, t := io.chans[op.fd], R.Dispatch(io, op.fd, r, op.ok);
    var m := Mask(r.input || r.failure, r.output || r.failure);
    R.DispatchAnswers(io, op.fd, r, op.ok);
    R.DispatchStep(io, op.fd, r, op.ok);
    Absent(io, s, op.fd, Read, op.ok);
    Absent(io, s, op.fd, Write, op.ok);
    assert io.queue == s.queue;
    R.AnswerReadsFirst(ch, m);
    hide R.Dispatch, R.Agreed, R.Step, Held, Scheduled, Refines, At, R.Answer, R.Excess, R.Surplus;
    if t != io {
      WakeMask(io, s, op.fd, m);
      Masked(op.fd, m);
      ClearRefines(io, t, s, Do(s, op), op.fd, m);
    } else {
      WakeNobody(io, s, op.fd, m, op.ok);
    }
  }

  lemma WakeNobody(io: R.Io, s: Simple, fd: nat, m: Mask, ok: bool)
    requires Refines(io, s) && fd < |io.chans|
    ensures m.read && !io.chans[fd].events.read ==> Wake(s, fd, Read) == s
    ensures m.write && !io.chans[fd].events.write ==> Wake(s, fd, Write) == s
  {
    assert At(io, s, fd, Read) && At(io, s, fd, Write);
  }

  // ----- runs -----

  /** A report on a descriptor without a channel finds nobody. */
  lemma NoChannel(io: R.Io, s: Simple, op: R.Op)
    requires Refines(io, s) && op.Arrive? && op.fd >= |io.chans|
    ensures Do(s, op) == s
  {
    assert At(io, s, op.fd, Read) && At(io, s, op.fd, Write);
  }

  lemma NextRefines(h: R.History, op: R.Op, s: Simple)
    requires R.Invariant(h) && Refines(h.io, s)
    ensures Refines(R.Next(h, op).io, Do(s, op))
  {
    hide R.Agreed, R.Conserved, R.AddEvent, R.RemoveEvent, R.CancelEvent, R.CancelAll, R.Dispatch, Do, Refines;
    match op
    case Add(_, _, _, _, _) => AddRefines(h.io, s, op);
    case Remove(_, _, _) => RemoveRefines(h.io, s, op);
    case Cancel(_, _, _) => CancelRefines(h.io, s, op);
    case CancelEvery(_, _) => CancelAllRefines(h.io, s, op);
    case Arrive(fd, _, _) =>
      if fd < |h.io.chans| {
        ArriveRefines(h.io, s, op);
      } else {
        NoChannel(h.io, s, op);
      }
  }

  function DoAll(s: Simple, ops: seq<R.Op>): Simple
    decreases |ops|
  {
    if ops == [] then s else DoAll(Do(s, ops[0]), ops[1..])
  }

  lemma {:induction false} RunRefines(h: R.History, ops: seq<R.Op>, s: Simple)
    requires R.Invariant(h) && Refines(h.io, s)
    ensures Refines(R.Run(h, ops).io, DoAll(s, ops))
    decreases |ops|
  {
    hide R.Agreed, R.Conserved, Do, Refines, R.Next;
    if ops != [] {
      R.NextInvariant(h, ops[0]);
      NextRefines(h, ops[0], s);
      RunRefines(R.Next(h, ops[0]), ops[1..], Do(s, ops[0]));
    }
  }

  /** Every run of the event table, whatever the kernel answers and reports, is one of the map. */
  lemma EventsAreSimple(ops: seq<R.Op>)
    ensures R.Invariant(R.START)
    ensures Refines(R.Run(R.START, ops).io, DoAll(Simple(map[], []), ops))
  {
    R.StartInvariant();
    assert Refines(R.START.io, Simple(map[], []));
    RunRefines(R.START, ops, Simple(map[], []));
  }
}
