/** The event registration object of `easy/base/IOManager.cc`, proved against `Registration`. */
module IOManagers {
  import opened Channels
  import opened Options
  import opened R = Registration

  /** The members of `IOManager` that registration uses. `kernel` is the kernel's table, and `queue`
      stands for the calls of `schedule`. */
  class IOManager {
    var channels: seq<Channel>
    var pending: int
    var kernel: Kernel
    var queue: seq<Continuation>

    ghost predicate Distinct()
      reads this
    {
      forall i, j :: 0 <= i < j < |channels| ==> channels[i] != channels[j]
    }

    /** The channels after these are new. */
    twostate predicate NewFrom(cs: seq<Channel>)
      reads this
    {
      forall i :: |cs| <= i < |channels| ==> fresh(channels[i])
    }

    ghost function Chans(): (s: seq<Chan>)
      reads this, channels
      ensures |s| == |channels| && forall i :: 0 <= i < |channels| ==> s[i] == channels[i].Value()
    {
      seq(|channels|, i requires 0 <= i < |channels| reads this, channels => channels[i].Value())
    }

    ghost function State(): Io
      reads this, channels
    {
      Io(Chans(), pending, kernel, queue)
    }

    ghost predicate Valid()
      reads this, channels
    {
      Distinct() && Agreed(State())
    }

    constructor ()
      ensures Valid() && State() == START.io && forall i :: 0 <= i < |channels| ==> fresh(channels[i])
    {
      channels := [];
      pending, kernel, queue := 0, Kernel(map[], 0), [];
      new;
      ResizeChannels(32);
      assert Chans() == Idles(32);
    }

    /** `resizeChannels`. */
    method ResizeChannels(n: nat)
      requires Distinct() && n >= |channels|
      modifies this`channels
      ensures Distinct() && |channels| == n && old(channels) <= channels && NewFrom(old(channels))
      ensures Chans() == old(Chans()) + Idles(n - |old(channels)|)
    {
      while |channels| < n
        invariant Distinct() && |old(channels)| <= |channels| <= n
        invariant old(channels) <= channels && NewFrom(old(channels))
        invariant Chans() == old(Chans()) + Idles(|channels| - |old(channels)|)
        decreases n - |channels|
      {
        var c := new Channel();
        channels := channels + [c];
      }
    }

    /** The channel of a descriptor, made if there is none yet. */
    method ChannelOf(fd: nat) returns (c: Channel)
      requires Valid()
      modifies this`channels
      ensures Valid() && old(channels) <= channels && NewFrom(old(channels))
      ensures State() == old(State()).(chans := Resized(old(State()).chans, fd))
      ensures fd < |channels| && c == channels[fd]
    {
      hide Agreed, AllParked, TotalBits, Counted, Chan.Parked, Held, Chan.Consistent;
      ResizedAgrees(State(), fd);
      if fd >= |channels| {
        ResizeChannels(2 * fd);
      }
      c := channels[fd];
    }

    method EpollCtl(op: CtlOp, fd: nat, mask: Mask, ok: bool) returns (done: bool)
      modifies this`kernel
      ensures (kernel, done) == Ctl(old(kernel), op, fd, mask, ok)
      ensures State() == old(State()).(kernel := kernel)
    {
      ghost var s := State();
      var answer := Ctl(kernel, op, fd, mask, ok);
      kernel, done := answer.0, answer.1;
      assert State().chans == s.chans;
    }

    /** `addEvent`; the continuation is the callback if there is one and the running fiber if not. */
    method AddEvent(fd: nat, e: Event, cb: Option<nat>, scheduler: nat, running: nat, ok: bool) returns (rc: int)
      requires Valid()
      modifies this, channels
      ensures Valid() && old(channels) <= channels && NewFrom(old(channels))
      ensures fd < |Resized(old(State()).chans, fd)|
      ensures (State(), rc) == R.AddEvent(old(State()), fd, e, scheduler,
                                 if cb.Some? then Callback(cb.value) else Fiber(running), ok)
    {
      hide Agreed, AllParked, TotalBits, Counted, Chan.Parked, Held, Chan.Consistent;
      ghost var s := State();
      ghost var c := if cb.Some? then Callback(cb.value) else Fiber(running);
      AddEventStep(s, fd, e, scheduler, c, ok);
      var channel := ChannelOf(fd);
      if channel.events.Has(e) {
        return -1;
      }
      var op := if channel.events == NONE then ADD else MOD;
      var done := EpollCtl(op, fd, channel.events.With(e), ok);
      if !done {
        return -1;
      }
      ClearBitEmptyContext(s, fd, e);
      Park(fd, e, cb, scheduler, running);
      rc := 0;
      assert State() == R.AddEvent(s, fd, e, scheduler, c, ok).0;
    }

    /** The last part of `addEvent`: the bit is set and its context filled. */
    method Park(fd: nat, e: Event, cb: Option<nat>, scheduler: nat, running: nat)
      requires Distinct() && fd < |channels| && channels[fd].Value().Ctx(e) == EMPTY
      modifies this`pending, channels[fd]
      ensures var s, c := old(State()), if cb.Some? then Callback(cb.value) else Fiber(running);
              var ch := s.chans[fd];
              var ch' := ch.(events := ch.events.With(e)).WithCtx(e, Parking(scheduler, c));
              State() == s.(pending := s.pending + 1, chans := s.chans[fd := ch'])
    {
      ghost var s := State();
      var channel := channels[fd];
      pending := pending + 1;
      channel.events := channel.events.With(e);
      assert channel.Value().Ctx(e) == EMPTY;
      channel.SetCtx(e, if cb.Some? then EventCtx(Some(scheduler), None, cb)
                        else EventCtx(Some(scheduler), Some(running), None));
      assert State().chans == s.chans[fd := channel.Value()];
    }

    /** The assertion of `addEvent`: a clear bit's context is empty. */
    lemma ClearBitEmptyContext(s: Io, fd: nat, e: Event)
      requires Agreed(s) && fd < |Resized(s.chans, fd)| && !Resized(s.chans, fd)[fd].events.Has(e)
      ensures Resized(s.chans, fd)[fd].Ctx(e) == EMPTY
    {
    }

    method RemoveEvent(fd: nat, e: Event, ok: bool) returns (r: bool)
      requires Valid()
      modifies this, channels
      ensures Valid() && channels == old(channels)
      ensures (State(), r) == R.RemoveEvent(old(State()), fd, e, ok)
    {
      hide Agreed, AllParked, TotalBits, Counted, Chan.Parked, Held, Chan.Consistent;
      ghost var s := State();
      RemoveEventStep(s, fd, e, ok);
      if |channels| <= fd {
        return false;
      }
      var channel := channels[fd];
      if !channel.events.Has(e) {
        return false;
      }
      var left := channel.events.Without(e);
      var done := EpollCtl(if left == NONE then DEL else MOD, fd, left, ok);
      if !done {
        return false;
      }
      pending := pending - 1;
      channel.events := left;
      channel.CleanUp(e);
      r := true;
      assert State() == R.RemoveEvent(s, fd, e, ok).0;
    }

    /** `handleEvent`, then `pendingEventCount_.decrement()`. */
    method FireEvent(fd: nat, e: Event)
      requires Distinct() && fd < |channels|
      modifies this`queue, this`pending, channels[fd]
      ensures State() == Fire(old(State()), fd, e)
    {
      ghost var s := State();
      var q := channels[fd].HandleEvent(e);
      queue := queue + q;
      pending := pending - 1;
      assert Chans() == Fire(s, fd, e).chans;
    }

    method CancelEvent(fd: nat, e: Event, ok: bool) returns (r: bool)
      requires Valid()
      modifies this, channels
      ensures Valid() && channels == old(channels)
      ensures (State(), r) == R.CancelEvent(old(State()), fd, e, ok)
    {
      hide Agreed, AllParked, TotalBits, Counted, Chan.Parked, Held, Chan.Consistent;
      CancelEventStep(State(), fd, e, ok);
      if |channels| <= fd || !channels[fd].events.Has(e) {
        return false;
      }
      var left := channels[fd].events.Without(e);
      var done := EpollCtl(if left == NONE then DEL else MOD, fd, left, ok);
      if !done {
        return false;
      }
      FireEvent(fd, e);
      r := true;
    }

    method CancelAll(fd: nat, ok: bool) returns (r: bool)
      requires Valid()
      modifies this, channels
      ensures Valid() && channels == old(channels)
      ensures (State(), r) == R.CancelAll(old(State()), fd, ok)
    {
      hide Agreed, AllParked, TotalBits, Counted, Chan.Parked, Held, Chan.Consistent;
      CancelAllStep(State(), fd, ok);
      if |channels| <= fd || channels[fd].events == NONE {
        return false;
      }
      var done := EpollCtl(DEL, fd, NONE, ok);
      if !done {
        return false;
      }
      if channels[fd].events.Has(Read) {
        FireEvent(fd, Read);
      }
      if channels[fd].events.Has(Write) {
        FireEvent(fd, Write);
      }
      assert channels[fd].events == NONE;
      r := true;
    }

    /** `idle`, for one report of `epoll_wait` on a channel. */
    method Serve(fd: nat, report: Report, ok: bool)
      requires Valid() && fd < |channels|
      modifies this, channels
      ensures Valid() && channels == old(channels)
      ensures State() == Dispatch(old(State()), fd, report, ok)
    {
      hide Agreed, AllParked, TotalBits, Counted, Chan.Parked, Held, Chan.Consistent;
      DispatchStep(State(), fd, report, ok);
      var events := channels[fd].events;
      var input, output := report.input, report.output;
      if report.failure {
        input, output := input || events.read, output || events.write;
      }
      var revents := Mask(input, output);
      if !events.Meets(revents) {
        return;
      }
      var left := events.Minus(revents);
      var done := EpollCtl(if left == NONE then DEL else MOD, fd, left, ok);
      if !done {
        return;
      }
      if revents.Has(Read) {
        FireEvent(fd, Read);
      }
      if revents.Has(Write) {
        FireEvent(fd, Write);
      }
    }
  }
}
