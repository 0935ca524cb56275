/** Event registration (`easy/base/IOManager.cc`): interest bits per file descriptor, a global count of
    them, and the kernel's epoll table, kept in agreement.

    Each operation holds its channel's lock and is one step here. The kernel is a map from descriptor
    to mask; `epoll_ctl` fails on an illegal operation, which is counted, and may fail otherwise. */
module Registration {
  import opened Channels
  import opened Options

  // ----- the kernel table -----

  datatype CtlOp = ADD | MOD | DEL

  datatype Kernel = Kernel(table: map<nat, Mask>, illegal: nat)

  predicate Legal(k: Kernel, op: CtlOp, fd: nat) {
    op.ADD? <==> fd !in k.table
  }

  /** `epoll_ctl`; `ok` is the kernel's choice when the operation is legal. */
  function Ctl(k: Kernel, op: CtlOp, fd: nat, mask: Mask, ok: bool): (Kernel, bool) {
    if !Legal(k, op, fd) then (k.(illegal := k.illegal + 1), false)
    else if !ok then (k, false)
    else if op.DEL? then (k.(table := k.table - {fd}), true)
    else (k.(table := k.table[fd := mask]), true)
  }

  /** The kernel refuses and counts an ADD of a descriptor it has and a MOD or DEL of one it has not; any
      other operation succeeds as `ok` says, and a refused one changes nothing. */
  lemma KernelRefuses(k: Kernel, op: CtlOp, fd: nat, mask: Mask, ok: bool)
    ensures var (t, done) := Ctl(k, op, fd, mask, ok);
            && (t.illegal == k.illegal + 1 <==> (op.ADD? <==> fd in k.table))
            && (t.illegal == k.illegal || t.illegal == k.illegal + 1)
            && (done <==> ok && !(op.ADD? <==> fd in k.table))
            && (!done ==> t.table == k.table)
            && (done ==> (fd in t.table <==> !op.DEL?) && (fd in t.table ==> t.table[fd] == mask))
            && (forall g :: g != fd ==> (g in t.table <==> g in k.table) && (g in k.table ==> t.table[g] == k.table[g]))
  {
  }

  // ----- the operations on values -----

  /** `queue` lists every continuation handed to the scheduler, in order. */
  datatype Io = Io(chans: seq<Chan>, pending: int, kernel: Kernel, queue: seq<Continuation>)

  function Idles(n: nat): (s: seq<Chan>)
    ensures |s| == n && forall i :: 0 <= i < n ==> s[i] == IDLE
  {
    seq(n, _ => IDLE)
  }

  /** `resizeChannels(idx << 1)` when the descriptor has no channel yet. */
  function Resized(chans: seq<Chan>, fd: nat): (r: seq<Chan>)
    ensures |r| == if fd < |chans| || 2 * fd <= |chans| then |chans| else 2 * fd
  {
    if fd < |chans| || 2 * fd <= |chans| then chans else chans + Idles(2 * fd - |chans|)
  }

  function AddEvent(s: Io, fd: nat, e: Event, scheduler: nat, c: Continuation, ok: bool): (Io, int)
    requires fd < |Resized(s.chans, fd)|
  {
    var s := s.(chans := Resized(s.chans, fd));
    var ch := s.chans[fd];
    if ch.events.Has(e) then (s, -1)
    else
      var (k, done) := Ctl(s.kernel, if ch.events == NONE then ADD else MOD, fd, ch.events.With(e), ok);
      if !done then (s.(kernel := k), -1)
      else
        var ch' := ch.(events := ch.events.With(e)).WithCtx(e, Parking(scheduler, c));
        (s.(kernel := k, pending := s.pending + 1, chans := s.chans[fd := ch']), 0)
  }

  function RemoveEvent(s: Io, fd: nat, e: Event, ok: bool): (Io, bool) {
    if fd >= |s.chans| || !s.chans[fd].events.Has(e) then (s, false)
    else
      var ch := s.chans[fd];
      var left := ch.events.Without(e);
      var (k, done) := Ctl(s.kernel, if left == NONE then DEL else MOD, fd, left, ok);
      if !done then (s.(kernel := k), false)
      else
        var ch' := ch.(events := left).WithCtx(e, EMPTY);
        (s.(kernel := k, pending := s.pending - 1, chans := s.chans[fd := ch']), true)
  }

  /** `handleEvent` on one channel, followed by the decrement. */
  function Fire(s: Io, fd: nat, e: Event): Io
    requires fd < |s.chans|
  {
    var (ch, q) := Handle(s.chans[fd], e);
    s.(chans := s.chans[fd := ch], queue := s.queue + q, pending := s.pending - 1)
  }

  function CancelEvent(s: Io, fd: nat, e: Event, ok: bool): (Io, bool) {
    if fd >= |s.chans| || !s.chans[fd].events.Has(e) then (s, false)
    else
      var left := s.chans[fd].events.Without(e);
      var (k, done) := Ctl(s.kernel, if left == NONE then DEL else MOD, fd, left, ok);
      if !done then (s.(kernel := k), false) else (Fire(s.(kernel := k), fd, e), true)
  }

  function FireIf(s: Io, fd: nat, m: Mask, e: Event): (r: Io)
    requires fd < |s.chans|
    ensures |r.chans| == |s.chans|
  {
    if m.Has(e) then Fire(s, fd, e) else s
  }

  function CancelAll(s: Io, fd: nat, ok: bool): (Io, bool) {
    if fd >= |s.chans| || s.chans[fd].events == NONE then (s, false)
    else
      var (k, done) := Ctl(s.kernel, DEL, fd, NONE, ok);
      if !done then (s.(kernel := k), false)
      else
        var s := FireIf(s.(kernel := k), fd, s.chans[fd].events, Read);
        (FireIf(s, fd, s.chans[fd].events, Write), true)
  }

  /** An entry of `epoll_wait`: readable, writable, and `EPOLLERR` or `EPOLLHUP`. */
  datatype Report = Report(input: bool, output: bool, failure: bool)

  /** `revents`: an error counts as everything the channel waits for. */
  function Revents(ch: Chan, r: Report): Mask {
    Mask(r.input || (r.failure && ch.events.read), r.output || (r.failure && ch.events.write))
  }

  /** The part of `idle` that serves one report on a channel. */
  function Dispatch(s: Io, fd: nat, r: Report, ok: bool): Io
    requires fd < |s.chans|
  {
    var ch := s.chans[fd];
    var revents := Revents(ch, r);
    if !ch.events.Meets(revents) then s
    else
      var left := ch.events.Minus(revents);
      var (k, done) := Ctl(s.kernel, if left == NONE then DEL else MOD, fd, left, ok);
      if !done then s.(kernel := k)
      else FireIf(FireIf(s.(kernel := k), fd, revents, Read), fd, revents, Write)
  }

  // ----- invariants -----

  function TotalBits(chans: seq<Chan>): nat {
    if chans == [] then 0 else chans[0].events.Size() + TotalBits(chans[1..])
  }

  function AllParked(chans: seq<Chan>): multiset<Continuation> {
    if chans == [] then multiset{} else chans[0].Parked() + AllParked(chans[1..])
  }

  lemma {:induction false} UpdateChannel(chans: seq<Chan>, i: nat, ch: Chan)
    requires i < |chans|
    ensures TotalBits(chans[i := ch]) == TotalBits(chans) - chans[i].events.Size() + ch.events.Size()
    ensures AllParked(chans[i := ch]) + chans[i].Parked() == AllParked(chans) + ch.Parked()
  {
    hide Chan.Parked, Mask.Size;
    var chans' := chans[i := ch];
    if i == 0 {
      assert chans'[1..] == chans[1..];
      Regroup(ch.Parked(), AllParked(chans[1..]), chans[0].Parked());
    } else {
      assert chans'[1..] == chans[1..][i - 1 := ch];
      UpdateChannel(chans[1..], i - 1, ch);
      Under(chans[0].Parked(), AllParked(chans'[1..]), chans[i].Parked(), AllParked(chans[1..]), ch.Parked());
    }
  }

  lemma Regroup<T>(a: multiset<T>, b: multiset<T>, c: multiset<T>)
    ensures (a + b) + c == (c + b) + a
  {
  }

  lemma Under<T>(h: multiset<T>, a: multiset<T>, b: multiset<T>, c: multiset<T>, d: multiset<T>)
    requires a + b == c + d
    ensures (h + a) + b == (h + c) + d
  {
    assert (h + a) + b == h + (a + b);
    assert (h + c) + d == h + (c + d);
  }

  /** If one channel turns what it parked and `accepted` into what it parks then and `gone`, so does
      the whole. */
  lemma Balance<T>(all: multiset<T>, all': multiset<T>, one: multiset<T>, one': multiset<T>,
                   accepted: multiset<T>, gone: multiset<T>)
    requires all' + one == all + one' && one + accepted == one' + gone
    ensures all + accepted == all' + gone
  {
    forall x | x in all || x in accepted || x in all' || x in gone
      ensures (all + accepted)[x] == (all' + gone)[x]
    {
      assert (all' + one)[x] == (all + one')[x];
      assert (one + accepted)[x] == (one' + gone)[x];
    }
  }

  lemma {:induction false} AppendIdles(chans: seq<Chan>, n: nat)
    ensures TotalBits(chans + Idles(n)) == TotalBits(chans)
    ensures AllParked(chans + Idles(n)) == AllParked(chans)
    decreases |chans|, n
  {
    if chans != [] {
      assert (chans + Idles(n))[1..] == chans[1..] + Idles(n);
      AppendIdles(chans[1..], n);
    } else if n > 0 {
      assert (chans + Idles(n))[1..] == [] + Idles(n - 1);
      AppendIdles([], n - 1);
    }
  }

  /** Contexts match their bits, and the kernel holds exactly the nonempty masks. */
  ghost predicate Agreed(s: Io) {
    && |s.chans| >= 32
    && (forall i :: 0 <= i < |s.chans| ==> s.chans[i].Consistent())
    && (forall fd: nat :: fd in s.kernel.table <==> fd < |s.chans| && s.chans[fd].events != NONE)
    && (forall fd: nat :: fd in s.kernel.table ==> s.kernel.table[fd] == s.chans[fd].events)
  }

  /** The counter less the number of set bits. */
  function Surplus(s: Io): int {
    s.pending - TotalBits(s.chans)
  }

  /** The counter is the number of set bits. */
  ghost predicate Counted(s: Io) {
    Surplus(s) == 0
  }

  /** One operation: from agreement it leads to agreement, no `epoll_ctl` it issues is illegal, and
      what was parked or accepted is now parked, handed to the scheduler, or dropped. */
  ghost predicate Step(s: Io, t: Io, accepted: multiset<Continuation>, dropped: multiset<Continuation>) {
    && Agreed(t)
    && t.kernel.illegal == s.kernel.illegal
    && s.queue <= t.queue
    && AllParked(s.chans) + accepted == AllParked(t.chans) + multiset(t.queue[|s.queue|..]) + dropped
  }

  /** The operation touched one channel, or nothing at all. */
  ghost predicate Only(s: Io, t: Io, fd: nat, done: bool) {
    && (done ==> fd < |s.chans| == |t.chans| && t.chans == s.chans[fd := t.chans[fd]])
    && (!done ==> t == s)
  }

  function AnswerOne(ch: Chan, m: Mask, e: Event): seq<Continuation> {
    if ch.events.Has(e) && m.Has(e) then Scheduled(ch.Ctx(e)) else []
  }

  /** What a channel hands to the scheduler when these events are handled: reading first. */
  function Answer(ch: Chan, m: Mask): seq<Continuation> {
    AnswerOne(ch, m, Read) + AnswerOne(ch, m, Write)
  }

  /** Replacing one channel and telling the kernel keeps agreement; the operation that the code picks
      is legal. */
  lemma ReplaceChannel(s: Io, fd: nat, ch: Chan, op: CtlOp, ok: bool)
    requires Agreed(s) && fd < |s.chans| && ch.Consistent()
    requires ch.events != NONE || s.chans[fd].events != NONE
    requires op == if ch.events == NONE then DEL else if s.chans[fd].events == NONE then ADD else MOD
    ensures Legal(s.kernel, op, fd) && (op.ADD? <==> fd !in s.kernel.table)
    ensures var (k, done) := Ctl(s.kernel, op, fd, ch.events, ok);
            && done == ok && k.illegal == s.kernel.illegal
            && Agreed(if done then s.(kernel := k, chans := s.chans[fd := ch]) else s.(kernel := k))
  {
  }

  lemma ResizedAgrees(s: Io, fd: nat)
    requires Agreed(s)
    ensures var t := s.(chans := Resized(s.chans, fd));
            && Agreed(t) && fd < |t.chans|
            && TotalBits(t.chans) == TotalBits(s.chans) && AllParked(t.chans) == AllParked(s.chans)
  {
    hide TotalBits, AllParked, Chan.Parked;
    var n := |Resized(s.chans, fd)| - |s.chans|;
    AppendIdles(s.chans, n);
    assert s.chans + Idles(0) == s.chans;
    assert Resized(s.chans, fd) == s.chans + Idles(n);
  }

  /** One channel's events, contexts and kernel entry replaced, with the continuations balanced. */
  lemma ChannelStep(s: Io, t: Io, fd: nat, accepted: multiset<Continuation>, dropped: multiset<Continuation>)
    requires fd < |s.chans| == |t.chans| && t.chans == s.chans[fd := t.chans[fd]]
    requires Agreed(t) && t.kernel.illegal == s.kernel.illegal && s.queue <= t.queue
    requires s.chans[fd].Parked() + accepted
          == t.chans[fd].Parked() + (multiset(t.queue[|s.queue|..]) + dropped)
    ensures Step(s, t, accepted, dropped)
    ensures TotalBits(t.chans) == TotalBits(s.chans) - s.chans[fd].events.Size() + t.chans[fd].events.Size()
  {
    hide Chan.Parked, AllParked, TotalBits, Agreed, Mask.Size;
    UpdateChannel(s.chans, fd, t.chans[fd]);
    var gone := multiset(t.queue[|s.queue|..]) + dropped;
    Balance(AllParked(s.chans), AllParked(t.chans), s.chans[fd].Parked(), t.chans[fd].Parked(), accepted, gone);
    assert AllParked(t.chans) + gone == AllParked(t.chans) + multiset(t.queue[|s.queue|..]) + dropped;
  }

  lemma NothingMoved(s: Io, t: Io)
    requires Agreed(t) && t.chans == s.chans && t.kernel.illegal == s.kernel.illegal && t.queue == s.queue
    ensures Step(s, t, multiset{}, multiset{})
  {
    hide AllParked, Agreed;
    assert t.queue[|s.queue|..] == [];
  }

  lemma AddEventStep(s: Io, fd: nat, e: Event, scheduler: nat, c: Continuation, ok: bool)
    requires Agreed(s)
    ensures fd < |Resized(s.chans, fd)|
    ensures var (t, rc) := AddEvent(s, fd, e, scheduler, c, ok);
            && Step(s, t, if rc == 0 then multiset{c} else multiset{}, multiset{})
            && Surplus(t) == Surplus(s)
            && rc == (if ok && !Resized(s.chans, fd)[fd].events.Has(e) then 0 else -1)
            && Only(s.(chans := Resized(s.chans, fd)), t, fd, rc == 0)
            && (rc == 0 ==>
                 && t.chans[fd].events == Resized(s.chans, fd)[fd].events.With(e)
                 && t.chans[fd].Ctx(e).scheduler == Some(scheduler)
                 && (forall x :: x != e ==> t.chans[fd].Ctx(x) == Resized(s.chans, fd)[fd].Ctx(x))
                 && t.queue == s.queue)
  {
    hide AllParked, TotalBits, Chan.Parked;
    ResizedAgrees(s, fd);
    var s' := s.(chans := Resized(s.chans, fd));
    var (t, rc) := AddEvent(s, fd, e, scheduler, c, ok);
    var ch := s'.chans[fd];
    if !ch.events.Has(e) {
      var ch' := ch.(events := ch.events.With(e)).WithCtx(e, Parking(scheduler, c));
      ReplaceChannel(s', fd, ch', if ch.events == NONE then ADD else MOD, ok);
      ParkOne(ch, e, scheduler, c);
    }
    assert t.queue[|s'.queue|..] == [];
    if rc == 0 {
      ChannelStep(s', t, fd, multiset{c}, multiset{});
    } else {
      NothingMoved(s', t);
    }
  }

  lemma ParkOne(ch: Chan, e: Event, scheduler: nat, c: Continuation)
    requires ch.Consistent() && !ch.events.Has(e)
    ensures var ch' := ch.(events := ch.events.With(e)).WithCtx(e, Parking(scheduler, c));
            && ch'.Consistent() && ch'.events.Size() == ch.events.Size() + 1
            && ch.Parked() + multiset{c} == ch'.Parked() + (multiset([]) + multiset{})
  {
    hide Held;
    HeldIsScheduled(EMPTY);
    HeldParking(scheduler, c);
    if e.Read? {
      assert Held(ch.read) == multiset{};
    } else {
      assert Held(ch.write) == multiset{};
    }
  }

  lemma HeldParking(scheduler: nat, c: Continuation)
    ensures Held(Parking(scheduler, c)) == multiset{c} && Occupied(Parking(scheduler, c))
  {
  }

  lemma RemoveEventStep(s: Io, fd: nat, e: Event, ok: bool)
    requires Agreed(s)
    ensures var (t, done) := RemoveEvent(s, fd, e, ok);
            && (done <==> ok && fd < |s.chans| && s.chans[fd].events.Has(e))
            && (done ==> |Held(s.chans[fd].Ctx(e))| == 1)
            && Only(s, t, fd, done)
            && (done ==>
                 && t.chans[fd].events == s.chans[fd].events.Without(e)
                 && (forall x :: x != e ==> t.chans[fd].Ctx(x) == s.chans[fd].Ctx(x))
                 && t.queue == s.queue)
            && Step(s, t, multiset{}, if done then Held(s.chans[fd].Ctx(e)) else multiset{})
            && Surplus(t) == Surplus(s)
  {
    hide AllParked, TotalBits, Chan.Parked, Held;
    var (t, done) := RemoveEvent(s, fd, e, ok);
    assert t.queue[|s.queue|..] == [];
    if fd < |s.chans| && s.chans[fd].events.Has(e) {
      var ch := s.chans[fd];
      var ch' := ch.(events := ch.events.Without(e)).WithCtx(e, EMPTY);
      DropOne(ch, e);
      ReplaceChannel(s, fd, ch', if ch'.events == NONE then DEL else MOD, ok);
    }
    if done {
      ChannelStep(s, t, fd, multiset{}, Held(s.chans[fd].Ctx(e)));
    } else {
      NothingMoved(s, t);
    }
  }

  lemma DropOne(ch: Chan, e: Event)
    requires ch.Consistent() && ch.events.Has(e)
    ensures var ch' := ch.(events := ch.events.Without(e)).WithCtx(e, EMPTY);
            && ch'.Consistent() && ch'.events.Size() == ch.events.Size() - 1
            && |Held(ch.Ctx(e))| == 1
            && ch.Parked() + multiset{} == ch'.Parked() + (multiset([]) + Held(ch.Ctx(e)))
  {
    HeldIsScheduled(ch.Ctx(e));
  }

  /** Firing the events of a mask on a channel: the set ones among them hand over what they parked;
      the counter drops by the size of the mask. */
  lemma FireMask(s: Io, fd: nat, m: Mask)
    requires fd < |s.chans| && s.chans[fd].Consistent()
    ensures var t := FireIf(FireIf(s, fd, m, Read), fd, m, Write);
            && t.chans == s.chans[fd := t.chans[fd]] && t.kernel == s.kernel
            && t.chans[fd].Consistent() && t.chans[fd].events == s.chans[fd].events.Minus(m)
            && (forall x :: !m.Has(x) ==> t.chans[fd].Ctx(x) == s.chans[fd].Ctx(x))
            && t.pending == s.pending - m.Size()
            && t.queue == s.queue + Answer(s.chans[fd], m)
            && s.chans[fd].Parked() + multiset{}
               == t.chans[fd].Parked() + (multiset(t.queue[|s.queue|..]) + multiset{})
  {
    hide Chan.Parked, Chan.Consistent, Handle;
    var r := FireIf(s, fd, m, Read);
    FireOne(s, fd, m, Read);
    FireOne(r, fd, m, Write);
    var t := FireIf(r, fd, m, Write);
    hide Scheduled, FireIf;
    var p, q := AnswerOne(s.chans[fd], m, Read), AnswerOne(s.chans[fd], m, Write);
    assert q == AnswerOne(r.chans[fd], m, Write);
    hide AnswerOne;
    Appended(s.queue, p, q);
    Chain(s.chans[fd].Parked(), r.chans[fd].Parked(), t.chans[fd].Parked(), p, q);
  }

  lemma Appended<T>(s: seq<T>, p: seq<T>, q: seq<T>)
    ensures s + p + q == s + (p + q) && (s + p + q)[|s|..] == p + q
  {
  }

  lemma FireOne(s: Io, fd: nat, m: Mask, e: Event)
    requires fd < |s.chans| && s.chans[fd].Consistent()
    ensures var t := FireIf(s, fd, m, e);
            && t.chans == s.chans[fd := t.chans[fd]] && t.kernel == s.kernel
            && t.chans[fd].Consistent()
            && t.chans[fd].events == (if m.Has(e) then s.chans[fd].events.Without(e) else s.chans[fd].events)
            && t.pending == s.pending - (if m.Has(e) then 1 else 0)
            && t.queue == s.queue + AnswerOne(s.chans[fd], m, e)
            && (forall x :: x != e || !m.Has(e) ==> t.chans[fd].Ctx(x) == s.chans[fd].Ctx(x))
            && s.chans[fd].Parked() == t.chans[fd].Parked() + multiset(AnswerOne(s.chans[fd], m, e))
  {
    hide Chan.Parked, Chan.Consistent, Handle, Scheduled;
    if m.Has(e) {
      HandleMoves(s.chans[fd], e);
    }
  }

  lemma Chain<T>(a: multiset<T>, b: multiset<T>, c: multiset<T>, q: seq<T>, r: seq<T>)
    requires a == b + multiset(q) && b == c + multiset(r)
    ensures a + multiset{} == c + (multiset(q + r) + multiset{})
  {
    assert multiset(q + r) == multiset(q) + multiset(r);
  }

  lemma CancelEventStep(s: Io, fd: nat, e: Event, ok: bool)
    requires Agreed(s)
    ensures var (t, done) := CancelEvent(s, fd, e, ok);
            && Step(s, t, multiset{}, multiset{}) && Surplus(t) == Surplus(s)
            && (done <==> ok && fd < |s.chans| && s.chans[fd].events.Has(e))
            && Only(s, t, fd, done)
            && (done ==>
                 && t.chans[fd].events == s.chans[fd].events.Without(e)
                 && (forall x :: x != e ==> t.chans[fd].Ctx(x) == s.chans[fd].Ctx(x))
                 && t.queue == s.queue + Scheduled(s.chans[fd].Ctx(e)))
  {
    hide AllParked, TotalBits, Chan.Parked, Handle;
    var (t, done) := CancelEvent(s, fd, e, ok);
    if fd < |s.chans| && s.chans[fd].events.Has(e) {
      var ch := s.chans[fd];
      HandleMoves(ch, e);
      var (ch', q) := Handle(ch, e);
      ReplaceChannel(s, fd, ch', if ch'.events == NONE then DEL else MOD, ok);
      if done {
        assert t.queue[|s.queue|..] == q == Scheduled(ch.Ctx(e));
        ChannelStep(s, t, fd, multiset{}, multiset{});
      }
    }
    if !done {
      NothingMoved(s, t);
    }
  }

  lemma CancelAllStep(s: Io, fd: nat, ok: bool)
    requires Agreed(s)
    ensures var (t, done) := CancelAll(s, fd, ok);
            && Step(s, t, multiset{}, multiset{}) && Surplus(t) == Surplus(s)
            && (done <==> ok && fd < |s.chans| && s.chans[fd].events != NONE)
            && Only(s, t, fd, done)
            && (done ==>
                 && t.chans[fd].events == NONE
                 && t.queue == s.queue + Answer(s.chans[fd], s.chans[fd].events))
  {
    hide AllParked, TotalBits, Chan.Parked, FireIf;
    var (t, done) := CancelAll(s, fd, ok);
    if fd < |s.chans| && s.chans[fd].events != NONE {
      var m := s.chans[fd].events;
      var s' := s.(kernel := Ctl(s.kernel, DEL, fd, NONE, ok).0);
      FireMask(s', fd, m);
      FireOne(s', fd, m, Read);
      var t' := FireIf(FireIf(s', fd, m, Read), fd, m, Write);
      ReplaceChannel(s, fd, t'.chans[fd], DEL, ok);
      if done {
        WriteIsStillSet(s', fd, m);
        assert t == t';
        ChannelStep(s, t, fd, multiset{}, multiset{});
      }
    }
    if !done {
      NothingMoved(s, t);
    }
  }

  /** The second test of `cancelAll` reads the mask after the first event was handled. */
  lemma WriteIsStillSet(s: Io, fd: nat, m: Mask)
    requires fd < |s.chans| && s.chans[fd].events == m && s.chans[fd].Consistent()
    ensures var r := FireIf(s, fd, m, Read);
            FireIf(r, fd, r.chans[fd].events, Write) == FireIf(r, fd, m, Write)
  {
    FireOne(s, fd, m, Read);
  }

  /** The reported events that a served report decrements the counter for although no bit is set. */
  function Excess(ch: Chan, r: Report, ok: bool): nat {
    if ok && ch.events.Meets(Revents(ch, r)) then Revents(ch, r).Minus(ch.events).Size() else 0
  }

  /** A report keeps agreement and conserves continuations whatever it says; but the loop decrements
      once per reported event, so the counter falls behind by the events outside the interest. */
  lemma DispatchStep(s: Io, fd: nat, r: Report, ok: bool)
    requires Agreed(s) && fd < |s.chans|
    ensures Step(s, Dispatch(s, fd, r, ok), multiset{}, multiset{})
    ensures var ch, t := s.chans[fd], Dispatch(s, fd, r, ok);
            var served := ok && ch.events.Meets(Revents(ch, r));
            && Only(s, t, fd, served)
            && (served ==>
                 && t.chans[fd].events == ch.events.Minus(Revents(ch, r))
                 && (forall x :: !Revents(ch, r).Has(x) ==> t.chans[fd].Ctx(x) == ch.Ctx(x))
                 && t.queue == s.queue + Answer(ch, Revents(ch, r)))
    ensures Surplus(Dispatch(s, fd, r, ok)) == Surplus(s) - Excess(s.chans[fd], r, ok)
  {
    hide AllParked, TotalBits, Chan.Parked, FireIf;
    var ch := s.chans[fd];
    var m := Revents(ch, r);
    var t := Dispatch(s, fd, r, ok);
    if ch.events.Meets(m) {
      var op := if ch.events.Minus(m) == NONE then DEL else MOD;
      var s' := s.(kernel := Ctl(s.kernel, op, fd, ch.events.Minus(m), ok).0);
      FireMask(s', fd, m);
      var t' := FireIf(FireIf(s', fd, m, Read), fd, m, Write);
      ReplaceChannel(s, fd, t'.chans[fd], op, ok);
      if ok {
        ChannelStep(s, t, fd, multiset{}, multiset{});
      }
    }
    if !(ok && ch.events.Meets(m)) {
      NothingMoved(s, t);
    }
  }

  /** What a report does, in its own terms. The channel answers each event that it waits for and that is
      reported, or all of them on an error or a hang-up: those bits are cleared and what they parked is
      scheduled, reading first. If there are none, or the kernel refuses, nothing happens. */
  lemma DispatchAnswers(s: Io, fd: nat, r: Report, ok: bool)
    requires Agreed(s) && fd < |s.chans|
    ensures var ch, t := s.chans[fd], Dispatch(s, fd, r, ok);
            var input := ch.events.read && (r.input || r.failure);
            var output := ch.events.write && (r.output || r.failure);
            if ok && (input || output) then
              && t.chans[fd].events == Mask(ch.events.read && !input, ch.events.write && !output)
              && t.queue == s.queue + ((if input then Scheduled(ch.read) else [])
                                       + (if output then Scheduled(ch.write) else []))
              && (t.chans[fd].read == if input then EMPTY else ch.read)
              && (t.chans[fd].write == if output then EMPTY else ch.write)
            else t == s
  {
    DispatchStep(s, fd, r, ok);
    hide Dispatch, Step, Agreed, Surplus, Excess, Scheduled;
    var ch := s.chans[fd];
    if ok && ch.events.Meets(Revents(ch, r)) {
      AnswerReadsFirst(ch, Revents(ch, r));
      ClearedIsEmpty(Dispatch(s, fd, r, ok), fd);
      assert Revents(ch, r).Has(Read) == (Revents(ch, r).read) && Revents(ch, r).Has(Write) == Revents(ch, r).write;
    }
  }

  /** An accepted report of an error or a hang-up wakes everything that waits on the descriptor. */
  lemma FailureWakesAll(s: Io, fd: nat, r: Report)
    requires Agreed(s) && fd < |s.chans| && r.failure
    ensures var ch, t := s.chans[fd], Dispatch(s, fd, r, true);
            && t.chans[fd] == IDLE
            && t.queue == s.queue + ((if ch.events.read then Scheduled(ch.read) else [])
                                     + (if ch.events.write then Scheduled(ch.write) else []))
            && multiset(t.queue) == multiset(s.queue) + ch.Parked()
  {
    DispatchAnswers(s, fd, r, true);
    hide Dispatch, Agreed;
    AllScheduled(s, fd);
  }

  lemma AllScheduled(s: Io, fd: nat)
    requires Agreed(s) && fd < |s.chans|
    ensures var ch := s.chans[fd];
            && (ch.events == NONE ==> ch == IDLE)
            && multiset((if ch.events.read then Scheduled(ch.read) else [])
                        + (if ch.events.write then Scheduled(ch.write) else [])) == ch.Parked()
  {
    var ch := s.chans[fd];
    assert ch.Consistent();
    hide Agreed, Scheduled, Held;
    HeldIsScheduled(ch.read);
    HeldIsScheduled(ch.write);
  }

  lemma ClearedIsEmpty(s: Io, fd: nat)
    requires Agreed(s) && fd < |s.chans|
    ensures !s.chans[fd].events.read ==> s.chans[fd].read == EMPTY
    ensures !s.chans[fd].events.write ==> s.chans[fd].write == EMPTY
  {
    assert s.chans[fd].Consistent();
  }

  lemma AnswerReadsFirst(ch: Chan, m: Mask)
    ensures Answer(ch, m) == (if ch.events.read && m.read then Scheduled(ch.read) else [])
                             + (if ch.events.write && m.write then Scheduled(ch.write) else [])
  {
    hide Scheduled;
  }

  // ----- runs -----

  datatype Op =
    | Add(fd: nat, event: Event, scheduler: nat, c: Continuation, ok: bool)
    | Remove(fd: nat, event: Event, ok: bool)
    | Cancel(fd: nat, event: Event, ok: bool)
    | CancelEvery(fd: nat, ok: bool)
    | Arrive(fd: nat, report: Report, ok: bool)

  /** The state with everything `addEvent` accepted and `removeEvent` dropped so far. */
  datatype History = History(io: Io, accepted: multiset<Continuation>, dropped: multiset<Continuation>)

  const START := History(Io(Idles(32), 0, Kernel(map[], 0), []), multiset{}, multiset{})

  /** A report carries a pointer to a channel, so it can only concern one that exists. */
  ghost function Next(h: History, op: Op): History
    requires Agreed(h.io)
  {
    match op
    case Add(fd, e, sch, c, ok) =>
      ResizedAgrees(h.io, fd);
      var (t, rc) := AddEvent(h.io, fd, e, sch, c, ok);
      History(t, if rc == 0 then h.accepted + multiset{c} else h.accepted, h.dropped)
    case Remove(fd, e, ok) =>
      var (t, done) := RemoveEvent(h.io, fd, e, ok);
      History(t, h.accepted, if done then h.dropped + Held(h.io.chans[fd].Ctx(e)) else h.dropped)
    case Cancel(fd, e, ok) => h.(io := CancelEvent(h.io, fd, e, ok).0)
    case CancelEvery(fd, ok) => h.(io := CancelAll(h.io, fd, ok).0)
    case Arrive(fd, r, ok) => if fd < |h.io.chans| then h.(io := Dispatch(h.io, fd, r, ok)) else h
  }

  /** Every accepted continuation is parked, scheduled or dropped, with the same multiplicity. */
  ghost predicate Conserved(h: History) {
    h.accepted == AllParked(h.io.chans) + multiset(h.io.queue) + h.dropped
  }

  ghost predicate Invariant(h: History) {
    Agreed(h.io) && h.io.kernel.illegal == 0 && Conserved(h)
  }

  lemma IdlesAreEmpty(n: nat)
    ensures TotalBits(Idles(n)) == 0 && AllParked(Idles(n)) == multiset{}
  {
    AppendIdles([], n);
    assert [] + Idles(n) == Idles(n);
  }

  lemma StartInvariant()
    ensures Invariant(START) && Counted(START.io) && |START.io.chans| == 32
  {
    hide AllParked, TotalBits;
    IdlesAreEmpty(32);
  }

  lemma StepConserves(h: History, t: Io, accepted: multiset<Continuation>, dropped: multiset<Continuation>)
    requires Conserved(h) && Step(h.io, t, accepted, dropped)
    ensures Conserved(History(t, h.accepted + accepted, h.dropped + dropped))
  {
    hide AllParked, Agreed;
    var q := t.queue[|h.io.queue|..];
    assert t.queue == h.io.queue + q;
    Shift(AllParked(h.io.chans), AllParked(t.chans), multiset(h.io.queue), multiset(q), h.dropped, accepted, dropped);
  }

  lemma Shift<T>(p: multiset<T>, p': multiset<T>, q: multiset<T>, r: multiset<T>, d: multiset<T>,
                 accepted: multiset<T>, dropped: multiset<T>)
    requires p + accepted == p' + r + dropped
    ensures p + q + d + accepted == p' + (q + r) + (d + dropped)
  {
    assert p + q + d + accepted == (p + accepted) + (q + d);
  }

  /** Every operation keeps the invariant, whatever the kernel answers and whatever is reported. The
      counter never gains on the bits, and loses exactly by a served report outside the interest. */
  lemma NextInvariant(h: History, op: Op)
    requires Invariant(h)
    ensures Invariant(Next(h, op))
    ensures Surplus(Next(h, op).io) <= Surplus(h.io)
    ensures Surplus(Next(h, op).io) == Surplus(h.io) <==> ReportWithin(h, op)
  {
    hide AllParked, Agreed, TotalBits, Held, AddEvent, RemoveEvent, CancelEvent, CancelAll, Dispatch, Conserved;
    match op
    case Add(fd, e, sch, c, ok) =>
      AddEventStep(h.io, fd, e, sch, c, ok);
      var (t, rc) := AddEvent(h.io, fd, e, sch, c, ok);
      StepConserves(h, t, if rc == 0 then multiset{c} else multiset{}, multiset{});
      assert h.dropped + multiset{} == h.dropped && h.accepted + multiset{} == h.accepted;
    case Remove(fd, e, ok) =>
      RemoveEventStep(h.io, fd, e, ok);
      var (t, done) := RemoveEvent(h.io, fd, e, ok);
      StepConserves(h, t, multiset{}, if done then Held(h.io.chans[fd].Ctx(e)) else multiset{});
      assert h.dropped + multiset{} == h.dropped && h.accepted + multiset{} == h.accepted;
    case Cancel(fd, e, ok) =>
      CancelEventStep(h.io, fd, e, ok);
      Unchanged(h, CancelEvent(h.io, fd, e, ok).0);
    case CancelEvery(fd, ok) =>
      CancelAllStep(h.io, fd, ok);
      Unchanged(h, CancelAll(h.io, fd, ok).0);
    case Arrive(fd, r, ok) =>
      if fd < |h.io.chans| {
        DispatchStep(h.io, fd, r, ok);
        Unchanged(h, Dispatch(h.io, fd, r, ok));
      }
  }

  /** What was handed to the scheduler stays handed over. */
  lemma QueueGrows(h: History, op: Op)
    requires Invariant(h)
    ensures h.io.queue <= Next(h, op).io.queue
  {
    hide AllParked, Agreed, TotalBits, Held, AddEvent, RemoveEvent, CancelEvent, CancelAll, Dispatch;
    match op
    case Add(fd, e, sch, c, ok) => AddEventStep(h.io, fd, e, sch, c, ok);
    case Remove(fd, e, ok) => RemoveEventStep(h.io, fd, e, ok);
    case Cancel(fd, e, ok) => CancelEventStep(h.io, fd, e, ok);
    case CancelEvery(fd, ok) => CancelAllStep(h.io, fd, ok);
    case Arrive(fd, r, ok) =>
      if fd < |h.io.chans| {
        DispatchStep(h.io, fd, r, ok);
      }
  }

  lemma Unchanged(h: History, t: Io)
    requires Conserved(h) && Step(h.io, t, multiset{}, multiset{})
    ensures Conserved(h.(io := t))
  {
    StepConserves(h, t, multiset{}, multiset{});
    assert h.dropped + multiset{} == h.dropped && h.accepted + multiset{} == h.accepted;
  }

  /** The condition under which the counter stays exact: a report that is served lies within the
      channel's current interest. */
  ghost predicate ReportWithin(h: History, op: Op) {
    op.Arrive? && op.fd < |h.io.chans| ==>
      var ch := h.io.chans[op.fd];
      !op.ok || !ch.events.Meets(Revents(ch, op.report)) || Revents(ch, op.report).Within(ch.events)
  }

  ghost function Run(h: History, ops: seq<Op>): (r: History)
    requires Invariant(h)
    ensures Invariant(r)
    decreases |ops|
  {
    if ops == [] then h
    else
      NextInvariant(h, ops[0]);
      Run(Next(h, ops[0]), ops[1..])
  }

  ghost predicate ReportsWithin(h: History, ops: seq<Op>)
    requires Invariant(h)
    decreases |ops|
  {
    ops == [] ||
    (&& ReportWithin(h, ops[0])
     && (NextInvariant(h, ops[0]); ReportsWithin(Next(h, ops[0]), ops[1..])))
  }

  /** In every reachable state bits, contexts and kernel table agree, no illegal `epoll_ctl` was ever
      issued, and every accepted continuation is parked, scheduled or dropped. */
  lemma ReachableInvariant(ops: seq<Op>)
    ensures Invariant(START) && Invariant(Run(START, ops))
  {
    StartInvariant();
  }

  lemma {:induction false} RunSurplus(h: History, ops: seq<Op>)
    requires Invariant(h)
    ensures Surplus(Run(h, ops).io) <= Surplus(h.io)
    ensures Surplus(Run(h, ops).io) == Surplus(h.io) <==> ReportsWithin(h, ops)
    decreases |ops|
  {
    hide Agreed, Conserved, AllParked, Surplus, Next, ReportWithin;
    if ops != [] {
      NextInvariant(h, ops[0]);
      RunSurplus(Next(h, ops[0]), ops[1..]);
    }
  }

  /** In a reachable state `pendingEventCount_` is the number of set bits if and only if every report
      served so far lay within its channel's interest: no operation makes up for one that did not. */
  lemma ReachableCount(ops: seq<Op>)
    ensures Invariant(START)
    ensures Counted(Run(START, ops).io) <==> ReportsWithin(START, ops)
  {
    StartInvariant();
    RunSurplus(START, ops);
  }

  /** A continuation accepted once is in exactly one of the three places, exactly once: it is never
      scheduled twice and never lost. */
  lemma AcceptedOnceIsOnePlace(ops: seq<Op>, c: Continuation)
    requires Invariant(START) && Run(START, ops).accepted[c] == 1
    ensures var h := Run(START, ops);
            var p, q, d := AllParked(h.io.chans)[c], multiset(h.io.queue)[c], h.dropped[c];
            (p == 1 && q == 0 && d == 0) || (p == 0 && q == 1 && d == 0) || (p == 0 && q == 0 && d == 1)
  {
    var h := Run(START, ops);
    assert (AllParked(h.io.chans) + multiset(h.io.queue) + h.dropped)[c] == 1;
  }

  /** `canStop` reads a zero counter exactly when no channel waits for anything, and then nothing is
      parked. */
  lemma {:induction false} ZeroMeansNothingParked(chans: seq<Chan>)
    requires forall i :: 0 <= i < |chans| ==> chans[i].Consistent()
    ensures TotalBits(chans) == 0 <==> forall i :: 0 <= i < |chans| ==> chans[i].events == NONE
    ensures TotalBits(chans) == 0 <==> AllParked(chans) == multiset{}
  {
    if chans != [] {
      ZeroMeansNothingParked(chans[1..]);
      var c := chans[0];
      HeldIsScheduled(c.read);
      HeldIsScheduled(c.write);
      assert c.events.Size() == 0 <==> c.events == NONE;
      assert c.events.Size() == 0 <==> c.Parked() == multiset{} by {
        assert |c.Parked()| == |Held(c.read)| + |Held(c.write)|;
      }
      assert |AllParked(chans)| == |c.Parked()| + |AllParked(chans[1..])|;
      assert forall i :: 0 < i < |chans| ==> chans[i] == chans[1..][i - 1];
      if forall i :: 0 <= i < |chans| ==> chans[i].events == NONE {
        assert forall i :: 0 <= i < |chans[1..]| ==> chans[1..][i].events == NONE;
      }
    }
  }

  const STALE := [Add(0, Read, 0, Fiber(7), true), Add(0, Write, 0, Fiber(8), true), Cancel(0, Write, true),
                  Arrive(0, Report(true, true, false), true)]

  /** A stale report makes the counter wrong: descriptor 0 waits to read and to write, both become ready
      and are reported, and the wait to write is cancelled before the report is served. One bit is then
      answered by two decrements. */
  lemma ReportOutsideInterest()
    ensures Invariant(START)
    ensures !Counted(Run(START, STALE).io)
  {
    hide Agreed, Conserved, AllParked, Next, ReportWithin, ReportsWithin, Run, Surplus;
    BothWaited();
    var h := Next(START, STALE[0]);
    var k := Next(h, STALE[1]);
    StaleReport(k);
    WithinCons(Next(k, STALE[2]), STALE[3], []);
    WithinCons(k, STALE[2], [STALE[3]]);
    WithinCons(h, STALE[1], [STALE[2], STALE[3]]);
    WithinCons(START, STALE[0], [STALE[1], STALE[2], STALE[3]]);
    assert [STALE[3]] + [] == [STALE[3]] && [STALE[2]] + [STALE[3]] == [STALE[2], STALE[3]];
    assert [STALE[1]] + [STALE[2], STALE[3]] == [STALE[1], STALE[2], STALE[3]];
    assert [STALE[0]] + [STALE[1], STALE[2], STALE[3]] == STALE;
    ReachableCount(STALE);
  }

  lemma BothWaited()
    ensures Invariant(START)
    ensures var h := Next(START, STALE[0]);
            && Invariant(h)
            && var k := Next(h, STALE[1]);
               Invariant(k) && |k.io.chans| > 0 && k.io.chans[0].events == Mask(true, true)
  {
    hide AllParked, TotalBits, Conserved, AddEvent, Held, Step, Surplus;
    StartInvariant();
    AddEventStep(START.io, 0, Read, 0, Fiber(7), true);
    NextInvariant(START, STALE[0]);
    var h := Next(START, STALE[0]);
    hide Agreed;
    AddEventStep(h.io, 0, Write, 0, Fiber(8), true);
    NextInvariant(h, STALE[1]);
  }

  lemma StaleReport(k: History)
    requires Invariant(k) && |k.io.chans| > 0 && k.io.chans[0].events == Mask(true, true)
    ensures Invariant(Next(k, STALE[2])) && !ReportWithin(Next(k, STALE[2]), STALE[3])
  {
    hide AllParked, TotalBits, Conserved, CancelEvent, Held, Agreed;
    CancelEventStep(k.io, 0, Write, true);
    NextInvariant(k, STALE[2]);
  }

  lemma WithinCons(h: History, op: Op, ops: seq<Op>)
    requires Invariant(h)
    ensures Invariant(Next(h, op))
    ensures ReportsWithin(h, [op] + ops) <==> ReportWithin(h, op) && ReportsWithin(Next(h, op), ops)
  {
    hide Agreed, Conserved, AllParked, Next, ReportWithin;
    NextInvariant(h, op);
    assert ([op] + ops)[1..] == ops;
  }
}
