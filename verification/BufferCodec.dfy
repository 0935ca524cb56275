/** The typed writes and reads of `easy/net/Buffer.cc` on the chunked buffer.

    Every result is stated for `write` as shipped, which stores one node's worth of each call, and
    for the form with its loop. */
module BufferCodec {
  import opened Bits
  import opened Endian
  import opened Flat
  import opened Varint
  import opened Codec
  import opened Buffers

  datatype Form = Shipped | Looped

  // ----- what a list of `write` calls stores -----

  function Stored(form: Form, base: nat, pos: nat, d: seq<Byte>): (s: seq<Byte>)
    requires base > 0
  {
    if form == Looped then d else d[..Piece(base, pos, |d|)]
  }

  function StoredAll(form: Form, base: nat, pos: nat, parts: seq<seq<Byte>>): seq<Byte>
    requires base > 0
    decreases |parts|
  {
    if parts == [] then []
    else
      var s := Stored(form, base, pos, parts[0]);
      s + StoredAll(form, base, pos + |s|, parts[1..])
  }

  /** The capacity after the calls. */
  function CapacityAfter(form: Form, base: nat, cap: nat, pos: nat, parts: seq<seq<Byte>>): nat
    requires base > 0
    decreases |parts|
  {
    if parts == [] then cap
    else
      CapacityAfter(form, base, Max(cap, RoundUp(pos + |parts[0]|, base)),
                    pos + |Stored(form, base, pos, parts[0])|, parts[1..])
  }

  /** Every call's bytes fit the room left in the node it starts in; with the loop, always. */
  predicate EachFits(form: Form, base: nat, pos: nat, parts: seq<seq<Byte>>)
    requires base > 0
    decreases |parts|
  {
    parts == [] ||
    (&& (form == Looped || |parts[0]| <= base - pos % base)
     && EachFits(form, base, pos + |parts[0]|, parts[1..]))
  }

  /** The calls store all their bytes if and only if each fits its node. */
  lemma {:induction false} StoredIffFits(form: Form, base: nat, pos: nat, parts: seq<seq<Byte>>)
    requires base > 0
    ensures |StoredAll(form, base, pos, parts)| <= |Flatten(parts)|
    ensures EachFits(form, base, pos, parts) <==> |StoredAll(form, base, pos, parts)| == |Flatten(parts)|
    ensures EachFits(form, base, pos, parts) ==> StoredAll(form, base, pos, parts) == Flatten(parts)
    decreases |parts|
  {
    if parts != [] {
      StoredIffFits(form, base, pos + |Stored(form, base, pos, parts[0])|, parts[1..]);
    }
  }

  lemma RoundUpMonotone(m: nat, n: nat, base: nat)
    requires base > 0 && m <= n
    ensures RoundUp(m, base) <= RoundUp(n, base)
  {
    RoundUpBounds(n, base);
    RoundUpLeast(m, base, (n + base - 1) / base);
  }

  /** Calls that fit leave the least capacity that holds what they wrote. */
  lemma {:induction false} FittingCapacity(form: Form, base: nat, cap: nat, pos: nat, parts: seq<seq<Byte>>)
    requires base > 0 && EachFits(form, base, pos, parts) && RoundUp(pos, base) <= cap
    ensures CapacityAfter(form, base, cap, pos, parts) == Max(cap, RoundUp(pos + |Flatten(parts)|, base))
    decreases |parts|
  {
    if parts != [] {
      var next := pos + |parts[0]|;
      assert Stored(form, base, pos, parts[0]) == parts[0];
      FittingCapacity(form, base, Max(cap, RoundUp(next, base)), next, parts[1..]);
      RoundUpMonotone(next, pos + |Flatten(parts)|, base);
    }
  }

  lemma {:induction false} WritesFlatten(vs: seq<Value>, o: Orders)
    ensures Flatten(WritesOfAll(vs, o)) == BytesOfAll(vs, o)
  {
    if vs != [] {
      FlattenAppend(Writes(vs[0], o), WritesOfAll(vs[1..], o));
      WritesFlatten(vs[1..], o);
    }
  }

  lemma {:induction false} StoredAppend(form: Form, base: nat, pos: nat, a: seq<seq<Byte>>, b: seq<seq<Byte>>)
    requires base > 0
    ensures var s := StoredAll(form, base, pos, a);
            StoredAll(form, base, pos, a + b) == s + StoredAll(form, base, pos + |s|, b)
    decreases |a|
  {
    hide Stored;
    if a == [] {
      assert a + b == b;
    } else {
      var s := Stored(form, base, pos, a[0]);
      assert (a + b)[1..] == a[1..] + b;
      StoredAppend(form, base, pos + |s|, a[1..], b);
    }
  }

  lemma {:induction false} CapacityAppend(form: Form, base: nat, cap: nat, pos: nat,
                                         a: seq<seq<Byte>>, b: seq<seq<Byte>>)
    requires base > 0
    ensures CapacityAfter(form, base, cap, pos, a + b)
         == CapacityAfter(form, base, CapacityAfter(form, base, cap, pos, a),
                          pos + |StoredAll(form, base, pos, a)|, b)
    decreases |a|
  {
    hide Stored, RoundUp, Max;
    if a == [] {
      assert a + b == b;
    } else {
      assert (a + b)[1..] == a[1..] + b;
      CapacityAppend(form, base, Max(cap, RoundUp(pos + |a[0]|, base)),
                     pos + |Stored(form, base, pos, a[0])|, a[1..], b);
    }
  }

  // ----- writing -----

  /** `g` is `f` after the given `write` calls. */
  ghost predicate Wrote(f: FlatView, g: FlatView, form: Form, parts: seq<seq<Byte>>) {
    && f.base > 0
    && Overwritten(f, g, StoredAll(form, f.base, f.position, parts))
    && |g.bytes| == CapacityAfter(form, f.base, |f.bytes|, f.position, parts)
  }

  lemma WroteTwice(f: FlatView, g: FlatView, h: FlatView, form: Form, a: seq<seq<Byte>>, b: seq<seq<Byte>>)
    requires Wrote(f, g, form, a) && Wrote(g, h, form, b)
    ensures Wrote(f, h, form, a + b)
  {
    StoredAppend(form, f.base, f.position, a, b);
    CapacityAppend(form, f.base, |f.bytes|, f.position, a, b);
    OverwrittenTwice(f, g, h, StoredAll(form, f.base, f.position, a), StoredAll(form, g.base, g.position, b));
  }

  lemma WroteNothing(b: Buffer, form: Form)
    requires b.Valid()
    ensures Wrote(b.View(), b.View(), form, [])
  {
    b.CapacityIsLength();
  }

  method Put(b: Buffer, form: Form, d: seq<Byte>)
    requires b.Valid()
    modifies b.Repr
    ensures b.Valid() && fresh(b.Repr - old(b.Repr)) && old(b.Repr) <= b.Repr && b.order == old(b.order)
    ensures Wrote(old(b.View()), b.View(), form, [d])
  {
    b.CapacityIsLength();
    if form == Looped {
      b.WriteLooped(d);
    } else {
      b.Write(d);
    }
    ghost var s := Stored(form, b.baseSize, old(b.position), d);
    assert s + [] == s && [d][1..] == [];
  }

  /** The typed `write...` functions. */
  method WriteValue(b: Buffer, form: Form, host: Order, v: Value)
    requires b.Valid() && WellTyped(v)
    modifies b.Repr
    ensures b.Valid() && fresh(b.Repr - old(b.Repr)) && old(b.Repr) <= b.Repr && b.order == old(b.order)
    ensures Wrote(old(b.View()), b.View(), form, Writes(v, Orders(b.order, host)))
  {
    match v
    case Uint(size, u) =>
      Put(b, form, FixedBytes(u, size.Bytes(), b.order, host));
    case Int(size, i) =>
      Put(b, form, FixedBytes(Unsigned(i, size.Bits()), size.Bytes(), b.order, host));
    case VarUint(w, u) =>
      var tmp, i := Encode(u, w);
      Put(b, form, tmp[..i]);
    case VarInt(w, i) =>
      EncodeZigzagMeaning(i, w);
      var tmp, n := Encode(EncodeZigzag(i, w), w);
      Put(b, form, tmp[..n]);
    case Str(prefix, s) =>
      WriteString(b, form, host, prefix, s);
  }

  method WriteString(b: Buffer, form: Form, host: Order, prefix: Prefix, s: seq<Byte>)
    requires b.Valid()
    modifies b.Repr
    ensures b.Valid() && fresh(b.Repr - old(b.Repr)) && old(b.Repr) <= b.Repr && b.order == old(b.order)
    ensures Wrote(old(b.View()), b.View(), form, Writes(Str(prefix, s), Orders(b.order, host)))
  {
    hide Wrote;
    ghost var f := b.View();
    var p := WriteLength(b, form, host, prefix, |s|);
    ghost var g := b.View();
    Put(b, form, s);
    WroteTwice(f, g, b.View(), form, [p], [s]);
    assert [p] + [s] == [p, s];
  }

  method WriteLength(b: Buffer, form: Form, host: Order, prefix: Prefix, n: nat) returns (p: seq<Byte>)
    requires b.Valid()
    modifies b.Repr
    ensures b.Valid() && fresh(b.Repr - old(b.Repr)) && old(b.Repr) <= b.Repr && b.order == old(b.order)
    ensures p == LengthBytes(prefix, n, Orders(b.order, host))
    ensures Wrote(old(b.View()), b.View(), form, [p])
  {
    hide Wrote, Flatten, Pow2, FixedBytes;
    match prefix
    case Fixed(size) =>
      p := FixedBytes(Unsigned(n, size.Bits()), size.Bytes(), b.order, host);
      Put(b, form, p);
    case Vint =>
      var tmp, i := Encode(Unsigned(n, 64), V64);
      p := tmp[..i];
      Put(b, form, p);
  }

  method WriteValues(b: Buffer, form: Form, host: Order, vs: seq<Value>)
    requires b.Valid() && AllWellTyped(vs)
    modifies b.Repr
    ensures b.Valid() && fresh(b.Repr - old(b.Repr)) && old(b.Repr) <= b.Repr && b.order == old(b.order)
    ensures Wrote(old(b.View()), b.View(), form, WritesOfAll(vs, Orders(b.order, host)))
  {
    hide Wrote, Writes, WellTyped, Buffer.Chained, Buffer.Chunks, Flatten;
    ghost var f, o := b.View(), Orders(b.order, host);
    WroteNothing(b, form);
    assert vs[..0] == [];
    for i := 0 to |vs|
      invariant b.Valid() && fresh(b.Repr - old(b.Repr)) && old(b.Repr) <= b.Repr && b.order == o.buffer
      invariant Wrote(f, b.View(), form, WritesOfAll(vs[..i], o))
    {
      ghost var g := b.View();
      WriteValue(b, form, host, vs[i]);
      WroteTwice(f, g, b.View(), form, WritesOfAll(vs[..i], o), Writes(vs[i], o));
      WritesSnoc(vs[..i], vs[i], o);
      assert vs[..i] + [vs[i]] == vs[..i + 1];
    }
    assert vs[..|vs|] == vs;
  }

  lemma {:induction false} WritesSnoc(vs: seq<Value>, v: Value, o: Orders)
    ensures WritesOfAll(vs + [v], o) == WritesOfAll(vs, o) + Writes(v, o)
  {
    if vs == [] {
      assert ([v])[1..] == [];
    } else {
      assert (vs + [v])[1..] == vs[1..] + [v];
      WritesSnoc(vs[1..], v, o);
    }
  }

  // ----- reading -----

  /** `r` and the move of the position are what the stream prescribes. */
  ghost predicate ReadAs<T>(r: Outcome<T>, d: Decoded<T>) {
    match d
    case Ok(v, _) => r == Done(v)
    case Short(_) => r == OutOfRange
  }

  /** `read`, seen on the stream. */
  method ReadBytes(b: Buffer, n: nat) returns (r: Outcome<seq<Byte>>)
    requires b.Valid()
    modifies b`position, b`size, b`cur, b`index, b`offset
    ensures b.Valid() && b.size == old(b.size) && b.View().bytes == old(b.View().bytes)
    ensures var s := old(b.Stream());
            r == if n > |s| then OutOfRange
                 else if n == 0 && old(b.position) == b.capacity then NullCursor
                 else Done(s[..n])
    ensures b.position == old(b.position) + if r.Done? then n else 0
    ensures b.Stream() == if r.Done? then old(b.Stream())[n..] else old(b.Stream())
  {
    hide Buffer.Chained, Buffer.Chunks, Flatten;
    b.CapacityIsLength();
    ghost var s, bytes, pos := b.Stream(), b.View().bytes, b.position;
    assert n <= |s| ==> s[..n] == bytes[pos..pos + n] && s[n..] == bytes[pos + n..b.size];
    r := b.Read(n);
  }

  method ReadFixedInt(b: Buffer, size: IntSize, host: Order) returns (r: Outcome<nat>)
    requires b.Valid()
    modifies b`position, b`size, b`cur, b`index, b`offset
    ensures b.Valid() && b.size == old(b.size) && b.View().bytes == old(b.View().bytes)
    ensures var d := ReadFixed(old(b.Stream()), size, Orders(b.order, host));
            && ReadAs(r, d) && b.position == old(b.position) + d.consumed
            && b.Stream() == old(b.Stream())[d.consumed..]
  {
    hide Buffer.Chained, Buffer.Stream, Buffer.View;
    var q := ReadBytes(b, size.Bytes());
    r := match q
         case Done(bytes) => Done(FixedValue(bytes, b.order, host))
         case OutOfRange => OutOfRange
         case NullCursor => NullCursor;
  }

  /** A read that has already taken `n` bytes. */
  function After<T>(n: nat, d: Decoded<T>): Decoded<T> {
    match d
    case Ok(v, c) => Ok(v, n + c)
    case Short(c) => Short(n + c)
  }

  /** `readUint32` and `readUint64`: the loop over single bytes. */
  method ReadVarintLoop(b: Buffer, w: Width) returns (r: Outcome<nat>)
    requires b.Valid()
    modifies b`position, b`size, b`cur, b`index, b`offset
    ensures b.Valid() && b.size == old(b.size) && b.View().bytes == old(b.View().bytes)
    ensures var d := ReadVarint(old(b.Stream()), w);
            && ReadAs(r, d) && b.position == old(b.position) + d.consumed
            && b.Stream() == old(b.Stream())[d.consumed..]
  {
    hide Buffer.Chained, Buffer.Stream, Buffer.View, ReadLoop, ReadVarint, Or, And, Unsigned, ShiftLeft;
    var result, i, more := 0, 0, true;
    ghost var n, s := 0, b.Stream();
    VarintStart(s, w);
    while i < w.Bits() && more
      invariant b.Valid() && b.size == old(b.size) && b.View().bytes == old(b.View().bytes)
      invariant n <= |s| && b.position == old(b.position) + n && b.Stream() == s[n..]
      invariant ReadVarint(s, w) == if more then After(n, ReadLoop(b.Stream(), i, result, w)) else Ok(result, n)
      decreases w.Bits() - i, more
    {
      VarintTurn(b.Stream(), i, result, w, n);
      var q := ReadBytes(b, 1);
      if q.OutOfRange? {
        return OutOfRange;
      }
      var byte := q.value[0];
      n := n + 1;
      if byte < 0x80 {
        result := Or(result, Unsigned(ShiftLeft(byte, i), w.Bits()));
        more := false;
      } else {
        result := Or(result, Unsigned(ShiftLeft(And(byte, 0x7F), i), w.Bits()));
        i := i + 7;
      }
    }
    VarintEnd(b.Stream(), i, result, w, n);
    r := Done(result);
  }

  lemma VarintStart(s: seq<Byte>, w: Width)
    ensures ReadVarint(s, w) == After(0, ReadLoop(s, 0, 0, w))
  {
  }

  lemma VarintEnd(s: seq<Byte>, i: nat, result: nat, w: Width, n: nat)
    ensures i >= w.Bits() ==> After(n, ReadLoop(s, i, result, w)) == Ok(result, n)
  {
  }

  /** One turn of the decoding loop after `n` bytes. */
  lemma VarintTurn(s: seq<Byte>, i: nat, result: nat, w: Width, n: nat)
    requires i < w.Bits()
    ensures var d := After(n, ReadLoop(s, i, result, w));
            if s == [] then d == Short(n)
            else if s[0] < 0x80 then d == Ok(Or(result, Unsigned(ShiftLeft(s[0], i), w.Bits())), n + 1)
            else d == After(n + 1, ReadLoop(s[1..], i + 7,
                                            Or(result, Unsigned(ShiftLeft(And(s[0], 0x7F), i), w.Bits())), w))
  {
    hide Or, And, Unsigned, ShiftLeft;
  }

  method ReadLengthPrefix(b: Buffer, prefix: Prefix, host: Order) returns (r: Outcome<nat>)
    requires b.Valid()
    modifies b`position, b`size, b`cur, b`index, b`offset
    ensures b.Valid() && b.size == old(b.size) && b.View().bytes == old(b.View().bytes)
    ensures var d := ReadLength(old(b.Stream()), prefix, Orders(b.order, host));
            && ReadAs(r, d) && b.position == old(b.position) + d.consumed
            && b.Stream() == old(b.Stream())[d.consumed..]
  {
    hide Buffer.Chained, Buffer.Stream, Buffer.View, ReadVarint, ReadFixed;
    match prefix {
      case Fixed(size) => r := ReadFixedInt(b, size, host);
      case Vint => r := ReadVarintLoop(b, V64);
    }
  }

  method ReadString(b: Buffer, prefix: Prefix, host: Order) returns (r: Outcome<Value>)
    requires b.Valid()
    modifies b`position, b`size, b`cur, b`index, b`offset
    ensures b.Valid() && b.size == old(b.size) && b.View().bytes == old(b.View().bytes)
    ensures var d := Codec.Read(TString(prefix), old(b.Stream()), Orders(b.order, host));
            && ReadResult(r, d, old(b.position), b.capacity)
            && b.position == old(b.position) + d.consumed
            && b.Stream() == old(b.Stream())[d.consumed..]
  {
    hide Buffer.Chained, Buffer.Valid, Buffer.Stream, Buffer.View, ReadLength;
    ghost var s := b.Stream();
    var len := ReadLengthPrefix(b, prefix, host);
    if len.Done? {
      ghost var c, n := |s| - |b.Stream()|, len.value;
      assert c + n <= |s| ==> s[c..c + n] == s[c..][..n] && s[c..][n..] == s[c + n..];
      var q := ReadBytes(b, len.value);
      r := match q
           case Done(bytes) => Done(Str(prefix, bytes))
           case OutOfRange => OutOfRange
           case NullCursor => NullCursor;
    } else {
      r := OutOfRange;
    }
  }

  /** Reading an empty string whose end is the capacity dereferences the null cursor. */
  ghost predicate Faults(v: Value, end: nat, capacity: nat) {
    v.Str? && v.s == [] && end == capacity
  }

  ghost predicate ReadResult(r: Outcome<Value>, d: Decoded<Value>, start: nat, capacity: nat) {
    match d
    case Ok(v, c) => r == if Faults(v, start + c, capacity) then NullCursor else Done(v)
    case Short(_) => r == OutOfRange
  }

  /** The typed `read...` functions. */
  method ReadValue(b: Buffer, t: Type, host: Order) returns (r: Outcome<Value>)
    requires b.Valid()
    modifies b`position, b`size, b`cur, b`index, b`offset
    ensures b.Valid() && b.size == old(b.size) && b.View().bytes == old(b.View().bytes)
    ensures var d := Codec.Read(t, old(b.Stream()), Orders(b.order, host));
            && ReadResult(r, d, old(b.position), b.capacity)
            && b.position == old(b.position) + d.consumed
            && b.Stream() == old(b.Stream())[d.consumed..]
  {
    hide Buffer.Chained, Buffer.Stream, Buffer.View, ReadFixed, ReadVarint, DecodeZigzag;
    match t
    case TString(prefix) =>
      r := ReadString(b, prefix, host);
    case TUint(size) =>
      var u := ReadFixedInt(b, size, host);
      r := MapOutcome(u, u => Uint(size, u));
    case TInt(size) =>
      var u := ReadFixedInt(b, size, host);
      r := MapOutcome(u, u => Int(size, Signed(Unsigned(u, size.Bits()), size.Bits())));
    case TVarUint(w) =>
      var u := ReadVarintLoop(b, w);
      r := MapOutcome(u, u => VarUint(w, u));
    case TVarInt(w) =>
      var u := ReadVarintLoop(b, w);
      r := MapOutcome(u, u => VarInt(w, DecodeZigzag(u, w)));
  }

  function MapOutcome<A, B>(r: Outcome<A>, f: A -> B): Outcome<B> {
    match r
    case Done(a) => Done(f(a))
    case OutOfRange => OutOfRange
    case NullCursor => NullCursor
  }

  ghost predicate LastFaults(vs: seq<Value>, end: nat, capacity: nat) {
    vs != [] && Faults(vs[|vs| - 1], end, capacity)
  }

  /** Reading a list of types in turn: it returns the decoded list exactly when the stream holds one
      and its last value is not an empty string that ends at the capacity. */
  method ReadValues(b: Buffer, ts: seq<Type>, host: Order) returns (r: Outcome<seq<Value>>)
    requires b.Valid()
    modifies b`position, b`size, b`cur, b`index, b`offset
    ensures b.Valid() && b.size == old(b.size) && b.View().bytes == old(b.View().bytes)
    ensures ListResult(r, ReadAll(ts, old(b.Stream()), Orders(b.order, host)), old(b.position), b.capacity)
    ensures b.position == old(b.position) + ReadAll(ts, old(b.Stream()), Orders(b.order, host)).consumed
    decreases |ts|
  {
    hide Buffer.Chained, Buffer.View, Buffer.Stream, Codec.Read, ReadResult, ListResult;
    if ts == [] {
      NothingRead(b.Stream(), Orders(b.order, host), b.position, b.capacity);
      return Done([]);
    }
    ghost var s, start, o := b.Stream(), b.position, Orders(b.order, host);
    var h := ReadValue(b, ts[0], host);
    if h.Done? {
      var t := ReadValues(b, ts[1..], host);
      r := MapOutcome(t, vs => [h.value] + vs);
      ReadMore(ts, s, o, h, t, start, b.capacity);
    } else {
      r := if h.OutOfRange? then OutOfRange else NullCursor;
      ReadStopped(ts, s, o, h, start, b.capacity);
    }
  }

  lemma NothingRead(s: seq<Byte>, o: Orders, start: nat, capacity: nat)
    ensures ListResult(Done([]), ReadAll([], s, o), start, capacity)
  {
  }

  lemma ReadMore(ts: seq<Type>, s: seq<Byte>, o: Orders, h: Outcome<Value>, t: Outcome<seq<Value>>,
                 start: nat, capacity: nat)
    requires ts != [] && h.Done? && ReadResult(h, Codec.Read(ts[0], s, o), start, capacity)
    requires var c := Codec.Read(ts[0], s, o).consumed;
             ListResult(t, ReadAll(ts[1..], s[c..], o), start + c, capacity)
    ensures ListResult(MapOutcome(t, vs => [h.value] + vs), ReadAll(ts, s, o), start, capacity)
    ensures var c := Codec.Read(ts[0], s, o).consumed;
            ReadAll(ts, s, o).consumed == c + ReadAll(ts[1..], s[c..], o).consumed
  {
    hide Codec.Read;
    ReadAllCons(ts, s, o);
    var c := Codec.Read(ts[0], s, o).consumed;
    ReadAllBound(ts[1..], s[c..], o);
  }

  /** A read that throws, or that meets the null cursor, ends the list; in the second case either
      this was the last type or no byte is left for the next one. */
  lemma ReadStopped(ts: seq<Type>, s: seq<Byte>, o: Orders, h: Outcome<Value>, start: nat, capacity: nat)
    requires ts != [] && !h.Done? && ReadResult(h, Codec.Read(ts[0], s, o), start, capacity)
    requires start + |s| <= capacity
    ensures forall r: Outcome<seq<Value>> :: !r.Done? ==> ListResult(r, ReadAll(ts, s, o), start, capacity)
    ensures ReadAll(ts, s, o).consumed == Codec.Read(ts[0], s, o).consumed
  {
    var d := Codec.Read(ts[0], s, o);
    if d.Ok? {
      assert s[d.consumed..] == [];
      ReadAllCons(ts, s, o);
      if |ts| > 1 {
        ReadFromNothing(ts[1], o);
      }
    }
  }

  ghost predicate ListResult(r: Outcome<seq<Value>>, d: Decoded<seq<Value>>, start: nat, capacity: nat) {
    && (r.Done? <==> d.Ok? && !LastFaults(d.value, start + d.consumed, capacity))
    && (r.Done? ==> r.value == d.value)
  }

  lemma ReadFromNothing(t: Type, o: Orders)
    ensures Codec.Read(t, [], o) == Short(0)
  {
  }

  // ----- round trips -----

  /** The last value is an empty string exactly at the end of the chain. */
  predicate EndsInFault(base: nat, cap: nat, end: nat, vs: seq<Value>)
    requires base > 0
  {
    vs != [] && vs[|vs| - 1].Str? && vs[|vs| - 1].s == [] && end % base == 0 && end >= cap
  }

  /** What decides, before anything is written, whether a list of values survives: each `write`
      call fits its node, each string's length fits its prefix, and the list does not end with an
      empty string exactly at the end of the chain. */
  ghost predicate Survives(form: Form, base: nat, cap: nat, pos: nat, vs: seq<Value>, o: Orders)
    requires base > 0
  {
    var end := pos + |BytesOfAll(vs, o)|;
    && EachFits(form, base, pos, WritesOfAll(vs, o))
    && AllLengthsFit(vs)
    && !EndsInFault(base, cap, end, vs)
  }

  /** The stored bytes, followed by any others, read as the list and end where writing ended exactly
      when everything fitted. */
  lemma StoredReadsBack(form: Form, base: nat, pos: nat, vs: seq<Value>, o: Orders, tail: seq<Byte>)
    requires base > 0 && AllWellTyped(vs)
    ensures var s := StoredAll(form, base, pos, WritesOfAll(vs, o));
            ReadAll(TypesOf(vs), s + tail, o) == Ok(vs, |s|)
            <==> EachFits(form, base, pos, WritesOfAll(vs, o)) && AllLengthsFit(vs)
  {
    var s := StoredAll(form, base, pos, WritesOfAll(vs, o));
    StoredIffFits(form, base, pos, WritesOfAll(vs, o));
    WritesFlatten(vs, o);
    if EachFits(form, base, pos, WritesOfAll(vs, o)) {
      ReadAllInverts(vs, o, tail);
    } else {
      ReadAllBound(TypesOf(vs), s + tail, o);
    }
  }

  /** Where a list that fits ends at the capacity. */
  lemma EndsAtCapacity(form: Form, base: nat, cap: nat, pos: nat, vs: seq<Value>, o: Orders)
    requires base > 0 && cap % base == 0 && pos <= cap && EachFits(form, base, pos, WritesOfAll(vs, o))
    ensures var end := pos + |BytesOfAll(vs, o)|;
            end == CapacityAfter(form, base, cap, pos, WritesOfAll(vs, o)) <==> end % base == 0 && end >= cap
  {
    var end := pos + |BytesOfAll(vs, o)|;
    WritesFlatten(vs, o);
    PositionSplit(cap, base);
    RoundUpLeast(pos, base, cap / base);
    FittingCapacity(form, base, cap, pos, WritesOfAll(vs, o));
    RoundUpFixed(end, base);
  }

  lemma RoundUpFixed(n: nat, base: nat)
    requires base > 0
    ensures RoundUp(n, base) == n <==> n % base == 0
    ensures n <= RoundUp(n, base)
  {
    RoundUpBounds(n, base);
    PositionSplit(n, base);
    if n % base == 0 {
      RoundUpLeast(n, base, n / base);
    } else {
      DivModUnique(RoundUp(n, base), base, (n + base - 1) / base, 0);
    }
  }

  /** Writing a list of values, moving back to where it began and reading its types returns the list
      and ends at the same position if and only if the list survives. Writing ends behind what was
      stored, which for a list that survives is its whole encoding. */
  method RoundTrip(b: Buffer, form: Form, host: Order, vs: seq<Value>) returns (got: Outcome<seq<Value>>, end: nat)
    requires b.Valid() && AllWellTyped(vs)
    modifies b.Repr
    ensures b.Valid()
    ensures got == Done(vs) && b.position == end
       <==> Survives(form, b.baseSize, old(b.capacity), old(b.position), vs, Orders(old(b.order), host))
    ensures end == old(b.position)
                   + |StoredAll(form, b.baseSize, old(b.position), WritesOfAll(vs, Orders(old(b.order), host)))|
    ensures Survives(form, b.baseSize, old(b.capacity), old(b.position), vs, Orders(old(b.order), host)) ==>
              end == old(b.position) + |BytesOfAll(vs, Orders(old(b.order), host))|
  {
    hide Wrote, ListResult, Survives, Buffer.Chained;
    ghost var f, o := b.View(), Orders(b.order, host);
    var start := b.position;
    b.CapacityIsLength();
    WriteValues(b, form, host, vs);
    ghost var g := b.View();
    end := b.position;
    b.CapacityIsLength();
    WroteForward(f, g, form, WritesOfAll(vs, o));
    b.OwnsItself();
    var _ := b.SetPosition(start);
    ghost var s := b.Stream();
    got := ReadValues(b, TypesOf(vs), host);
    RoundTripResult(f, g, s, form, vs, o, got, b.position);
    SurvivorsEnd(form, f.base, |f.bytes|, f.position, vs, o);
  }

  /** A list that survives is stored in full. */
  lemma SurvivorsEnd(form: Form, base: nat, cap: nat, pos: nat, vs: seq<Value>, o: Orders)
    requires base > 0
    ensures Survives(form, base, cap, pos, vs, o) ==>
              |StoredAll(form, base, pos, WritesOfAll(vs, o))| == |BytesOfAll(vs, o)|
  {
    hide EachFits, StoredAll;
    StoredIffFits(form, base, pos, WritesOfAll(vs, o));
    WritesFlatten(vs, o);
  }

  lemma WroteForward(f: FlatView, g: FlatView, form: Form, parts: seq<seq<Byte>>)
    requires Wrote(f, g, form, parts)
    ensures f.position <= g.position <= g.size && g.position <= |g.bytes|
    ensures g.position == f.position + |StoredAll(form, f.base, f.position, parts)|
  {
  }

  lemma StoredThenRest(f: FlatView, g: FlatView, d: seq<Byte>, s: seq<Byte>)
    requires Overwritten(f, g, d) && g.size <= |g.bytes| && s == g.bytes[f.position..g.size]
    ensures g.position == f.position + |d| <= g.size
    ensures s == d + g.bytes[g.position..g.size]
  {
  }

  lemma RoundTripResult(f: FlatView, g: FlatView, s: seq<Byte>, form: Form, vs: seq<Value>, o: Orders,
                        got: Outcome<seq<Value>>, p: nat)
    requires f.base > 0 && AllWellTyped(vs) && |f.bytes| % f.base == 0
    requires Wrote(f, g, form, WritesOfAll(vs, o))
    requires g.size <= |g.bytes| && s == g.bytes[f.position..g.size]
    requires var d := ReadAll(TypesOf(vs), s, o);
             ListResult(got, d, f.position, |g.bytes|) && p == f.position + d.consumed
    ensures got == Done(vs) && p == g.position <==> Survives(form, f.base, |f.bytes|, f.position, vs, o)
  {
    hide EachFits, StoredAll, CapacityAfter, ReadAll, AllLengthsFit, BytesOfAll;
    var parts := WritesOfAll(vs, o);
    var stored := StoredAll(form, f.base, f.position, parts);
    StoredThenRest(f, g, stored, s);
    hide Overwritten, Wrote;
    StoredReadsBack(form, f.base, f.position, vs, o, g.bytes[g.position..g.size]);
    ResultIsDecoded(got, ReadAll(TypesOf(vs), s, o), vs, |stored|, f.position, p, |g.bytes|);
    if EachFits(form, f.base, f.position, parts) {
      SurvivorFaults(form, f.base, |f.bytes|, f.position, vs, o);
    }
  }

  /** The list comes back, and reading ends where writing ended, exactly when the stream decodes to it
      and the last value does not fault. */
  lemma ResultIsDecoded(got: Outcome<seq<Value>>, d: Decoded<seq<Value>>, vs: seq<Value>, n: nat,
                        start: nat, p: nat, capacity: nat)
    requires ListResult(got, d, start, capacity) && p == start + d.consumed
    ensures got == Done(vs) && p == start + n <==> d == Ok(vs, n) && !LastFaults(vs, start + n, capacity)
  {
    hide LastFaults;
  }

  /** Whether a list that fits ends in the fault, in terms of what is known before writing. */
  lemma SurvivorFaults(form: Form, base: nat, cap: nat, pos: nat, vs: seq<Value>, o: Orders)
    requires base > 0 && cap % base == 0 && pos <= cap && EachFits(form, base, pos, WritesOfAll(vs, o))
    ensures var n := |StoredAll(form, base, pos, WritesOfAll(vs, o))|;
            && n == |BytesOfAll(vs, o)|
            && (LastFaults(vs, pos + n, CapacityAfter(form, base, cap, pos, WritesOfAll(vs, o)))
                <==> EndsInFault(base, cap, pos + n, vs))
  {
    hide EachFits, StoredAll, CapacityAfter, BytesOfAll;
    StoredIffFits(form, base, pos, WritesOfAll(vs, o));
    WritesFlatten(vs, o);
    EndsAtCapacity(form, base, cap, pos, vs, o);
  }

  /** A 16-bit integer at the last byte of a node is lost by the shipped `write` and survives with
      the loop. */
  lemma ShippedWriteLosesBytes(o: Orders)
    ensures var vs := [Uint(I16, 0x0102)];
            && AllWellTyped(vs)
            && !Survives(Shipped, 2, 2, 1, vs, o)
            && Survives(Looped, 2, 2, 1, vs, o)
  {
    var vs := [Uint(I16, 0x0102)];
    Pow2Seven();
    Pow2Add(8, 8);
    assert WritesOfAll(vs, o) == Writes(vs[0], o) by {
      assert vs[1..] == [];
    }
  }
}
