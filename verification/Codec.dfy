/** The typed layer of `easy/net/Buffer.cc`: which bytes each `write...` hands to `write`, and what each
    `read...` makes of a byte stream. Strings are byte sequences, as `std::string` is here. */
module Codec {
  import opened Bits
  import opened Endian
  import opened Flat
  import opened Varint

  datatype IntSize = I8 | I16 | I32 | I64 {
    function Bytes(): (n: nat)
      ensures n > 0
    {
      match this case I8 => 1 case I16 => 2 case I32 => 4 case I64 => 8
    }

    function Bits(): (n: nat)
      ensures n > 0
    {
      8 * Bytes()
    }
  }

  /** How a string's length is stored: as a fixed-width integer or as a varint. */
  datatype Prefix = Fixed(size: IntSize) | Vint

  datatype Type =
    | TUint(size: IntSize)
    | TInt(size: IntSize)
    | TVarUint(w: Width)
    | TVarInt(w: Width)
    | TString(prefix: Prefix)

  datatype Value =
    | Uint(size: IntSize, u: nat)
    | Int(size: IntSize, i: int)
    | VarUint(w: Width, vu: nat)
    | VarInt(w: Width, vi: int)
    | Str(prefix: Prefix, s: seq<Byte>)

  /** Byte order of the buffer and of the host the code runs on. */
  datatype Orders = Orders(buffer: Order, host: Order)

  function TypeOf(v: Value): Type {
    match v
    case Uint(size, _) => TUint(size)
    case Int(size, _) => TInt(size)
    case VarUint(w, _) => TVarUint(w)
    case VarInt(w, _) => TVarInt(w)
    case Str(prefix, _) => TString(prefix)
  }

  /** The values of the C++ parameter types. A string's `size()` is a 64-bit word. */
  predicate WellTyped(v: Value) {
    match v
    case Uint(size, u) => u < Pow2(size.Bits())
    case Int(size, i) => IsSigned(i, size.Bits())
    case VarUint(w, u) => u < Pow2(w.Bits())
    case VarInt(w, i) => IsSigned(i, w.Bits())
    case Str(_, s) => |s| < Pow2(64)
  }

  /** The length of a string survives the cast to its prefix type. */
  predicate LengthFits(v: Value) {
    v.Str? && v.prefix.Fixed? ==> |v.s| < Pow2(v.prefix.size.Bits())
  }

  // ----- writing -----

  function LengthBytes(prefix: Prefix, n: nat, o: Orders): seq<Byte> {
    match prefix
    case Fixed(size) => FixedBytes(Unsigned(n, size.Bits()), size.Bytes(), o.buffer, o.host)
    case Vint => VarintBytes(Unsigned(n, 64))
  }

  /** The calls of `write` made for one value, in order: a string makes two. */
  function Writes(v: Value, o: Orders): seq<seq<Byte>> {
    match v
    case Uint(size, u) => [FixedBytes(u, size.Bytes(), o.buffer, o.host)]
    case Int(size, i) => [FixedBytes(Unsigned(i, size.Bits()), size.Bytes(), o.buffer, o.host)]
    case VarUint(w, u) => [VarintBytes(u)]
    case VarInt(w, i) => [VarintBytes(EncodeZigzag(i, w))]
    case Str(prefix, s) => [LengthBytes(prefix, |s|, o), s]
  }

  function Bytes(v: Value, o: Orders): seq<Byte> {
    Flatten(Writes(v, o))
  }

  function BytesOfAll(vs: seq<Value>, o: Orders): seq<Byte> {
    if vs == [] then [] else Bytes(vs[0], o) + BytesOfAll(vs[1..], o)
  }

  function WritesOfAll(vs: seq<Value>, o: Orders): seq<seq<Byte>> {
    if vs == [] then [] else Writes(vs[0], o) + WritesOfAll(vs[1..], o)
  }

  // ----- reading -----

  function ReadFixed(s: seq<Byte>, size: IntSize, o: Orders): (r: Decoded<nat>)
    ensures r.consumed <= |s|
  {
    if |s| < size.Bytes() then Short(0)
    else Ok(FixedValue(s[..size.Bytes()], o.buffer, o.host), size.Bytes())
  }

  function ReadLength(s: seq<Byte>, prefix: Prefix, o: Orders): (r: Decoded<nat>)
    ensures r.consumed <= |s|
  {
    match prefix
    case Fixed(size) => ReadFixed(s, size, o)
    case Vint => ReadVarint(s, V64)
  }

  function MapDecoded<A, B>(r: Decoded<A>, f: A -> B): Decoded<B> {
    match r
    case Ok(a, c) => Ok(f(a), c)
    case Short(c) => Short(c)
  }

  /** One `read...` call on the stream `s`. */
  function Read(t: Type, s: seq<Byte>, o: Orders): (r: Decoded<Value>)
    ensures r.consumed <= |s|
  {
    match t
    case TUint(size) => MapDecoded(ReadFixed(s, size, o), u => Uint(size, u))
    case TInt(size) => MapDecoded(ReadFixed(s, size, o), u => Int(size, Signed(Unsigned(u, size.Bits()), size.Bits())))
    case TVarUint(w) => MapDecoded(ReadVarint(s, w), u => VarUint(w, u))
    case TVarInt(w) => MapDecoded(ReadVarint(s, w), u => VarInt(w, DecodeZigzag(u, w)))
    case TString(prefix) =>
      match ReadLength(s, prefix, o)
      case Short(c) => Short(c)
      case Ok(n, c) =>
        if c + n > |s| then Short(c) else Ok(Str(prefix, s[c..c + n]), c + n)
  }

  function TypesOf(vs: seq<Value>): (ts: seq<Type>)
    ensures |ts| == |vs|
    ensures forall i :: 0 <= i < |vs| ==> ts[i] == TypeOf(vs[i])
  {
    seq(|vs|, i requires 0 <= i < |vs| => TypeOf(vs[i]))
  }

  /** Reading the types in turn. */
  function ReadAll(ts: seq<Type>, s: seq<Byte>, o: Orders): (r: Decoded<seq<Value>>)
    ensures r.consumed <= |s|
  {
    if ts == [] then Ok([], 0)
    else
      match Read(ts[0], s, o)
      case Short(c) => Short(c)
      case Ok(v, c) =>
        match ReadAll(ts[1..], s[c..], o)
        case Short(d) => Short(c + d)
        case Ok(vs, d) => Ok([v] + vs, c + d)
  }

  // ----- one value -----

  lemma ReadFixedInverts(u: nat, size: IntSize, o: Orders, rest: seq<Byte>)
    requires u < Pow2(size.Bits())
    ensures ReadFixed(FixedBytes(u, size.Bytes(), o.buffer, o.host) + rest, size, o) == Ok(u, size.Bytes())
  {
    var b := FixedBytes(u, size.Bytes(), o.buffer, o.host);
    FixedRoundTrip(u, size.Bytes(), o.buffer, o.host, o.host);
    assert (b + rest)[..size.Bytes()] == b;
  }

  lemma ReadLengthInverts(prefix: Prefix, n: nat, o: Orders, rest: seq<Byte>)
    requires n < Pow2(64)
    ensures ReadLength(LengthBytes(prefix, n, o) + rest, prefix, o)
         == Ok(StoredLength(prefix, n), |LengthBytes(prefix, n, o)|)
    ensures |LengthBytes(prefix, n, o)| >= 1
  {
    match prefix
    case Fixed(size) =>
      ReadFixedInverts(Unsigned(n, size.Bits()), size, o, rest);
    case Vint =>
      assert Pow2(V64.Bits()) == Pow2(64);
      Small(n, Pow2(64));
      ReadVarintInverts(n, V64, rest);
      TmpSuffices(n, V64);
  }

  /** Reading the type of a value from its encoding returns the value and consumes exactly its
      encoding, whatever follows; a string whose length was cut by the cast comes back as a proper
      prefix of itself. */
  lemma ReadInverts(v: Value, o: Orders, rest: seq<Byte>)
    requires WellTyped(v)
    ensures |Bytes(v, o)| >= 1
    ensures LengthFits(v) ==> Read(TypeOf(v), Bytes(v, o) + rest, o) == Ok(v, |Bytes(v, o)|)
    ensures !LengthFits(v) ==> var r := Read(TypeOf(v), Bytes(v, o) + rest, o);
              r.Ok? && r.value.Str? && |r.value.s| < |v.s| && r.value.s == v.s[..|r.value.s|]
  {
    if v.Str? {
      ReadInvertsString(v.prefix, v.s, o, rest);
    } else {
      ReadInvertsNumber(v, o, rest);
    }
  }

  lemma ReadInvertsNumber(v: Value, o: Orders, rest: seq<Byte>)
    requires WellTyped(v) && !v.Str?
    ensures |Bytes(v, o)| >= 1
    ensures Read(TypeOf(v), Bytes(v, o) + rest, o) == Ok(v, |Bytes(v, o)|)
  {
    FlattenOne(Writes(v, o)[0]);
    hide Flatten, FixedBytes, VarintBytes, ReadFixed, ReadVarint, EncodeZigzag, DecodeZigzag, Signed, Pow2;
    match v
    case Uint(size, u) =>
      ReadFixedInverts(u, size, o, rest);
    case Int(size, i) =>
      ReadFixedInverts(Unsigned(i, size.Bits()), size, o, rest);
      Small(Unsigned(i, size.Bits()), Pow2(size.Bits()));
      SignedUnsigned(i, size.Bits());
    case VarUint(w, u) =>
      ReadVarintInverts(u, w, rest);
      TmpSuffices(u, w);
    case VarInt(w, i) =>
      ZigzagBijection(i, 0, w);
      ReadVarintInverts(EncodeZigzag(i, w), w, rest);
      TmpSuffices(EncodeZigzag(i, w), w);
  }

  lemma ReadInvertsString(prefix: Prefix, str: seq<Byte>, o: Orders, rest: seq<Byte>)
    requires WellTyped(Str(prefix, str))
    ensures var v := Str(prefix, str);
            var r := Read(TypeOf(v), Bytes(v, o) + rest, o);
            && |Bytes(v, o)| >= 1
            && (LengthFits(v) ==> r == Ok(v, |Bytes(v, o)|))
            && (!LengthFits(v) ==>
                 r.Ok? && r.value.Str? && |r.value.s| < |str| && r.value.s == str[..|r.value.s|])
  {
    var b := LengthBytes(prefix, |str|, o);
    var n := StoredLength(prefix, |str|);
    FlattenTwo(b, str);
    ReadLengthInverts(prefix, |str|, o, str + rest);
    StoredLengthFits(prefix, str);
    ReadStringAfterLength(prefix, b, n, str, rest, o);
    hide Flatten, LengthBytes, StoredLength, LengthFits, WellTyped, ReadLength, Read;
    assert str[..|str|] == str;
  }

  lemma ReadStringAfterLength(prefix: Prefix, b: seq<Byte>, n: nat, str: seq<Byte>, rest: seq<Byte>, o: Orders)
    requires n <= |str| && ReadLength(b + (str + rest), prefix, o) == Ok(n, |b|)
    ensures Read(TString(prefix), b + str + rest, o) == Ok(Str(prefix, str[..n]), |b| + n)
  {
    hide ReadLength;
    assert b + str + rest == b + (str + rest);
    Middle(b, str, rest, n);
  }

  lemma Middle(b: seq<Byte>, str: seq<Byte>, rest: seq<Byte>, n: nat)
    requires n <= |str|
    ensures (b + str + rest)[|b|..|b| + n] == str[..n]
  {
  }

  /** The length that a prefix can hold of `n`. */
  function StoredLength(prefix: Prefix, n: nat): nat {
    if prefix.Fixed? then Unsigned(n, prefix.size.Bits()) else n
  }

  lemma StoredLengthFits(prefix: Prefix, str: seq<Byte>)
    ensures var n := StoredLength(prefix, |str|);
            if LengthFits(Str(prefix, str)) then n == |str| else n < |str|
  {
    if LengthFits(Str(prefix, str)) && prefix.Fixed? {
      Small(|str|, Pow2(prefix.size.Bits()));
    }
  }

  lemma ReadFixedBound(s: seq<Byte>, size: IntSize, o: Orders)
    ensures var r := ReadFixed(s, size, o);
            (r.Ok? ==> r.value < Pow2(size.Bits()) && r.consumed == size.Bytes())
  {
    if |s| >= size.Bytes() {
      FixedValueBound(s[..size.Bytes()], o.buffer, o.host);
    }
  }

  lemma ReadLengthBound(s: seq<Byte>, prefix: Prefix, o: Orders)
    ensures var r := ReadLength(s, prefix, o);
            (r.Ok? ==> r.value < Pow2(if prefix.Fixed? then prefix.size.Bits() else 64)
                          && 1 <= |LengthBytes(prefix, r.value, o)| <= r.consumed)
  {
    match prefix
    case Fixed(size) => ReadFixedBound(s, size, o);
    case Vint =>
      EncodingIsShortest(s, V64);
      assert V64.Bits() == 64;
      var r := ReadVarint(s, V64);
      if r.Ok? {
        Small(r.value, Pow2(64));
      }
  }

  /** Whatever a read returns is a value of the type, from no fewer bytes than its encoding takes. */
  lemma ReadBound(t: Type, s: seq<Byte>, o: Orders)
    ensures Read(t, s, o).Ok? ==> BoundedValue(Read(t, s, o).value, t, Read(t, s, o).consumed, o)
  {
    if Read(t, s, o).Ok? {
      match t {
        case TString(prefix) =>
          ReadBoundString(prefix, s, o);
        case TUint(size) =>
          ReadFixedBound(s, size, o);
        case TInt(size) =>
          ReadFixedBound(s, size, o);
          UnsignedSigned(Unsigned(ReadFixed(s, size, o).value, size.Bits()), size.Bits());
        case TVarUint(w) =>
          EncodingIsShortest(s, w);
        case TVarInt(w) =>
          EncodingIsShortest(s, w);
          ZigzagBijection(0, ReadVarint(s, w).value, w);
      }
      if !t.TString? {
        FlattenOne(Writes(Read(t, s, o).value, o)[0]);
      }
    }
  }

  ghost predicate BoundedValue(v: Value, t: Type, consumed: nat, o: Orders) {
    WellTyped(v) && LengthFits(v) && TypeOf(v) == t && 1 <= |Bytes(v, o)| <= consumed
  }

  lemma ReadBoundString(prefix: Prefix, s: seq<Byte>, o: Orders)
    requires Read(TString(prefix), s, o).Ok?
    ensures var r := Read(TString(prefix), s, o); BoundedValue(r.value, TString(prefix), r.consumed, o)
  {
    ReadLengthBound(s, prefix, o);
    var q := ReadLength(s, prefix, o);
    var str := s[q.consumed..q.consumed + q.value];
    StringFits(prefix, str);
    FlattenTwo(LengthBytes(prefix, |str|, o), str);
  }

  lemma StringFits(prefix: Prefix, str: seq<Byte>)
    requires |str| < Pow2(if prefix.Fixed? then prefix.size.Bits() else 64)
    ensures WellTyped(Str(prefix, str)) && LengthFits(Str(prefix, str))
  {
    if prefix.Fixed? {
      Pow2Monotone(prefix.size.Bits(), 64);
    }
  }

  // ----- lists of values -----

  ghost predicate AllWellTyped(vs: seq<Value>) {
    forall v :: v in vs ==> WellTyped(v)
  }

  ghost predicate AllLengthsFit(vs: seq<Value>) {
    forall v :: v in vs ==> LengthFits(v)
  }

  /** Reading the types of a list from its encoding gives the list back and consumes exactly the
      encoding if and only if every string's length fits its prefix; otherwise some string comes
      back shorter. */
  lemma {:induction false} ReadAllInverts(vs: seq<Value>, o: Orders, rest: seq<Byte>)
    requires AllWellTyped(vs)
    ensures var r := ReadAll(TypesOf(vs), BytesOfAll(vs, o) + rest, o);
            if AllLengthsFit(vs) then r == Ok(vs, |BytesOfAll(vs, o)|) else r.Ok? ==> r.value != vs
  {
    hide WellTyped, LengthFits, Bytes, Read, AllLengthsFit;
    LengthsFitCons(vs);
    if vs == [] {
    } else {
      var b, bs := Bytes(vs[0], o), BytesOfAll(vs[1..], o);
      assert AllWellTyped(vs[1..]);
      assert BytesOfAll(vs, o) + rest == b + (bs + rest);
      ReadInverts(vs[0], o, bs + rest);
      assert (b + (bs + rest))[|b|..] == bs + rest;
      assert TypesOf(vs)[1..] == TypesOf(vs[1..]);
      ReadAllInverts(vs[1..], o, rest);
      ReadAllCons(TypesOf(vs), b + (bs + rest), o);
      assert vs == [vs[0]] + vs[1..];
    }
  }

  lemma LengthsFitCons(vs: seq<Value>)
    ensures AllLengthsFit(vs) <==> vs == [] || (LengthFits(vs[0]) && AllLengthsFit(vs[1..]))
  {
    hide LengthFits;
    if vs != [] {
      assert forall v :: v in vs <==> v == vs[0] || v in vs[1..];
    }
  }

  lemma ReadAllCons(ts: seq<Type>, s: seq<Byte>, o: Orders)
    requires ts != [] && Read(ts[0], s, o).Ok?
    ensures var h := Read(ts[0], s, o);
            var t := ReadAll(ts[1..], s[h.consumed..], o);
            ReadAll(ts, s, o) == if t.Ok? then Ok([h.value] + t.value, h.consumed + t.consumed)
                                 else Short(h.consumed + t.consumed)
  {
  }

  /** A successful read of a list consumed at least as many bytes as writing the list takes. */
  lemma {:induction false} ReadAllBound(ts: seq<Type>, s: seq<Byte>, o: Orders)
    ensures var r := ReadAll(ts, s, o);
            (r.Ok? ==> |r.value| == |ts| && |BytesOfAll(r.value, o)| <= r.consumed)
  {
    if ts != [] {
      ReadBound(ts[0], s, o);
      var r := Read(ts[0], s, o);
      if r.Ok? {
        ReadAllBound(ts[1..], s[r.consumed..], o);
        var q := ReadAll(ts[1..], s[r.consumed..], o);
        if q.Ok? {
          assert ([r.value] + q.value)[1..] == q.value;
        }
      }
    }
  }
}
