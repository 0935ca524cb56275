/** The bytes on the wire, with every width written out: what the typed functions of
    `easy/net/Buffer.cc` store for the C++ types of their parameters. */
module WireFormat {
  import opened Bits
  import opened Endian
  import opened Flat
  import opened Varint
  import opened Codec

  /** The values of the C++ integer types, and the lengths that the string prefixes can hold. */
  lemma Ranges(u: nat, i: int, s: seq<Byte>)
    ensures WellTyped(Uint(I8, u)) <==> u < 0x100
    ensures WellTyped(Uint(I16, u)) <==> u < 0x1_0000
    ensures WellTyped(Uint(I32, u)) <==> u < 0x1_0000_0000
    ensures WellTyped(Uint(I64, u)) <==> u < 0x1_0000_0000_0000_0000
    ensures WellTyped(Int(I8, i)) <==> -0x80 <= i < 0x80
    ensures WellTyped(Int(I16, i)) <==> -0x8000 <= i < 0x8000
    ensures WellTyped(Int(I32, i)) <==> -0x8000_0000 <= i < 0x8000_0000
    ensures WellTyped(Int(I64, i)) <==> -0x8000_0000_0000_0000 <= i < 0x8000_0000_0000_0000
    ensures WellTyped(VarUint(V32, u)) <==> u < 0x1_0000_0000
    ensures WellTyped(VarUint(V64, u)) <==> u < 0x1_0000_0000_0000_0000
    ensures WellTyped(VarInt(V32, i)) <==> -0x8000_0000 <= i < 0x8000_0000
    ensures WellTyped(VarInt(V64, i)) <==> -0x8000_0000_0000_0000 <= i < 0x8000_0000_0000_0000
    ensures forall p :: WellTyped(Str(p, s)) <==> |s| < 0x1_0000_0000_0000_0000
    ensures LengthFits(Str(Fixed(I16), s)) <==> |s| < 0x1_0000
    ensures LengthFits(Str(Fixed(I32), s)) <==> |s| < 0x1_0000_0000
    ensures LengthFits(Str(Fixed(I64), s)) <==> |s| < 0x1_0000_0000_0000_0000
    ensures LengthFits(Str(Vint, s))
  {
    WordSizes();
    hide Pow2;
  }

  // ----- fixed-width integers -----

  /** The number that bytes stand for, most significant first. */
  function BigValue(s: seq<Byte>): nat {
    if s == [] then 0 else 0x100 * BigValue(s[..|s| - 1]) + s[|s| - 1]
  }

  lemma {:induction false} BigOfLittle(s: seq<Byte>)
    ensures BigValue(Reverse(s)) == LittleValue(s)
  {
    if s != [] {
      assert Reverse(s)[..|s| - 1] == Reverse(s[1..]);
      BigOfLittle(s[1..]);
    }
  }

  /** `writeFuint8` to `writeFuint64`: 1, 2, 4 or 8 bytes that stand for the value in the buffer's byte
      order, on a host of either byte order. */
  lemma UintWire(size: IntSize, u: nat, o: Orders)
    requires WellTyped(Uint(size, u))
    ensures var b := Bytes(Uint(size, u), o);
            && |b| == (match size case I8 => 1 case I16 => 2 case I32 => 4 case I64 => 8)
            && u == (if o.buffer == Big then BigValue(b) else LittleValue(b))
  {
    FlattenOne(Writes(Uint(size, u), o)[0]);
    FixedBytesOrder(u, size.Bytes(), o.buffer, o.host);
    LittleRoundTrip(u, size.Bytes());
    BigOfLittle(LittleBytes(u, size.Bytes()));
  }

  /** For instance a 32-bit integer in a big-endian buffer: its four base-256 digits. */
  lemma Uint32Digits(u: nat, host: Order)
    requires u < 0x1_0000_0000
    ensures Bytes(Uint(I32, u), Orders(Big, host))
         == [u / 0x100_0000, u / 0x1_0000 % 0x100, u / 0x100 % 0x100, u % 0x100]
  {
    Ranges(u, 0, []);
    var b := Bytes(Uint(I32, u), Orders(Big, host));
    UintWire(I32, u, Orders(Big, host));
    hide WellTyped, Bytes;
    BigFour(b);
    FourDigitsOf(u, b[0], b[1], b[2], b[3]);
    hide BigValue, LittleValue, Pow2;
  }

  lemma BigFour(s: seq<Byte>)
    requires |s| == 4
    ensures var a: nat, b: nat, c: nat, d: nat := s[0], s[1], s[2], s[3];
            BigValue(s) == a * 0x100_0000 + b * 0x1_0000 + c * 0x100 + d
  {
    assert s[..3][..2] == s[..2] && s[..2][..1] == s[..1] && s[..1][..0] == [];
    assert BigValue(s[..1]) == s[0];
    var a: nat, b: nat := s[0], s[1];
    assert BigValue(s[..2]) == 0x100 * a + b;
    assert BigValue(s[..3]) == 0x100 * BigValue(s[..2]) + s[2];
  }

  lemma FourDigitsOf(u: nat, a: nat, b: nat, c: nat, d: nat)
    requires a < 0x100 && b < 0x100 && c < 0x100 && d < 0x100
    requires u == a * 0x100_0000 + b * 0x1_0000 + c * 0x100 + d
    ensures u / 0x100_0000 == a && u / 0x1_0000 % 0x100 == b && u / 0x100 % 0x100 == c && u % 0x100 == d
  {
    DivModUnique(u, 0x100_0000, a, b * 0x1_0000 + c * 0x100 + d);
    DivModUnique(u, 0x1_0000, a * 0x100 + b, c * 0x100 + d);
    DivModUnique(a * 0x100 + b, 0x100, a, b);
    DivModUnique(u, 0x100, a * 0x1_0000 + b * 0x100 + c, d);
    DivModUnique(a * 0x1_0000 + b * 0x100 + c, 0x100, a * 0x100 + b, c);
  }

  /** The signed forms store two's complement. */
  lemma IntWire(size: IntSize, i: int, o: Orders)
    requires WellTyped(Int(size, i))
    ensures var wrap := match size
                        case I8 => 0x100
                        case I16 => 0x1_0000
                        case I32 => 0x1_0000_0000
                        case I64 => 0x1_0000_0000_0000_0000;
            var u := if i < 0 then i + wrap else i;
            && u >= 0 && WellTyped(Uint(size, u))
            && Bytes(Int(size, i), o) == Bytes(Uint(size, u), o)
  {
    Ranges(0, i, []);
    WordSizes();
    Wrapped(i, Pow2(size.Bits()));
    Ranges(if i < 0 then i + Pow2(size.Bits()) else i, 0, []);
    hide Pow2, FixedBytes, WellTyped, Flatten;
  }

  lemma Wrapped(i: int, p: nat)
    requires 0 - p <= i < p
    ensures i % p == if i < 0 then i + p else i
  {
    if i < 0 {
      DivModUnique(i, p, -1, i + p);
    } else {
      DivModUnique(i, p, 0, i);
    }
  }

  // ----- varints -----

  /** Section 7.6 of DWARF 4: seven bits a byte, least significant first. */
  function Leb128(s: seq<Byte>): nat {
    if s == [] then 0 else s[0] % 0x80 + 0x80 * Leb128(s[1..])
  }

  /** The high bit is set on every byte but the last, and no byte is wasted. */
  ghost predicate Leb128Form(s: seq<Byte>) {
    && s != []
    && (forall i :: 0 <= i < |s| - 1 ==> s[i] >= 0x80)
    && s[|s| - 1] < 0x80
    && (|s| > 1 ==> s[|s| - 1] > 0)
  }

  lemma {:induction false} VarintIsLeb128(v: nat)
    ensures Leb128Form(VarintBytes(v)) && Leb128(VarintBytes(v)) == v
    ensures v > 0 ==> VarintBytes(v)[|VarintBytes(v)| - 1] > 0
    decreases v
  {
    VarintUnfold(v);
    hide VarintBytes;
    if v >= 0x80 {
      VarintIsLeb128(v / 0x80);
      MoreLeb128(v % 0x80 + 0x80, VarintBytes(v / 0x80));
    } else {
      assert Leb128([v]) == v;
    }
  }

  lemma MoreLeb128(b: Byte, r: seq<Byte>)
    requires b >= 0x80 && Leb128Form(r) && r[|r| - 1] > 0
    ensures Leb128Form([b] + r) && ([b] + r)[|r|] > 0
    ensures Leb128([b] + r) == b % 0x80 + 0x80 * Leb128(r)
  {
    var s := [b] + r;
    assert s[1..] == r;
    assert forall i :: 0 < i < |s| ==> s[i] == r[i - 1];
  }

  /** `writeUint32` and `writeUint64`: the value in LEB128, in at most 5 or 10 bytes. */
  lemma VarUintWire(w: Width, u: nat, o: Orders)
    requires WellTyped(VarUint(w, u))
    ensures var b := Bytes(VarUint(w, u), o);
            && Leb128Form(b) && Leb128(b) == u
            && |b| <= (match w case V32 => 5 case V64 => 10)
  {
    FlattenOne(VarintBytes(u));
    VarintIsLeb128(u);
    TmpSuffices(u, w);
  }

  /** `writeInt32` and `writeInt64`: the zigzag form of the value. */
  lemma VarIntWire(w: Width, i: int, o: Orders)
    requires WellTyped(VarInt(w, i))
    ensures var u := if i < 0 then -2 * i - 1 else 2 * i;
            WellTyped(VarUint(w, u)) && Bytes(VarInt(w, i), o) == Bytes(VarUint(w, u), o)
  {
    EncodeZigzagMeaning(i, w);
    hide EncodeZigzag;
  }

  // ----- strings -----

  /** A length cast to the unsigned type of a prefix. */
  function Cut(size: IntSize, n: nat): nat {
    match size
    case I8 => n % 0x100
    case I16 => n % 0x1_0000
    case I32 => n % 0x1_0000_0000
    case I64 => n % 0x1_0000_0000_0000_0000
  }

  /** A string is its length, cut to the prefix type, and then its bytes, in two calls of `write`. */
  lemma StringWire(prefix: Prefix, s: seq<Byte>, o: Orders)
    requires |s| < 0x1_0000_0000_0000_0000
    ensures Writes(Str(prefix, s), o)
         == [if prefix.Fixed? then Bytes(Uint(prefix.size, Cut(prefix.size, |s|)), o)
             else Bytes(VarUint(V64, |s|), o), s]
  {
    match prefix
    case Fixed(size) => PrefixWire(size, |s|, o);
    case Vint => VintWire(|s|, o);
  }

  lemma PrefixWire(size: IntSize, n: nat, o: Orders)
    ensures LengthBytes(Fixed(size), n, o) == Bytes(Uint(size, Cut(size, n)), o)
  {
    WordSizes();
    hide Pow2;
    FlattenOne(LengthBytes(Fixed(size), n, o));
  }

  lemma VintWire(n: nat, o: Orders)
    requires n < 0x1_0000_0000_0000_0000
    ensures LengthBytes(Vint, n, o) == Bytes(VarUint(V64, n), o)
  {
    WordSizes();
    Wrapped(n, Pow2(64));
    hide Pow2;
    FlattenOne(VarintBytes(n));
  }

  /** The calls of `write` together are the encoding; every value but a string takes one. */
  lemma WritesWire(v: Value, o: Orders)
    ensures if v.Str? then |Writes(v, o)| == 2 && Bytes(v, o) == Writes(v, o)[0] + Writes(v, o)[1]
            else Writes(v, o) == [Bytes(v, o)]
  {
    if v.Str? {
      FlattenTwo(Writes(v, o)[0], Writes(v, o)[1]);
    } else {
      FlattenOne(Writes(v, o)[0]);
    }
  }

  // ----- reading any bytes -----

  /** `readFuint8` to `readFuint64` take 1, 2, 4 or 8 bytes of any stream in the buffer's byte order, and
      nothing from a shorter one. */
  lemma UintFromWire(size: IntSize, s: seq<Byte>, o: Orders)
    ensures var n := match size case I8 => 1 case I16 => 2 case I32 => 4 case I64 => 8;
            Codec.Read(TUint(size), s, o)
              == if |s| < n then Short(0)
                 else Ok(Uint(size, if o.buffer == Big then BigValue(s[..n]) else LittleValue(s[..n])), n)
  {
    var n := size.Bytes();
    if |s| >= n {
      FixedValueOrder(s[..n], o.buffer, o.host);
      BigOfLittle(Reverse(s[..n]));
      ReverseTwice(s[..n]);
    }
    hide FixedValue, LittleValue, BigValue, Reverse;
  }

  /** The signed forms read the same number as two's complement. */
  lemma IntFromWire(size: IntSize, s: seq<Byte>, o: Orders)
    ensures var r := Codec.Read(TUint(size), s, o);
            var half := match size
                        case I8 => 0x80
                        case I16 => 0x8000
                        case I32 => 0x8000_0000
                        case I64 => 0x8000_0000_0000_0000;
            Codec.Read(TInt(size), s, o)
              == if r.Short? then Short(0)
                 else Ok(Int(size, if r.value.u < half then r.value.u else r.value.u - 2 * half), r.consumed)
  {
    WordSizes();
    ReadFixedBound(s, size, o);
    var r := ReadFixed(s, size, o);
    if r.Ok? {
      Wrapped(r.value, Pow2(size.Bits()));
    }
    hide Pow2, ReadFixed;
  }

  /** A string is as many bytes of the stream as its length says; with fewer left, only the length has
      been read. */
  lemma StringFromWire(prefix: Prefix, s: seq<Byte>, o: Orders)
    ensures var r := if prefix.Fixed? then Codec.Read(TUint(prefix.size), s, o) else Codec.Read(TVarUint(V64), s, o);
            var t := Codec.Read(TString(prefix), s, o);
            match r
            case Short(c) => t == Short(c)
            case Ok(v, c) =>
              var n := if prefix.Fixed? then v.u else v.vu;
              t == if |s| - c < n then Short(c) else Ok(Str(prefix, s[c..c + n]), c + n)
  {
    hide ReadFixed, ReadVarint;
  }

  /** The decoding loop on any bytes. It reads up to the first byte below 0x80, but no more than 5 or 10,
      and returns what LEB128 makes of them, cut to the word. */
  lemma VarUintFromWire(w: Width, s: seq<Byte>, o: Orders)
    ensures var limit := match w case V32 => 5 case V64 => 10;
            var wrap := match w case V32 => 0x1_0000_0000 case V64 => 0x1_0000_0000_0000_0000;
            match Codec.Read(TVarUint(w), s, o)
            case Short(c) => c == |s| < limit && forall j :: 0 <= j < |s| ==> s[j] >= 0x80
            case Ok(v, c) =>
              && 1 <= c <= limit && c <= |s|
              && v == VarUint(w, Leb128(s[..c]) % wrap)
              && (forall j :: 0 <= j < c - 1 ==> s[j] >= 0x80)
              && (s[c - 1] < 0x80 || c == limit)
  {
    LoopDecodes(s, 0, 0, w);
    WordSizes();
    hide ReadLoop, Leb128;
  }

  /** And the zigzag forms undo zigzag on that. */
  lemma VarIntFromWire(w: Width, s: seq<Byte>, o: Orders)
    ensures match Codec.Read(TVarUint(w), s, o)
            case Short(c) => Codec.Read(TVarInt(w), s, o) == Short(c)
            case Ok(v, c) =>
              Codec.Read(TVarInt(w), s, o) == Ok(VarInt(w, if v.vu % 2 == 1 then -(v.vu / 2) - 1 else v.vu / 2), c)
  {
    EncodingIsShortest(s, w);
    var r := ReadVarint(s, w);
    if r.Ok? {
      DecodeZigzagMeaning(r.value, w);
    }
    hide ReadVarint, DecodeZigzag, VarintBytes;
  }

  /** What the loop returns from its turn `k` on, with the bits of `result` read before. */
  ghost predicate Decodes(r: Decoded<nat>, s: seq<Byte>, k: nat, result: nat, w: Width) {
    match r
    case Short(c) => c == |s| && k + |s| < w.TmpSize() && forall j :: 0 <= j < |s| ==> s[j] >= 0x80
    case Ok(v, c) =>
      && c <= |s| && k + c <= w.TmpSize()
      && v == (result + Leb128(s[..c]) * Pow2(7 * k)) % Pow2(w.Bits())
      && (forall j :: 0 <= j < c - 1 ==> s[j] >= 0x80)
      && (c == 0 ==> k == w.TmpSize())
      && (c > 0 ==> s[c - 1] < 0x80 || k + c == w.TmpSize())
  }

  lemma {:induction false} LoopDecodes(s: seq<Byte>, k: nat, result: nat, w: Width)
    requires result < Pow2(7 * k) && result < Pow2(w.Bits()) && k <= w.TmpSize()
    ensures Decodes(ReadLoop(s, 7 * k, result, w), s, k, result, w)
    decreases w.TmpSize() - k
  {
    var i := 7 * k;
    hide ReadLoop, Leb128, Pow2;
    if k == w.TmpSize() {
      ReadLoopEnds(s, i, result, w);
      NoMore(s, result, Pow2(i), Pow2(w.Bits()));
    } else if s == [] {
      ReadLoopEnds(s, i, result, w);
    } else {
      var b := s[0] % 0x80;
      var next := Or(result, Unsigned(ShiftLeft(b, i), w.Bits()));
      AddPayload(result, b, i, w.Bits());
      CutPayload(result, b, i, w.Bits());
      ReadLoopStep(s, i, result, next, w);
      if s[0] < 0x80 {
        OneByte(s);
      } else {
        LoopDecodes(s[1..], k + 1, next, w);
        OneMore(s, k, result, next, w);
      }
    }
  }

  lemma NoMore(s: seq<Byte>, result: nat, p: nat, q: nat)
    requires result < q
    ensures (result + Leb128(s[..0]) * p) % q == result
  {
    Wrapped(result, q);
  }

  lemma OneByte(s: seq<Byte>)
    requires s != []
    ensures Leb128(s[..1]) == s[0] % 0x80
  {
  }

  /** One turn adds its payload in the word. */
  lemma CutPayload(result: nat, b: nat, i: nat, bits: nat)
    requires i < bits && result < Pow2(i) && b < 0x80
    ensures Or(result, Unsigned(ShiftLeft(b, i), bits)) == (result + b * Pow2(i)) % Pow2(bits)
  {
    var p, q := Pow2(i), Pow2(bits - i);
    var h, d := b % q, b / q;
    Divide(b, q);
    ShiftedPayload(b, i, bits);
    OrDisjoint(result, h, i);
    Pow2Add(i, bits - i);
    DigitBound(result, h, p, q);
    ScaleSplit(b, d, h, q, p);
    hide Pow2, Or, Unsigned, ShiftLeft;
    Commute(p, q);
    DivModUnique(result + b * p, p * q, d, result + h * p);
  }

  lemma Commute(p: nat, q: nat)
    ensures p * q == q * p
  {
  }

  /** A turn and the turns after it. */
  lemma OneMore(s: seq<Byte>, k: nat, result: nat, next: nat, w: Width)
    requires s != [] && s[0] >= 0x80 && k < w.TmpSize()
    requires next == (result + s[0] % 0x80 * Pow2(7 * k)) % Pow2(w.Bits())
    requires Decodes(ReadLoop(s[1..], 7 * k + 7, next, w), s[1..], k + 1, next, w)
    ensures Decodes(Later(ReadLoop(s[1..], 7 * k + 7, next, w)), s, k, result, w)
  {
    hide ReadLoop, Pow2;
    var r := ReadLoop(s[1..], 7 * k + 7, next, w);
    if r.Ok? {
      var c := r.consumed;
      assert s[..c + 1][0] == s[0] && s[..c + 1][1..] == s[1..][..c];
      Pow2Add(7, 7 * k);
      Pow2Seven();
      AddLater(result, s[0] % 0x80, Leb128(s[1..][..c]), Pow2(7 * k), Pow2(w.Bits()));
    }
  }

  lemma AddLater(result: nat, b: nat, rest: nat, p: nat, q: nat)
    requires q > 0
    ensures ((result + b * p) % q + rest * (0x80 * p)) % q == (result + (b + 0x80 * rest) * p) % q
  {
    var x, y := result + b * p, rest * (0x80 * p);
    Divide(x, q);
    var z := x % q + y;
    Divide(z, q);
    assert (b + 0x80 * rest) * p == b * p + rest * (0x80 * p);
    assert x + y == (x / q + z / q) * q + z % q;
    DivModUnique(x + y, q, x / q + z / q, z % q);
  }
}
