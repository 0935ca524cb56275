/** Unsigned LEB128 (section 7.6 of DWARF 4) and zigzag, as `easy/net/Buffer.cc` computes them.

    `VarintBytes` is the specification of the encoding; `Encode` is the loop that fills `tmp`, and
    `ReadLoop` is the decoding loop, with its shifts, masks and truncation to the word width. */
module Varint {
  import opened Bits

  /** Result of reading from a byte stream: a value and the number of bytes consumed, or the number
      of bytes consumed before the stream ran out (the C++ code throws `std::out_of_range`). */
  datatype Decoded<T> = Ok(value: T, consumed: nat) | Short(consumed: nat)

  /** The two word widths of the source, each with the size of its `tmp` array. */
  datatype Width = V32 | V64 {
    function Bits(): (b: nat)
      ensures b > 0
    {
      if V32? then 32 else 64
    }

    function TmpSize(): nat {
      if V32? then 5 else 10
    }
  }

  // ----- encoding -----

  function VarintBytes(v: nat): (s: seq<Byte>) {
    if v < 0x80 then [v] else [v % 0x80 + 0x80] + VarintBytes(v / 0x80)
  }

  /** A value of at most `7 * n` bits takes at most `n` bytes. */
  lemma {:induction false} VarintLength(v: nat, n: nat)
    requires n > 0 && v < Pow2(7 * n)
    ensures 1 <= |VarintBytes(v)| <= n
  {
    Pow2Seven();
    if v >= 0x80 {
      assert n > 1;
      Pow2Add(7, 7 * (n - 1));
      assert v / 0x80 < Pow2(7 * (n - 1));
      VarintLength(v / 0x80, n - 1);
    }
  }

  lemma TmpSuffices(v: nat, w: Width)
    requires v < Pow2(w.Bits())
    ensures 1 <= |VarintBytes(v)| <= w.TmpSize()
  {
    Pow2Monotone(w.Bits(), 7 * w.TmpSize());
    VarintLength(v, w.TmpSize());
  }

  lemma MaskByte(v: nat)
    ensures And(v, 0x7F) == v % 0x80
    ensures Or(v % 0x80, 0x80) == v % 0x80 + 0x80
    ensures ShiftRight(v, 7) == v / 0x80
  {
    Pow2Seven();
    AndMask(v, 7);
    OrDisjoint(v % 0x80, 1, 7);
  }

  /** The encoding loop of `writeUint32` and `writeUint64`: `tmp` is large enough for every word,
      and the bytes handed to `write` are the encoding. */
  method Encode(value: nat, w: Width) returns (tmp: array<Byte>, i: nat)
    requires value < Pow2(w.Bits())
    ensures tmp.Length == (match w case V32 => 5 case V64 => 10) && i <= tmp.Length
    ensures tmp[..i] == VarintBytes(value)
  {
    hide VarintBytes, Or, And, ShiftRight, Pow2;
    tmp := new Byte[w.TmpSize()];
    i := 0;
    var v := value;
    TmpSuffices(value, w);
    while v >= 0x80
      invariant i + |VarintBytes(v)| <= tmp.Length
      invariant tmp[..i] + VarintBytes(v) == VarintBytes(value)
      decreases v
    {
      EncodeTurn(v);
      ghost var done := tmp[..i];
      tmp[i] := Or(And(v, 0x7F), 0x80);
      i := i + 1;
      assert tmp[..i] == done + [Or(And(v, 0x7F), 0x80)];
      v := ShiftRight(v, 7);
    }
    LastByte(v);
    ghost var done := tmp[..i];
    tmp[i] := v;
    i := i + 1;
    assert tmp[..i] == done + VarintBytes(v);
  }

  lemma EncodeTurn(v: nat)
    requires v >= 0x80
    ensures Or(And(v, 0x7F), 0x80) < 0x100 && ShiftRight(v, 7) < v
    ensures VarintBytes(v) == [Or(And(v, 0x7F), 0x80)] + VarintBytes(ShiftRight(v, 7))
  {
    MaskByte(v);
    VarintUnfold(v);
    hide VarintBytes, Or, And, ShiftRight;
  }

  lemma LastByte(v: nat)
    requires v < 0x80
    ensures VarintBytes(v) == [v]
  {
  }

  // ----- decoding -----

  /** The decoding loop of `readUint32` and `readUint64` from shift `i` on: at most the bytes with
      `i < bits` are read, each payload is shifted and truncated to the word, and a byte below 0x80
      ends the loop. */
  function ReadLoop(s: seq<Byte>, i: nat, result: nat, w: Width): (r: Decoded<nat>)
    decreases w.Bits() - i
  {
    if i >= w.Bits() then Ok(result, 0)
    else if s == [] then Short(0)
    else if s[0] < 0x80 then Ok(Or(result, Unsigned(ShiftLeft(s[0], i), w.Bits())), 1)
    else
      Later(ReadLoop(s[1..], i + 7, Or(result, Unsigned(ShiftLeft(And(s[0], 0x7F), i), w.Bits())), w))
  }

  lemma {:induction false} ReadLoopConsumes(s: seq<Byte>, i: nat, result: nat, w: Width)
    ensures var r := ReadLoop(s, i, result, w);
            r.consumed <= |s| && (r.Short? ==> r.consumed == |s|)
    decreases |s|
  {
    if i < w.Bits() && s != [] && s[0] >= 0x80 {
      ReadLoopConsumes(s[1..], i + 7, Or(result, Unsigned(ShiftLeft(And(s[0], 0x7F), i), w.Bits())), w);
    }
  }

  /** `readUint32` and `readUint64`: a stream that runs out has been consumed whole. */
  function ReadVarint(s: seq<Byte>, w: Width): (r: Decoded<nat>)
    ensures r.consumed <= |s|
    ensures r.Short? ==> r.consumed == |s|
  {
    ReadLoopConsumes(s, 0, 0, w);
    ReadLoop(s, 0, 0, w)
  }

  /** Shifting a payload to bit `i` of a word drops its bits from `bits - i` on. */
  lemma ShiftedPayload(b: nat, i: nat, bits: nat)
    requires i < bits
    ensures Unsigned(ShiftLeft(b, i), bits) == b % Pow2(bits - i) * Pow2(i)
  {
    Pow2Add(i, bits - i);
    ModScale(b, Pow2(bits - i), Pow2(i));
  }

  lemma PayloadBound(result: nat, h: nat, i: nat, k: nat)
    requires result < Pow2(i) && h < Pow2(k)
    ensures result + h * Pow2(i) < Pow2(i + k)
  {
    Pow2Add(k, i);
    DigitBound(result, h, Pow2(i), Pow2(k));
  }

  lemma ModOfSmaller(b: nat, q: nat, n: nat)
    requires q > 0 && b < n
    ensures b % q < q && b % q < n && (b < q ==> b % q == b)
  {
    Small(b % q, q);
    if b >= q {
      assert b % q < q;
    }
  }

  /** One turn of the loop adds the payload at bit `i` and stays below bit `i + 7`. */
  lemma AddPayload(result: nat, b: nat, i: nat, bits: nat)
    requires i < bits && result < Pow2(i) && b < 0x80
    ensures var r := Or(result, Unsigned(ShiftLeft(b, i), bits));
            && r < Pow2(bits) && r < Pow2(i + 7)
            && (b < Pow2(bits - i) ==> r == result + b * Pow2(i))
  {
    var h := b % Pow2(bits - i);
    ShiftedPayload(b, i, bits);
    OrDisjoint(result, h, i);
    ModOfSmaller(b, Pow2(bits - i), 0x80);
    Pow2Seven();
    PayloadBound(result, h, i, bits - i);
    PayloadBound(result, h, i, 7);
  }

  lemma DigitBound(r: nat, h: nat, p: nat, q: nat)
    requires r < p && h < q
    ensures r + h * p < q * p
  {
    MulMonotone(h + 1, q, p);
  }

  /** `(b * p) % (p * q) == (b % q) * p`. */
  lemma ModScale(b: nat, q: nat, p: nat)
    requires p > 0 && q > 0
    ensures (b * p) % (p * q) == (b % q) * p
    ensures b < q ==> b % q == b
  {
    var d, h := b / q, b % q;
    ScaleSplit(b, d, h, q, p);
    DigitBound(0, h, p, q);
    assert h * p < p * q;
    DivModUnique(b * p, p * q, d, h * p);
  }

  lemma ScaleSplit(b: nat, d: nat, h: nat, q: nat, p: nat)
    requires b == d * q + h
    ensures b * p == d * (p * q) + h * p
  {
    assert b * p == (d * q) * p + h * p;
    assert (d * q) * p == d * (p * q);
  }

  /** Every word is read back from its encoding, whatever bytes follow. */
  lemma {:induction false} ReadLoopInverts(v: nat, i: nat, result: nat, w: Width, rest: seq<Byte>)
    requires i < w.Bits() && result < Pow2(i) && v < Pow2(w.Bits() - i)
    ensures ReadLoop(VarintBytes(v) + rest, i, result, w) == Ok(result + v * Pow2(i), |VarintBytes(v)|)
    decreases v
  {
    hide VarintBytes, ReadLoop, Or, And, Unsigned, ShiftLeft;
    var s := VarintBytes(v) + rest;
    var low := v % 0x80;
    var next := Or(result, Unsigned(ShiftLeft(low, i), w.Bits()));
    AddPayload(result, low, i, w.Bits());
    FirstByte(v, rest);
    ReadLoopStep(s, i, result, next, w);
    if v >= 0x80 {
      HighPart(v, i, w.Bits());
      ReadLoopInverts(v / 0x80, i + 7, next, w, rest);
    }
  }

  lemma FirstByte(v: nat, rest: seq<Byte>)
    ensures var s := VarintBytes(v) + rest;
            && s[0] % 0x80 == v % 0x80 && (s[0] < 0x80 <==> v < 0x80)
            && (if v < 0x80 then |VarintBytes(v)| == 1
                else s[1..] == VarintBytes(v / 0x80) + rest && |VarintBytes(v)| == 1 + |VarintBytes(v / 0x80)|)
  {
    VarintUnfold(v);
    hide VarintBytes;
    if v >= 0x80 {
      ConsTail(v % 0x80 + 0x80, VarintBytes(v / 0x80), rest);
    }
  }

  lemma VarintUnfold(v: nat)
    ensures VarintBytes(v) == if v < 0x80 then [v] else [v % 0x80 + 0x80] + VarintBytes(v / 0x80)
    ensures v >= 0x80 ==> v % 0x80 < 0x80 && (v % 0x80 + 0x80) % 0x80 == v % 0x80
  {
  }

  lemma ConsTail(b: Byte, s: seq<Byte>, rest: seq<Byte>)
    ensures ([b] + s + rest)[0] == b && ([b] + s + rest)[1..] == s + rest
  {
  }

  /** A word with more than seven bits left leaves a shorter word for the next turn. */
  lemma HighPart(v: nat, i: nat, bits: nat)
    requires i < bits && 0x80 <= v < Pow2(bits - i)
    ensures bits - i > 7 && v % 0x80 < Pow2(bits - i) && v / 0x80 < Pow2(bits - i - 7)
    ensures v * Pow2(i) == v % 0x80 * Pow2(i) + v / 0x80 * Pow2(i + 7)
  {
    Pow2Seven();
    if bits - i <= 7 {
      Pow2Monotone(bits - i, 7);
    }
    Pow2Add(7, bits - i - 7);
    Pow2Add(7, i);
    ScaleSplit(v, v / 0x80, v % 0x80, 0x80, Pow2(i));
  }

  lemma ReadVarintInverts(v: nat, w: Width, rest: seq<Byte>)
    requires v < Pow2(w.Bits())
    ensures ReadVarint(VarintBytes(v) + rest, w) == Ok(v, |VarintBytes(v)|)
  {
    ReadLoopInverts(v, 0, 0, w, rest);
  }

  /** A read after `k` earlier bytes yields a word, and never from fewer bytes than the encoding of
      that word needs. */
  lemma {:induction false} ReadLoopBound(s: seq<Byte>, i: nat, k: nat, result: nat, w: Width)
    requires i == 7 * k && result < Pow2(i) && result < Pow2(w.Bits()) && k <= w.TmpSize()
    ensures BoundedRead(ReadLoop(s, i, result, w), k, w)
    decreases w.TmpSize() - k
  {
    hide And, Or, Unsigned, ShiftLeft, VarintBytes, ReadLoop;
    if i >= w.Bits() {
      VarintLength(result, k);
      ReadLoopEnds(s, i, result, w);
    } else if s == [] {
      ReadLoopEnds(s, i, result, w);
    } else {
      var b := s[0] % 0x80;
      var next := Or(result, Unsigned(ShiftLeft(b, i), w.Bits()));
      AddPayload(result, b, i, w.Bits());
      ReadLoopStep(s, i, result, next, w);
      if s[0] < 0x80 {
        VarintLength(next, k + 1);
      } else {
        ReadLoopBound(s[1..], i + 7, k + 1, next, w);
      }
    }
  }

  lemma ReadLoopEnds(s: seq<Byte>, i: nat, result: nat, w: Width)
    ensures i >= w.Bits() ==> ReadLoop(s, i, result, w) == Ok(result, 0)
    ensures i < w.Bits() && s == [] ==> ReadLoop(s, i, result, w) == Short(0)
  {
  }

  /** One turn of the decoding loop, with its mask read as a remainder. */
  lemma ReadLoopStep(s: seq<Byte>, i: nat, result: nat, next: nat, w: Width)
    requires i < w.Bits() && s != []
    requires next == Or(result, Unsigned(ShiftLeft(s[0] % 0x80, i), w.Bits()))
    ensures s[0] < 0x80 ==> ReadLoop(s, i, result, w) == Ok(next, 1)
    ensures s[0] >= 0x80 ==> ReadLoop(s, i, result, w) == Later(ReadLoop(s[1..], i + 7, next, w))
  {
    MaskByte(s[0]);
    LowByte(s[0]);
    ReadLoopTurn(s, i, result, w);
    hide And, Or, Unsigned, ShiftLeft, ShiftRight, ReadLoop, Later;
  }

  lemma LowByte(b: Byte)
    ensures b < 0x80 ==> b % 0x80 == b
  {
  }

  lemma ReadLoopTurn(s: seq<Byte>, i: nat, result: nat, w: Width)
    requires i < w.Bits() && s != []
    ensures s[0] < 0x80 ==> ReadLoop(s, i, result, w) == Ok(Or(result, Unsigned(ShiftLeft(s[0], i), w.Bits())), 1)
    ensures s[0] >= 0x80 ==>
              ReadLoop(s, i, result, w)
              == Later(ReadLoop(s[1..], i + 7, Or(result, Unsigned(ShiftLeft(And(s[0], 0x7F), i), w.Bits())), w))
  {
    hide And, Or, Unsigned, ShiftLeft, ShiftRight;
  }

  /** A result after one more byte. */
  function Later(r: Decoded<nat>): Decoded<nat> {
    match r
    case Ok(v, c) => Ok(v, c + 1)
    case Short(c) => Short(c + 1)
  }

  ghost predicate BoundedRead(r: Decoded<nat>, k: nat, w: Width) {
    r.Ok? ==> 1 <= |VarintBytes(r.value)| <= k + r.consumed && r.value < Pow2(w.Bits())
  }

  /** Encodings are shortest: no byte string that reads as `v` is shorter than `VarintBytes(v)`. */
  lemma EncodingIsShortest(s: seq<Byte>, w: Width)
    ensures var r := ReadVarint(s, w);
            r.Ok? ==> r.value < Pow2(w.Bits()) && 1 <= |VarintBytes(r.value)| <= r.consumed
  {
    ReadLoopBound(s, 0, 0, 0, w);
  }

  // ----- zigzag -----

  /** `EncodeZigzag32` and `EncodeZigzag64`: the negation, the doubling and the decrement wrap. */
  function EncodeZigzag(v: int, w: Width): nat {
    var bits := w.Bits();
    if v < 0 then Unsigned(Unsigned(-v, bits) * 2 - 1, bits)
    else Unsigned(v * 2, bits)
  }

  /** `DecodeZigzag32` and `DecodeZigzag64`: `(u >> 1) ^ -(u & 1)`, converted to the signed type. */
  function DecodeZigzag(u: nat, w: Width): int {
    var bits := w.Bits();
    Signed(Unsigned(Xor(ShiftRight(u, 1), Unsigned(0 - And(u, 1), bits)), bits), bits)
  }

  /** Zigzag order: 0, -1, 1, -2, 2, ... including the minimum value, where `-v` wraps. */
  lemma EncodeZigzagMeaning(v: int, w: Width)
    requires IsSigned(v, w.Bits())
    ensures EncodeZigzag(v, w) == (if v < 0 then -2 * v - 1 else 2 * v) < Pow2(w.Bits())
  {
    var p := Pow2(w.Bits());
    assert p == 2 * Pow2(w.Bits() - 1);
    if v < 0 {
      DivModUnique(-v, p, 0, -v);
      DivModUnique(-v * 2 - 1, p, 0, -v * 2 - 1);
    } else {
      DivModUnique(v * 2, p, 0, v * 2);
    }
  }

  lemma DecodeZigzagMeaning(u: nat, w: Width)
    requires u < Pow2(w.Bits())
    ensures DecodeZigzag(u, w) == (if u % 2 == 1 then -(u / 2) - 1 else u / 2)
  {
    var bits, h := w.Bits(), u / 2;
    var p := Pow2(bits);
    OddMask(bits);
    LowBit(u);
    hide And, Xor, ShiftRight, Pow2;
    if u % 2 == 1 {
      MinusOne(p);
      XorOnes(h, bits);
      Small(p - 1 - h, p);
      assert DecodeZigzag(u, w) == Signed(p - 1 - h, bits);
    } else {
      Small(0, p);
      Small(h, p);
      XorZero(h);
      assert DecodeZigzag(u, w) == Signed(h, bits);
    }
    assert h < Pow2(bits - 1);
  }

  lemma LowBit(u: nat)
    ensures ShiftRight(u, 1) == u / 2 && And(u, 1) == u % 2
  {
    assert Pow2(1) == 2;
    AndMask(u, 1);
  }

  lemma XorZero(h: nat)
    ensures Xor(h, 0) == h
  {
  }

  lemma Small(x: nat, p: nat)
    requires x < p
    ensures x % p == x
  {
  }

  lemma MinusOne(p: nat)
    requires p > 0
    ensures -1 % p == p - 1
  {
    DivModUnique(-1, p, -1, p - 1);
  }

  /** Zigzag is a bijection between the signed and the unsigned words of either width. */
  lemma ZigzagBijection(v: int, u: nat, w: Width)
    requires IsSigned(v, w.Bits()) && u < Pow2(w.Bits())
    ensures EncodeZigzag(v, w) < Pow2(w.Bits()) && DecodeZigzag(EncodeZigzag(v, w), w) == v
    ensures IsSigned(DecodeZigzag(u, w), w.Bits()) && EncodeZigzag(DecodeZigzag(u, w), w) == u
  {
    hide EncodeZigzag, DecodeZigzag;
    EncodeZigzagMeaning(v, w);
    DecodeZigzagMeaning(EncodeZigzag(v, w), w);
    UnfoldZigzag(v);
    DecodeZigzagMeaning(u, w);
    FoldedInRange(u, w);
    EncodeZigzagMeaning(DecodeZigzag(u, w), w);
  }

  lemma UnfoldZigzag(v: int)
    ensures var e := if v < 0 then -2 * v - 1 else 2 * v;
            (if e % 2 == 1 then -(e / 2) - 1 else e / 2) == v
  {
  }

  lemma FoldedInRange(u: nat, w: Width)
    requires u < Pow2(w.Bits())
    ensures var v := if u % 2 == 1 then -(u / 2) - 1 else u / 2;
            IsSigned(v, w.Bits()) && (if v < 0 then -2 * v - 1 else 2 * v) == u
  {
    assert Pow2(w.Bits()) == 2 * Pow2(w.Bits() - 1);
  }
}
