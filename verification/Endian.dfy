/** Byte order (`easy/net/Endian.h`) and the fixed-width integers of `easy/net/Buffer.cc`: a value is
    swapped when the buffer's order differs from the host's, then copied with the host's layout. */
module Endian {
  import opened Bits

  datatype Order = Little | Big

  /** The `n` low bytes of `v`, least significant first. */
  function LittleBytes(v: nat, n: nat): (s: seq<Byte>)
    ensures |s| == n
  {
    if n == 0 then [] else [v % 0x100] + LittleBytes(v / 0x100, n - 1)
  }

  function LittleValue(s: seq<Byte>): nat {
    if s == [] then 0 else s[0] + 0x100 * LittleValue(s[1..])
  }

  function Reverse(s: seq<Byte>): (r: seq<Byte>)
    ensures |r| == |s|
    ensures forall i :: 0 <= i < |s| ==> r[i] == s[|s| - 1 - i]
  {
    seq(|s|, i requires 0 <= i < |s| => s[|s| - 1 - i])
  }

  /** The bytes of an `n`-byte integer in the memory of a host. */
  function InMemory(v: nat, n: nat, host: Order): (s: seq<Byte>)
    ensures |s| == n
  {
    if host == Little then LittleBytes(v, n) else Reverse(LittleBytes(v, n))
  }

  function FromMemory(s: seq<Byte>, host: Order): nat {
    LittleValue(if host == Little then s else Reverse(s))
  }

  function Byteswap(v: nat, n: nat): nat {
    LittleValue(Reverse(LittleBytes(v, n)))
  }

  /** The bytes that `writeF...` hands to `write`; the one-byte forms have no swap. */
  function FixedBytes(v: nat, n: nat, order: Order, host: Order): (s: seq<Byte>)
    ensures |s| == n
  {
    InMemory(if n > 1 && order != host then Byteswap(v, n) else v, n, host)
  }

  /** What `readF...` makes of the bytes it was given. */
  function FixedValue(s: seq<Byte>, order: Order, host: Order): nat {
    var v := FromMemory(s, host);
    if |s| > 1 && order != host then Byteswap(v, |s|) else v
  }

  lemma {:induction false} LittleRoundTrip(v: nat, n: nat)
    requires v < Pow2(8 * n)
    ensures LittleValue(LittleBytes(v, n)) == v
  {
    if n > 0 {
      Pow2Seven();
      Pow2Add(8, 8 * (n - 1));
      LittleRoundTrip(v / 0x100, n - 1);
      assert LittleBytes(v, n)[1..] == LittleBytes(v / 0x100, n - 1);
    }
  }

  lemma {:induction false} LittleInverse(s: seq<Byte>)
    ensures LittleValue(s) < Pow2(8 * |s|)
    ensures LittleBytes(LittleValue(s), |s|) == s
  {
    if s != [] {
      Pow2Seven();
      Pow2Add(8, 8 * (|s| - 1));
      LittleInverse(s[1..]);
      var v := LittleValue(s);
      assert v % 0x100 == s[0] && v / 0x100 == LittleValue(s[1..]);
    }
  }

  lemma ReverseTwice(s: seq<Byte>)
    ensures Reverse(Reverse(s)) == s
  {
  }

  /** The stream holds the value in the buffer's byte order, on a host of either order. */
  lemma FixedBytesOrder(v: nat, n: nat, order: Order, host: Order)
    requires v < Pow2(8 * n)
    ensures FixedBytes(v, n, order, host)
         == if order == Little then LittleBytes(v, n) else Reverse(LittleBytes(v, n))
  {
    var s := LittleBytes(v, n);
    if n > 1 && order != host {
      LittleInverse(Reverse(s));
      assert LittleBytes(Byteswap(v, n), n) == Reverse(s);
      ReverseTwice(s);
    } else if n <= 1 {
      assert Reverse(s) == s;
    }
  }

  /** Reading interprets the stream in the buffer's byte order, on a host of either order. */
  lemma FixedValueOrder(s: seq<Byte>, order: Order, host: Order)
    ensures FixedValue(s, order, host) == LittleValue(if order == Little then s else Reverse(s))
  {
    hide LittleValue, LittleBytes, Pow2;
    if |s| <= 1 {
      assert Reverse(s) == s;
    } else if order != host {
      var t := if host == Little then s else Reverse(s);
      LittleInverse(t);
      ReverseTwice(s);
    }
  }

  /** A value is read back on any host from the bytes any host wrote. */
  lemma FixedRoundTrip(v: nat, n: nat, order: Order, writer: Order, reader: Order)
    requires v < Pow2(8 * n)
    ensures FixedValue(FixedBytes(v, n, order, writer), order, reader) == v
  {
    FixedBytesOrder(v, n, order, writer);
    FixedValueOrder(FixedBytes(v, n, order, writer), order, reader);
    ReverseTwice(LittleBytes(v, n));
    LittleRoundTrip(v, n);
  }

  lemma FixedValueBound(s: seq<Byte>, order: Order, host: Order)
    ensures FixedValue(s, order, host) < Pow2(8 * |s|)
  {
    FixedValueOrder(s, order, host);
    LittleInverse(if order == Little then s else Reverse(s));
  }
}
