/** Bitwise operators and fixed-width wrap-around on natural numbers, as the
    C++ sources use them on `uint8_t`, `uint32_t` and `uint64_t`. */
module Bits {

  type Byte = b: nat | b < 0x100

  function Pow2(k: nat): (p: nat)
    ensures p >= 1
  {
    if k == 0 then 1 else 2 * Pow2(k - 1)
  }

  function And(a: nat, b: nat): nat
    decreases a
  {
    if a == 0 || b == 0 then 0
    else (if a % 2 == 1 && b % 2 == 1 then 1 else 0) + 2 * And(a / 2, b / 2)
  }

  function Or(a: nat, b: nat): nat
    decreases a + b
  {
    if a == 0 then b
    else if b == 0 then a
    else (if a % 2 == 1 || b % 2 == 1 then 1 else 0) + 2 * Or(a / 2, b / 2)
  }

  function Xor(a: nat, b: nat): nat
    decreases a + b
  {
    if a == 0 then b
    else if b == 0 then a
    else (if a % 2 == b % 2 then 0 else 1) + 2 * Xor(a / 2, b / 2)
  }

  function ShiftLeft(a: nat, k: nat): nat {
    a * Pow2(k)
  }

  function ShiftRight(a: nat, k: nat): nat {
    Divide(a, Pow2(k));
    a / Pow2(k)
  }

  /** Conversion of any integer to an unsigned word of `bits` bits. */
  function Unsigned(v: int, bits: nat): (u: nat)
    ensures u < Pow2(bits)
  {
    v % Pow2(bits)
  }

  /** Reading an unsigned word of `bits` bits as a two's complement number. */
  function Signed(u: nat, bits: nat): int
    requires bits > 0 && u < Pow2(bits)
  {
    if u < Pow2(bits - 1) then u else u - Pow2(bits)
  }

  predicate IsSigned(v: int, bits: nat)
    requires bits > 0
  {
    0 - Pow2(bits - 1) <= v < Pow2(bits - 1)
  }

  // ----- powers of two -----

  lemma {:induction false} Pow2Add(a: nat, b: nat)
    ensures Pow2(a + b) == Pow2(a) * Pow2(b)
  {
    if a > 0 {
      Pow2Add(a - 1, b);
      assert Pow2(a + b) == 2 * Pow2(a - 1 + b);
    }
  }

  lemma {:induction false} Pow2Monotone(a: nat, b: nat)
    requires a <= b
    ensures Pow2(a) <= Pow2(b)
  {
    if a < b {
      Pow2Monotone(a, b - 1);
    }
  }

  lemma Pow2Seven()
    ensures Pow2(7) == 128 && Pow2(8) == 256
  {
    assert Pow2(4) == 16;
  }

  /** The sizes of the machine words. */
  lemma WordSizes()
    ensures Pow2(7) == 0x80 && Pow2(8) == 0x100
    ensures Pow2(15) == 0x8000 && Pow2(16) == 0x1_0000
    ensures Pow2(31) == 0x8000_0000 && Pow2(32) == 0x1_0000_0000
    ensures Pow2(63) == 0x8000_0000_0000_0000 && Pow2(64) == 0x1_0000_0000_0000_0000
  {
    Pow2Seven();
    hide Pow2;
    Pow2Add(7, 8);
    Pow2Add(8, 8);
    Pow2Add(15, 16);
    Pow2Add(16, 16);
    Pow2Add(31, 32);
    Pow2Add(32, 32);
  }

  lemma MulMonotone(a: int, b: int, d: nat)
    requires a <= b
    ensures a * d <= b * d
  {
  }

  lemma Divide(a: nat, d: nat)
    requires d > 0
    ensures 0 <= a / d && 0 <= a % d < d && a == a / d * d + a % d
  {
    var q := a / d;
    assert a == q * d + a % d;
    if q < 0 {
      MulMonotone(q, -1, d);
    }
  }

  lemma DivModUnique(x: int, d: int, q: int, r: int)
    requires 0 <= r < d && x == q * d + r
    ensures x / d == q && x % d == r
  {
    var q' := x / d;
    assert x == q' * d + x % d;
    if q < q' {
      MulMonotone(q + 1, q', d);
    } else if q' < q {
      MulMonotone(q' + 1, q, d);
    }
  }

  // ----- what the operators mean arithmetically -----

  /** Masking with `2^k - 1` is the remainder modulo `2^k`. */
  lemma {:induction false} AndMask(a: nat, k: nat)
    ensures And(a, Pow2(k) - 1) == a % Pow2(k)
    decreases k
  {
    if a == 0 {
      Divide(0, Pow2(k));
    } else if k > 0 {
      OddMask(k);
      AndOdd(a, Pow2(k) - 1);
      AndMask(a / 2, k - 1);
      ModDouble(a, Pow2(k - 1));
    }
  }

  lemma AndOdd(a: nat, m: nat)
    requires a > 0 && m % 2 == 1
    ensures And(a, m) == a % 2 + 2 * And(a / 2, m / 2)
  {
  }

  lemma OddMask(k: nat)
    requires k > 0
    ensures Pow2(k) - 1 > 0 && (Pow2(k) - 1) % 2 == 1 && (Pow2(k) - 1) / 2 == Pow2(k - 1) - 1
  {
  }

  lemma ModDouble(a: nat, p: nat)
    requires p > 0
    ensures a % (2 * p) == a % 2 + 2 * (a / 2 % p)
  {
    var q, r := a / 2 / p, a / 2 % p;
    Divide(a / 2, p);
    assert q * (2 * p) == 2 * (q * p);
    DivModUnique(a, 2 * p, q, 2 * r + a % 2);
  }

  /** Words without a common bit: `|` is `+`. */
  lemma {:induction false} OrDisjoint(a: nat, b: nat, k: nat)
    requires a < Pow2(k)
    ensures Or(a, b * Pow2(k)) == a + b * Pow2(k)
    decreases k
  {
    if k > 0 {
      DoubleProduct(b, k);
      var h := b * Pow2(k - 1);
      if a != 0 && h != 0 {
        OrDisjoint(a / 2, b, k - 1);
      }
    }
  }

  lemma DoubleProduct(b: nat, k: nat)
    requires k > 0
    ensures b * Pow2(k) == 2 * (b * Pow2(k - 1))
  {
  }

  /** Exclusive or with a word of ones complements the word. */
  lemma {:induction false} XorOnes(a: nat, k: nat)
    requires a < Pow2(k)
    ensures Xor(a, Pow2(k) - 1) == Pow2(k) - 1 - a
    decreases k
  {
    if k > 0 && a != 0 {
      OddMask(k);
      XorOdd(a, Pow2(k) - 1);
      XorOnes(a / 2, k - 1);
    }
  }

  lemma XorOdd(a: nat, m: nat)
    requires a > 0 && m % 2 == 1
    ensures Xor(a, m) == 1 - a % 2 + 2 * Xor(a / 2, m / 2)
  {
  }

  /** Two's complement and its unsigned form are inverse to each other. */
  lemma SignedUnsigned(v: int, bits: nat)
    requires bits > 0 && IsSigned(v, bits)
    ensures Signed(Unsigned(v, bits), bits) == v
  {
    var p := Pow2(bits);
    if v >= 0 {
      DivModUnique(v, p, 0, v);
    } else {
      DivModUnique(v, p, -1, v + p);
    }
  }

  lemma UnsignedSigned(u: nat, bits: nat)
    requires bits > 0 && u < Pow2(bits)
    ensures IsSigned(Signed(u, bits), bits)
    ensures Unsigned(Signed(u, bits), bits) == u
  {
    var p := Pow2(bits);
    if u < Pow2(bits - 1) {
      DivModUnique(u, p, 0, u);
    } else {
      DivModUnique(u - p, p, -1, u);
    }
  }
}
