/** Numbers as text: what `operator<<` prints for an unsigned integer in base 10 or 16, and a reader for
    digit strings. */
module Digits {
  import opened Bits
  import opened Options

  function DigitChar(d: nat): char
    requires d < 16
  {
    "0123456789abcdef"[d]
  }

  lemma DivideShrinks(n: nat, base: nat)
    requires 2 <= base <= n
    ensures 0 <= n / base < n && n == n / base * base + n % base && n % base < base
  {
    var q := n / base;
    Divide(n, base);
    if q >= n {
      MulMonotone(n, q, base);
      MulMonotone(2, base, n);
    }
  }

  /** No leading zeros, lower-case letters. */
  function ToText(n: nat, base: nat): (s: string)
    requires 2 <= base <= 16
    ensures |s| > 0
    ensures forall i :: 0 <= i < |s| ==> IsDigit(s[i])
  {
    if n < base then [DigitChar(n)]
    else
      DivideShrinks(n, base);
      ToText(n / base, base) + [DigitChar(n % base)]
  }

  predicate IsDigit(c: char) {
    '0' <= c <= '9' || 'a' <= c <= 'f'
  }

  function DigitValue(c: char): nat {
    if '0' <= c <= '9' then c as nat - '0' as nat
    else if 'a' <= c <= 'f' then c as nat - 'a' as nat + 10
    else if 'A' <= c <= 'F' then c as nat - 'A' as nat + 10
    else 16
  }

  /** The number a nonempty digit string stands for; letters of either case are read. */
  function FromText(s: string, base: nat): Option<nat>
    requires 2 <= base <= 16
    decreases |s|
  {
    if s == [] then None
    else
      var d := DigitValue(s[|s| - 1]);
      if d >= base then None
      else if |s| == 1 then Some(d)
      else
        match FromText(s[..|s| - 1], base)
        case None => None
        case Some(n) => Some(n * base + d)
  }

  lemma {:induction false} TextRoundTrip(n: nat, base: nat)
    requires 2 <= base <= 16
    ensures FromText(ToText(n, base), base) == Some(n)
  {
    if n >= base {
      DivideShrinks(n, base);
      TextRoundTrip(n / base, base);
      AppendDigit(ToText(n / base, base), n / base, n % base, base);
    }
  }

  lemma AppendDigit(s: string, n: nat, d: nat, base: nat)
    requires 2 <= base <= 16 && d < base && FromText(s, base) == Some(n)
    ensures FromText(s + [DigitChar(d)], base) == Some(n * base + d)
  {
    assert (s + [DigitChar(d)])[..|s|] == s;
  }

  /** No number but 0 is printed with a leading zero. */
  lemma {:induction false} NoLeadingZero(n: nat, base: nat)
    requires 2 <= base <= 16
    ensures ToText(n, base)[0] == '0' ==> n == 0 && ToText(n, base) == "0"
  {
    if n >= base {
      DivideShrinks(n, base);
      NoLeadingZero(n / base, base);
      AtLeastOne(n, base);
    }
  }

  lemma AtLeastOne(n: nat, base: nat)
    requires 2 <= base <= n
    ensures n / base >= 1
  {
    Divide(n, base);
  }

  /** So the text is the only one: lower-case digits without a leading zero that read as the number. */
  lemma {:induction false} TextIsCanonical(s: string, n: nat, base: nat)
    requires 2 <= base <= 16 && FromText(s, base) == Some(n)
    requires (forall i :: 0 <= i < |s| ==> IsDigit(s[i])) && (|s| > 1 ==> s[0] != '0')
    ensures s == ToText(n, base)
    decreases |s|
  {
    var f, d := s[..|s| - 1], DigitValue(s[|s| - 1]);
    LowerCase(s[|s| - 1]);
    if |s| > 1 {
      var m := FromText(f, base).value;
      assert f[0] == s[0];
      TextIsCanonical(f, m, base);
      assert m > 0;
      Quotient(n, m, d, base);
      assert s == f + [s[|s| - 1]];
    } else {
      assert s == [s[0]];
    }
  }

  lemma LowerCase(c: char)
    requires IsDigit(c)
    ensures DigitValue(c) < 16 && DigitChar(DigitValue(c)) == c
  {
  }

  lemma Quotient(n: nat, m: nat, d: nat, base: nat)
    requires d < base && m > 0 && n == m * base + d
    ensures n >= base && n / base == m && n % base == d
  {
    MulMonotone(1, m, base);
    DivModUnique(n, base, m, d);
  }

  /** A number below `base * base * base * base` has at most four digits. */
  lemma FourDigits(n: nat)
    requires n < 0x10000
    ensures |ToText(n, 16)| <= 4
  {
    assert n / 16 < 0x1000 && n / 16 / 16 < 0x100 && n / 16 / 16 / 16 < 16;
    assert |ToText(n / 16 / 16 / 16, 16)| == 1;
    assert |ToText(n / 16 / 16, 16)| <= 2;
    assert |ToText(n / 16, 16)| <= 3;
  }
}
