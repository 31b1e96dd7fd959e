/** Decimal text: what `fmt.Sprintf("%d", n)` prints, how it reads back, and the
    buffer-filling `itoa` of pkg/rules/samples_commit.go (`intToStr` of
    pkg/config/precedence.go is the same code). */
module Decimal {
  import opened Text

  predicate IsDigit(c: char) {
    '0' <= c <= '9'
  }

  function DigitChar(d: nat): char
    requires d < 10
  {
    ('0' as int + d) as char
  }

  function NatText(n: nat): (s: string)
    ensures s != [] && forall c | c in s :: IsDigit(c)
  {
    if n < 10 then [DigitChar(n)] else NatText(n / 10) + [DigitChar(n % 10)]
  }

  function IntText(n: int): string {
    if n < 0 then "-" + NatText(-n) else NatText(n)
  }

  /** The number a run of digits denotes. */
  function NatValue(s: string): nat
    requires forall c | c in s :: IsDigit(c)
  {
    if s == [] then 0
    else
      assert IsDigit(s[|s| - 1]);
      10 * NatValue(s[..|s| - 1]) + (s[|s| - 1] as int - '0' as int)
  }

  function IntValue(s: string): Option<int> {
    if s == [] then None
    else if s[0] == '-' then
      if |s| > 1 && forall c | c in s[1..] :: IsDigit(c) then Some(0 - NatValue(s[1..])) else None
    else if forall c | c in s :: IsDigit(c) then Some(NatValue(s))
    else None
  }

  lemma {:induction false} NatRoundTrip(n: nat)
    ensures NatValue(NatText(n)) == n
    ensures n > 0 ==> NatText(n)[0] != '0'
  {
    if n >= 10 { NatRoundTrip(n / 10); }
  }

  /** Printed integers read back, and none has a leading zero or a "-0". */
  lemma IntRoundTrip(n: int)
    ensures IntValue(IntText(n)) == Some(n)
    ensures n > 0 ==> IntText(n)[0] != '0'
    ensures n < 0 ==> IntText(n)[0] == '-' && IntText(n)[1] != '0'
  {
    NatRoundTrip(if n < 0 then -n else n);
    if n < 0 {
      assert IntText(n)[1..] == NatText(-n);
    } else {
      assert NatText(n)[0] in NatText(n);
    }
  }

  lemma {:induction false} NatTextLength(n: nat, k: nat)
    requires n < Pow10(k) && k > 0
    ensures |NatText(n)| <= k
  {
    if n >= 10 { NatTextLength(n / 10, k - 1); }
  }

  function Pow10(k: nat): nat {
    if k == 0 then 1 else 10 * Pow10(k - 1)
  }

  /** Where the run of digits that starts at i ends. */
  function DigitsEnd(s: string, i: nat): (r: nat)
    requires i <= |s|
    ensures i <= r <= |s| && (forall k | i <= k < r :: IsDigit(s[k])) && (r < |s| ==> !IsDigit(s[r]))
    decreases |s| - i
  {
    if i < |s| && IsDigit(s[i]) then DigitsEnd(s, i + 1) else i
  }

  lemma DigitsEndIs(s: string, i: nat, r: nat)
    requires i <= r <= |s| && (forall k | i <= k < r :: IsDigit(s[k])) && (r < |s| ==> !IsDigit(s[r]))
    ensures DigitsEnd(s, i) == r
  {
    hide IsDigit;
  }

  lemma BlankOrNot()
    ensures !Blank('[') && !Blank(']') && !Blank('(') && !Blank(')') && !Blank('|')
    ensures !IsDigit('[') && !IsDigit(']') && !IsDigit('(') && !IsDigit('|')
    ensures forall c :: IsDigit(c) ==> !Blank(c)
  {
  }

  /** Decimal notation: the last digit is the remainder by ten, the rest stands for the quotient. */
  lemma DigitsWritten(n: nat, d: nat)
    requires d < 10
    ensures NatText(d) == ["0123456789"[d]] && (n > 0 ==> NatText(10 * n + d) == NatText(n) + ["0123456789"[d]])
    ensures IntText(n) == NatText(n) && (n > 0 ==> IntText(0 - n) == "-" + NatText(n))
  {
    hide NatText;
    DigitWritten(d);
    LastDigit(n, d);
  }

  lemma DigitWritten(d: nat)
    requires d < 10
    ensures NatText(d) == ["0123456789"[d]] == [DigitChar(d)]
  {
  }

  lemma LastDigit(n: nat, d: nat)
    requires d < 10
    ensures n > 0 ==> NatText(10 * n + d) == NatText(n) + [DigitChar(d)]
  {
  }

  // ---- itoa ----

  const MIN64: int := -0x8000_0000_0000_0000
  const MAX64: int := 0x7fff_ffff_ffff_ffff

  type int64 = n: int | MIN64 <= n <= MAX64

  /** Two's complement wrap-around of a 64-bit result. */
  function Wrap64(n: int): int64 {
    (n - MIN64) % 0x1_0000_0000_0000_0000 + MIN64
  }

  /** Two's complement: the number of the range that differs by a multiple of two to the 64th. */
  lemma WrapExactly(n: int, w: int)
    requires -9223372036854775808 <= w <= 9223372036854775807
    ensures Wrap64(n) == w <==> (n - w) % 18446744073709551616 == 0
  {
  }

  /** Every 64-bit n but the least prints as its decimal text, inside the 20-byte
      buffer; the least has no negation, and prints as a lone sign. */
  method Itoa(n: int64) returns (r: string)
    ensures r == if n == MIN64 then "-" else IntText(n)
  {
    hide Pending, Wrap64;
    if n == 0 {
      return "0";
    }
    var neg, m: int := false, n;
    Negations(n);
    if m < 0 {
      neg := true;
      m := Wrap64(-m);
    }
    var buf := new char[20];
    var i := buf.Length;
    ghost var total := m;
    PendingBounds(m);
    while m > 0
      invariant m >= 0 || m == total
      invariant 1 + |Pending(m)| <= i <= 20
      invariant Pending(m) + buf[i..] == Pending(total)
    {
      PendingStep(m);
      i := i - 1;
      buf[i] := DigitChar(m % 10);
      assert buf[i..] == [DigitChar(m % 10)] + buf[i + 1..];
      m := m / 10;
    }
    PendingBounds(m);
    if neg {
      i := i - 1;
      buf[i] := '-';
      assert buf[i..] == ['-'] + buf[i + 1..];
    }
    return buf[i..];
  }

  /** Printing negates; only the least number is its own negation. */
  lemma Negations(n: int)
    requires MIN64 <= n <= MAX64
    ensures Wrap64(-n) == if n == MIN64 then n else -n
    ensures IntText(n) == if n == 0 then "0" else if n < 0 then "-" + Pending(-n) else Pending(n)
  {
  }

  /** The digits that the loop has still to write. */
  function Pending(m: int): string {
    if m > 0 then NatText(m) else ""
  }

  lemma PendingStep(m: nat)
    requires m > 0
    ensures Pending(m) == Pending(m / 10) + [DigitChar(m % 10)]
  {
  }

  lemma PendingBounds(m: int)
    requires m <= MAX64
    ensures |Pending(m)| <= 19
    ensures m <= 0 ==> Pending(m) == ""
  {
    assert Pow10(4) == 10_000;
    assert Pow10(8) == 10_000_0000;
    assert Pow10(12) == 1_000_000_000_000;
    assert Pow10(16) == 10_000_000_000_000_000;
    if m > 0 { NatTextLength(m, 19); }
  }
}
