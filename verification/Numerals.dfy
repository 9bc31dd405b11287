/** Decimal numerals and runs of characters, as scanning loops find them. */
module Numerals {

  predicate IsDigit(c: char) { '0' <= c <= '9' }

  /** The length of the longest prefix whose characters all satisfy p. */
  function Span(s: string, p: char -> bool): (n: nat)
    ensures n <= |s|
    ensures forall i :: 0 <= i < n ==> p(s[i])
    ensures n < |s| ==> !p(s[n])
  {
    if s == "" || !p(s[0]) then 0 else 1 + Span(s[1..], p)
  }

  lemma SpanUnique(s: string, p: char -> bool, n: nat)
    requires n <= |s|
    requires forall i :: 0 <= i < n ==> p(s[i])
    requires n < |s| ==> !p(s[n])
    ensures Span(s, p) == n
  {
  }

  function DigitValue(c: char): nat
    requires IsDigit(c)
  {
    c as int - '0' as int
  }

  predicate Numeral(s: string) { forall i :: 0 <= i < |s| ==> IsDigit(s[i]) }

  /** The natural number a decimal numeral denotes. */
  function Value(s: string): nat
    requires Numeral(s)
  {
    if s == "" then 0 else 10 * Value(s[..|s| - 1]) + DigitValue(s[|s| - 1])
  }

  /** The value reached by feeding digits, most significant first, to a running total. */
  function Accumulate(total: nat, digits: string): nat
    requires Numeral(digits)
    decreases |digits|
  {
    if digits == "" then total else Accumulate(10 * total + DigitValue(digits[0]), digits[1..])
  }

  lemma {:induction false} AccumulateLast(total: nat, digits: string, c: char)
    requires Numeral(digits) && IsDigit(c)
    ensures Accumulate(total, digits + [c]) == 10 * Accumulate(total, digits) + DigitValue(c)
    decreases |digits|
  {
    if digits != "" {
      AccumulateLast(10 * total + DigitValue(digits[0]), digits[1..], c);
      assert (digits + [c])[1..] == digits[1..] + [c];
    }
  }

  /** Fed from zero, the running total is the numeral's value. */
  lemma {:induction false} AccumulateIsValue(digits: string)
    requires Numeral(digits)
    ensures Accumulate(0, digits) == Value(digits)
  {
    if digits != "" {
      var n := |digits| - 1;
      AccumulateIsValue(digits[..n]);
      AccumulateLast(0, digits[..n], digits[n]);
      assert digits == digits[..n] + [digits[n]];
    }
  }

  lemma {:induction false} AccumulateGrows(total: nat, digits: string)
    requires Numeral(digits)
    ensures Accumulate(total, digits) >= total
    decreases |digits|
  {
    if digits != "" { AccumulateGrows(10 * total + DigitValue(digits[0]), digits[1..]); }
  }
}
