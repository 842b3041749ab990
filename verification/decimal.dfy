/** Parsing a retry hint as Rust's `usize::from_str` does on a 64-bit target:
    an optional leading `+`, then one or more ASCII digits and nothing else
    (no sign `-`, no surrounding whitespace), with a value below 2^64. */
module Decimal {
  import opened Wrappers
  import opened SoapTypes

  predicate IsDigit(c: char) {
    '0' <= c <= '9'
  }

  predicate AllDigits(s: string) {
    forall i :: 0 <= i < |s| ==> IsDigit(s[i])
  }

  function DigitValue(c: char): nat
    requires IsDigit(c)
  {
    c as int - '0' as int
  }

  /** The number a string of decimal digits denotes, most significant first. */
  function DigitsValue(s: string): nat
    requires AllDigits(s)
  {
    if |s| == 0 then 0 else DigitsValue(s[..|s| - 1]) * 10 + DigitValue(s[|s| - 1])
  }

  /** The digits after an optional leading `+`. */
  function Unsigned(s: string): string {
    if |s| > 0 && s[0] == '+' then s[1..] else s
  }

  /** `Some(v)` exactly when `s` is a well-formed unsigned decimal whose value
      `v` fits in a `usize`. */
  function ParseUsize(s: string): (r: Option<Usize>)
    ensures r.Some? ==> |Unsigned(s)| > 0 && AllDigits(Unsigned(s)) && r.value == DigitsValue(Unsigned(s))
    ensures r.None? ==> |Unsigned(s)| == 0 || !AllDigits(Unsigned(s)) || DigitsValue(Unsigned(s)) >= USIZE_LIMIT
  {
    var digits := Unsigned(s);
    if |digits| == 0 || !AllDigits(digits) then None
    else if DigitsValue(digits) < USIZE_LIMIT then Some(DigitsValue(digits))
    else None
  }

  function DigitChar(d: nat): (c: char)
    requires d < 10
    ensures IsDigit(c) && DigitValue(c) == d
  {
    ('0' as int + d) as char
  }

  /** The shortest decimal spelling of `n`. */
  function ShowNat(n: nat): (s: string)
    ensures |s| > 0 && AllDigits(s)
  {
    if n < 10 then [DigitChar(n)] else ShowNat(n / 10) + [DigitChar(n % 10)]
  }

  lemma {:induction false} ShowNatValue(n: nat)
    ensures DigitsValue(ShowNat(n)) == n
  {
    if n >= 10 {
      var s := ShowNat(n);
      assert s[..|s| - 1] == ShowNat(n / 10);
      ShowNatValue(n / 10);
    } else {
      var s := ShowNat(n);
      assert s[..|s| - 1] == [];
    }
  }

  /** Parsing the decimal spelling of any `usize` gives it back, with or
      without a leading `+`. */
  lemma ParseShowNat(n: Usize)
    ensures ParseUsize(ShowNat(n)) == Some(n)
    ensures ParseUsize("+" + ShowNat(n)) == Some(n)
  {
    ShowNatValue(n);
    var s := ShowNat(n);
    assert s[0] != '+';
    assert ("+" + s)[1..] == s;
  }

  /** A value of 2^64 or more is rejected, as an overflowing `usize` is. */
  lemma ParseRejectsOverflow(n: nat)
    requires n >= USIZE_LIMIT
    ensures ParseUsize(ShowNat(n)) == None
  {
    ShowNatValue(n);
    assert ShowNat(n)[0] != '+';
  }

  /** Whitespace around the digits is not trimmed: the hint is then rejected. */
  lemma ParseRejectsPadding(s: string)
    ensures ParseUsize(" " + s) == None
    ensures ParseUsize(s + " ") == None
  {
    var padded := s + " ";
    if |Unsigned(padded)| > 0 {
      assert Unsigned(padded)[|Unsigned(padded)| - 1] == ' ';
    }
    assert Unsigned(" " + s) == " " + s;
    assert !IsDigit((" " + s)[0]);
  }
}
