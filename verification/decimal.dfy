/**
 * Decimal integers as Rust reads and prints them: `uN::from_str` (an
 * optional `+`, then one or more ASCII digits, rejected when the value does
 * not fit) and the `Display` of an unsigned integer (digits without leading
 * zeros).
 */
module Decimal {
  import opened Wrappers

  const U8_MAX: nat := 255
  const U16_MAX: nat := 65535

  predicate IsDigit(c: char) {
    '0' <= c <= '9'
  }

  predicate AllDigits(s: string) {
    forall i :: 0 <= i < |s| ==> IsDigit(s[i])
  }

  function DigitValue(c: char): nat
    requires IsDigit(c)
  {
    (c as int) - ('0' as int)
  }

  function DigitChar(d: nat): (c: char)
    requires d < 10
    ensures IsDigit(c) && DigitValue(c) == d
  {
    (('0' as int) + d) as char
  }

  /** The number a string of digits denotes, most significant digit first. */
  function Value(s: string): nat
    requires AllDigits(s)
    decreases |s|
  {
    if |s| == 0 then 0 else Value(s[..|s| - 1]) * 10 + DigitValue(s[|s| - 1])
  }

  /**
   * `from_str` for an unsigned integer type whose largest value is `max`:
   * the empty text, a lone `+`, any character other than an ASCII digit
   * after the optional `+`, and a value above `max` are all errors.
   */
  function ParseUnsigned(s: string, max: nat): (r: Option<nat>)
    ensures r.Some? ==> r.value <= max
  {
    var digits := if |s| > 0 && s[0] == '+' then s[1..] else s;
    if |digits| == 0 || !AllDigits(digits) then None
    else if Value(digits) > max then None
    else Some(Value(digits))
  }

  /** `u8::from_str`. */
  function ParseU8(s: string): (r: Option<nat>)
    ensures r.Some? ==> r.value <= U8_MAX
  {
    ParseUnsigned(s, U8_MAX)
  }

  /** `u16::from_str`. */
  function ParseU16(s: string): (r: Option<nat>)
    ensures r.Some? ==> r.value <= U16_MAX
  {
    ParseUnsigned(s, U16_MAX)
  }

  /** `NonZeroU8::from_str`: a `u8` that is not zero. */
  function ParseNonZeroU8(s: string): (r: Option<nat>)
    ensures r.Some? <==> ParseU8(s).Some? && ParseU8(s).value != 0
    ensures r.Some? ==> 1 <= r.value <= U8_MAX && r == ParseU8(s)
  {
    match ParseU8(s)
    case Some(n) => if n == 0 then None else Some(n)
    case None => None
  }

  /** `NonZeroU16::from_str`: a `u16` that is not zero. */
  function ParseNonZeroU16(s: string): (r: Option<nat>)
    ensures r.Some? <==> ParseU16(s).Some? && ParseU16(s).value != 0
    ensures r.Some? ==> 1 <= r.value <= U16_MAX && r == ParseU16(s)
  {
    match ParseU16(s)
    case Some(n) => if n == 0 then None else Some(n)
    case None => None
  }

  /** Decimal text without leading zeros: `0` alone, or digits not starting with `0`. */
  predicate Canonical(s: string) {
    |s| >= 1 && AllDigits(s) && (s[0] == '0' ==> |s| == 1)
  }

  /** The `Display` of an unsigned integer. */
  function Show(n: nat): (s: string)
    ensures Canonical(s)
    decreases n
  {
    if n < 10 then [DigitChar(n)] else Show(n / 10) + [DigitChar(n % 10)]
  }

  /** The shown digits denote the number shown. */
  lemma {:induction false} ShowValue(n: nat)
    ensures Value(Show(n)) == n
    decreases n
  {
    if n >= 10 {
      ShowValue(n / 10);
      var s := Show(n);
      assert s[..|s| - 1] == Show(n / 10);
    }
  }

  /** Printed numbers hold no markup characters. */
  lemma ShowHasNoMarkup(n: nat)
    ensures '<' !in Show(n) && '>' !in Show(n) && ' ' !in Show(n)
  {
    assert AllDigits(Show(n));
  }

  /** Printing then reading back gives the number, whenever it fits the type. */
  lemma ParseShow(n: nat, max: nat)
    requires n <= max
    ensures ParseUnsigned(Show(n), max) == Some(n)
  {
    ShowValue(n);
  }

  /** Digits that denote zero are all `0`. */
  lemma {:induction false} ValueZero(s: string)
    requires AllDigits(s) && |s| > 0 && Value(s) == 0
    ensures s[0] == '0'
    decreases |s|
  {
    if |s| > 1 {
      ValueZero(s[..|s| - 1]);
    }
  }

  /** Canonical digits are exactly what `Show` prints for the number they denote. */
  lemma {:induction false} ShowOfValue(s: string)
    requires Canonical(s)
    ensures Show(Value(s)) == s
    decreases |s|
  {
    if |s| > 1 {
      var p := s[..|s| - 1];
      assert Canonical(p);
      ShowOfValue(p);
      if Value(p) == 0 {
        ValueZero(p);
      }
      assert Value(s) >= 10;
      assert Value(s) / 10 == Value(p);
      assert s == p + [s[|s| - 1]];
    }
  }

  /**
   * Reading canonical text and printing the result gives the text back, so
   * on canonical text `Show` and `ParseUnsigned` are inverse to each other.
   */
  lemma ShowParse(s: string, max: nat)
    requires Canonical(s) && ParseUnsigned(s, max).Some?
    ensures Show(ParseUnsigned(s, max).value) == s
  {
    ShowOfValue(s);
  }
}
