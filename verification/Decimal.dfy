/** Decimal text: the digits std::to_string prints and the prefix std::stoll reads. */
module Decimal {
  import opened Results

  const INT64_MAX := 0x7FFF_FFFF_FFFF_FFFF
  const INT64_MIN := -0x8000_0000_0000_0000

  predicate IsDigit(c: char) { '0' <= c <= '9' }

  predicate AllDigits(s: string) { forall i :: 0 <= i < |s| ==> IsDigit(s[i]) }

  function DigitValue(c: char): nat
    requires IsDigit(c)
  {
    c as int - '0' as int
  }

  function DecimalValue(s: string): nat
    requires AllDigits(s)
  {
    if s == "" then 0 else 10 * DecimalValue(s[..|s| - 1]) + DigitValue(s[|s| - 1])
  }

  /** isspace of the C locale. */
  predicate IsSpace(c: char) { c == ' ' || '\t' <= c <= '\r' }

  function SkipSpace(s: string): string {
    if s != "" && IsSpace(s[0]) then SkipSpace(s[1..]) else s
  }

  function DigitPrefix(s: string): (d: string)
    ensures AllDigits(d)
    ensures d <= s
    ensures |d| < |s| ==> !IsDigit(s[|d|])
  {
    if s != "" && IsDigit(s[0]) then [s[0]] + DigitPrefix(s[1..]) else ""
  }

  /** The value of a sign and digits, if it fits. */
  function Fitting(negative: bool, digits: string): Option<int>
    requires AllDigits(digits)
  {
    var magnitude: int := DecimalValue(digits);
    var value := if negative then -magnitude else magnitude;
    if INT64_MIN <= value <= INT64_MAX then Some(value) else None
  }

  /** An optional sign and the longest run of digits after it. */
  function SignedNumber(t: string): Option<int> {
    var signed := t != "" && (t[0] == '-' || t[0] == '+');
    var digits := DigitPrefix(if signed then t[1..] else t);
    if digits == "" then None else Fitting(signed && t[0] == '-', digits)
  }

  /** std::stoll in base 10: white space, an optional sign, the longest run of digits; the rest is ignored. None where
      it throws: no digits, or a value outside the 64-bit range. */
  function Stoll(s: string): Option<int> {
    SignedNumber(SkipSpace(s))
  }

  lemma {:induction false} DigitPrefixOfDigits(s: string)
    requires AllDigits(s)
    ensures DigitPrefix(s) == s
  {
  }

  /** Digits count by place, from the right, in base ten. */
  lemma DigitsByPlace(s: string, c: char)
    requires AllDigits(s) && '0' <= c <= '9'
    ensures AllDigits(s + [c]) && DecimalValue(s + [c]) == 10 * DecimalValue(s) + (c as int - 48)
    ensures DecimalValue("") == 0
  {
    assert (s + [c])[..|s|] == s;
  }

  /** On a plain number stoll is its value, unless that does not fit. */
  lemma StollOfDigits(s: string)
    requires AllDigits(s) && s != ""
    ensures Stoll(s) == if DecimalValue(s) <= 9223372036854775807 then Some(DecimalValue(s)) else None
  {
    assert IsDigit(s[0]);
    DigitPrefixOfDigits(s);
  }

  lemma {:induction false} SkipSpaceSkips(spaces: string, t: string)
    requires (forall i :: 0 <= i < |spaces| ==> IsSpace(spaces[i])) && t != "" && !IsSpace(t[0])
    ensures SkipSpace(spaces + t) == t
  {
    if spaces == "" {
      assert spaces + t == t;
    } else {
      assert (spaces + t)[1..] == spaces[1..] + t;
      SkipSpaceSkips(spaces[1..], t);
    }
  }

  lemma {:induction false} AllSpaceSkipped(spaces: string)
    requires forall i :: 0 <= i < |spaces| ==> IsSpace(spaces[i])
    ensures SkipSpace(spaces) == ""
  {
    if spaces != "" {
      AllSpaceSkipped(spaces[1..]);
    }
  }

  lemma {:induction false} DigitPrefixStops(digits: string, rest: string)
    requires AllDigits(digits) && (rest != "" ==> !IsDigit(rest[0]))
    ensures DigitPrefix(digits + rest) == digits
  {
    if digits == "" {
      assert digits + rest == rest;
    } else {
      assert (digits + rest)[1..] == digits[1..] + rest;
      DigitPrefixStops(digits[1..], rest);
    }
  }

  lemma SignedNumberMeaning(sign: string, digits: string, rest: string)
    requires sign in {"", "+", "-"} && digits != "" && AllDigits(digits) && (rest != "" ==> !IsDigit(rest[0]))
    ensures SignedNumber(sign + (digits + rest)) == Fitting(sign == "-", digits)
  {
    var t := digits + rest;
    assert IsDigit(t[0]) by {
      assert t[0] == digits[0];
    }
    DigitPrefixStops(digits, rest);
    if sign == "" {
      assert sign + t == t;
    } else {
      assert (sign + t)[1..] == t && (sign + t)[0] == sign[0];
    }
  }

  /** The white space it skips, character by character. */
  lemma SpaceCharacters(c: char)
    ensures IsSpace(c) <==> c in {' ', '\t', '\n', '\U{B}', '\U{C}', '\r'}
  {
  }

  lemma {:induction false} NoDigitsNoPrefix(s: string)
    requires s == "" || !IsDigit(s[0])
    ensures DigitPrefix(s) == ""
  {
  }

  /** A text whose first character after white space and at most one sign is no digit has no number. */
  lemma StollNeedsDigits(spaces: string, sign: string, rest: string)
    requires forall i :: 0 <= i < |spaces| ==> IsSpace(spaces[i])
    requires sign in {"", "+", "-"} && (rest != "" ==> !IsDigit(rest[0]))
    requires sign == "" && rest != "" ==> !IsSpace(rest[0]) && rest[0] != '+' && rest[0] != '-'
    ensures Stoll(spaces + (sign + rest)) == None
  {
    var t := sign + rest;
    if t == "" {
      AllSpaceSkipped(spaces);
      assert spaces + t == spaces;
    } else {
      assert t[0] == if sign == "" then rest[0] else sign[0];
      SkipSpaceSkips(spaces, t);
      assert (if sign == "" then t else t[1..]) == rest;
      NoDigitsNoPrefix(rest);
    }
  }

  /** A value, if it is one of a signed 64-bit integer. */
  function Fits64(value: int): Option<int> {
    if -9223372036854775808 <= value <= 9223372036854775807 then Some(value) else None
  }

  lemma FittingMeaning(negative: bool, digits: string)
    requires AllDigits(digits)
    ensures Fitting(negative, digits) == Fits64(if negative then 0 - DecimalValue(digits) else DecimalValue(digits))
  {
  }

  /** Every text stoll gets a number from, and the number: white space, sign and digits count, what follows does not. */
  lemma StollMeaning(spaces: string, sign: string, digits: string, rest: string)
    requires forall i :: 0 <= i < |spaces| ==> IsSpace(spaces[i])
    requires sign in {"", "+", "-"} && digits != "" && AllDigits(digits) && (rest != "" ==> !IsDigit(rest[0]))
    ensures Stoll(spaces + (sign + (digits + rest)))
         == Fits64(if sign == "-" then 0 - DecimalValue(digits) else DecimalValue(digits))
  {
    var t := sign + (digits + rest);
    assert !IsSpace(t[0]) by {
      assert t[0] == if sign == "" then digits[0] else sign[0];
      assert IsDigit(digits[0]);
    }
    SkipSpaceSkips(spaces, t);
    SignedNumberMeaning(sign, digits, rest);
    FittingMeaning(sign == "-", digits);
  }

  function Digit(d: nat): (c: char)
    requires d < 10
    ensures IsDigit(c) && DigitValue(c) == d
  {
    ('0' as int + d) as char
  }

  function Print(n: nat): (s: string)
    ensures s != "" && AllDigits(s) && DecimalValue(s) == n
    ensures s == "0" || s[0] != '0'
  {
    if n < 10 then
      var s := [Digit(n)];
      assert s[..0] == "" && DecimalValue("") == 0;
      s
    else
      var front, s := Print(n / 10), Print(n / 10) + [Digit(n % 10)];
      assert s[..|front|] == front;
      s
  }
}
