/** `validate_files`: accept exactly the strings that `str::parse::<usize>`
    accepts, on a 64-bit target. */
module Validation {
  import opened Wrappers

  /** `usize::MAX` on a 64-bit target. */
  const USIZE_MAX: nat := 0xFFFF_FFFF_FFFF_FFFF

  const MESSAGE_HEAD: string := "Value have to be a number, not \""
  const MESSAGE_TAIL: string := "\"."

  predicate IsDigit(c: char) {
    '0' <= c <= '9'
  }

  predicate AllDigits(s: string) {
    forall i :: 0 <= i < |s| ==> IsDigit(s[i])
  }

  /** The value of a string of decimal digits, most significant first. */
  function DigitsValue(s: string): nat
    requires AllDigits(s)
    decreases |s|
  {
    if s == [] then 0 else DigitsValue(s[..|s| - 1]) * 10 + (s[|s| - 1] as int - '0' as int)
  }

  /** `str::parse::<usize>` in radix 10: an optional leading '+', then at least
      one ASCII digit, and a value that fits in a `usize`. An empty string, a
      lone sign, a '-' (the type is unsigned), whitespace or any other
      character, and an overflowing value are refused. */
  function ParseUsize(s: string): (r: Option<nat>)
    ensures r.Some? ==> r.value <= USIZE_MAX
  {
    var digits := if |s| > 0 && s[0] == '+' then s[1..] else s;
    if digits == [] || !AllDigits(digits) || DigitsValue(digits) > USIZE_MAX then None
    else Some(DigitsValue(digits))
  }

  /** `validate_files`: `Ok(())` for a number, otherwise an error message that
      quotes the input. */
  function ValidateFiles(value: string): (r: Result<(), string>)
    ensures r.Success? <==> ParseUsize(value).Some?
    ensures r.Failure? ==> r.error == MESSAGE_HEAD + value + MESSAGE_TAIL
    ensures r.Failure? ==>
      && |r.error| == |MESSAGE_HEAD| + |value| + |MESSAGE_TAIL|
      && r.error[|MESSAGE_HEAD|..|MESSAGE_HEAD| + |value|] == value
  {
    match ParseUsize(value)
    case Some(_) => Success(())
    case None => Failure(MESSAGE_HEAD + value + MESSAGE_TAIL)
  }

  // ---------------------------------------------------------------------------
  // A reference rendering of numbers, and the round trip through the parser

  function DigitChar(d: nat): (c: char)
    requires d < 10
    ensures IsDigit(c) && c as int - '0' as int == d
  {
    ('0' as int + d) as char
  }

  /** The shortest decimal rendering of n (the way `n.to_string()` writes it). */
  function Decimal(n: nat): (s: string)
    ensures s != [] && AllDigits(s)
    ensures DigitsValue(s) == n
    decreases n
  {
    var last := [DigitChar(n % 10)];
    if n < 10 then last
    else
      var s := Decimal(n / 10) + last;
      assert s[..|s| - 1] == Decimal(n / 10);
      s
  }

  /** Every number renders to a string that `validate_files` accepts exactly
      when the number fits in a `usize`, with or without a leading '+'. */
  lemma ValidateAcceptsDecimal(n: nat)
    ensures ParseUsize(Decimal(n)) == (if n <= USIZE_MAX then Some(n) else None)
    ensures ParseUsize("+" + Decimal(n)) == ParseUsize(Decimal(n))
    ensures ValidateFiles(Decimal(n)).Success? <==> n <= USIZE_MAX
    ensures ValidateFiles("+" + Decimal(n)).Success? <==> n <= USIZE_MAX
  {
    var s := Decimal(n);
    assert s[0] != '+';
    assert ("+" + s)[1..] == s;
  }

  lemma {:induction false} LeadingZeroValue(s: string)
    requires AllDigits(s)
    ensures AllDigits("0" + s) && DigitsValue("0" + s) == DigitsValue(s)
    decreases |s|
  {
    if s != [] {
      var t := "0" + s;
      assert t[..|t| - 1] == "0" + s[..|s| - 1];
      LeadingZeroValue(s[..|s| - 1]);
    }
  }

  /** Leading zeros do not change what is accepted, nor the value. */
  lemma ParseIgnoresLeadingZero(s: string)
    requires s != [] && AllDigits(s)
    ensures ParseUsize("0" + s) == ParseUsize(s)
  {
    LeadingZeroValue(s);
    assert s[0] != '+';
  }

  /** A string holding a character that is not a digit, anywhere except a '+'
      in first position, is refused: a minus sign or whitespace, for one. */
  lemma ValidateRejectsNonDigit(s: string, i: nat)
    requires i < |s| && !IsDigit(s[i]) && !(i == 0 && s[0] == '+')
    ensures ValidateFiles(s).Failure?
  {
    if s[0] == '+' {
      assert s[1..][i - 1] == s[i];
    } else {
      assert !AllDigits(s);
    }
  }

  /** Neither the empty string nor a lone '+' is a number. */
  lemma ValidateRejectsEmpty()
    ensures ValidateFiles("").Failure? && ValidateFiles("+").Failure?
  {
    assert "+"[1..] == "";
  }
}
