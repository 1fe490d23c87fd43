/**
 * Formatted extraction from a std::stringstream, as parseDate and
 * parseTime use it: `ss >> int` and `ss >> char` with the stream's state.
 * Once an extraction fails every later one leaves its variable alone, so a
 * variable that was never initialised keeps its indeterminate value; the
 * model takes those values as a parameter (`junk`).
 */
module StreamScan {
  import opened StdText

  /** The unread text, and whether the stream is still good (no failbit, no eofbit). */
  datatype Stream = Stream(rest: string, good: bool)

  datatype Extracted<T> = Extracted(stream: Stream, value: T)

  /**
   * `ss >> n` for an int n whose value before the call is `prior`.
   * A stream that is not good, or holds only white space, fails and leaves
   * n alone.  Otherwise: white space, an optional sign, then digits; with
   * no digits n becomes 0 and the stream fails; a value outside int stores
   * the nearest bound and fails; reading up to the end sets eofbit.
   */
  function ExtractInt(s: Stream, prior: int): (e: Extracted<int>)
    ensures IntMin <= prior <= IntMax ==> IntMin <= e.value <= IntMax
    ensures !s.good ==> e == Extracted(s, prior)
  {
    if !s.good then Extracted(s, prior)
    else
      var t := SkipSpaces(s.rest);
      if t == [] then Extracted(Stream([], false), prior)
      else if t[0] == '-' then Convert(t[1..], true)
      else if t[0] == '+' then Convert(t[1..], false)
      else Convert(t, false)
  }

  /** The number part of `ss >> n`, after white space and any sign. */
  function Convert(body: string, negative: bool): (e: Extracted<int>)
    ensures IntMin <= e.value <= IntMax
  {
    var n := DigitRun(body);
    if n == 0 then Extracted(Stream(body, false), 0)
    else
      var v: int := if negative then 0 - DigitsValue(body[..n]) else DigitsValue(body[..n]);
      if v < IntMin then Extracted(Stream(body[n..], false), IntMin)
      else if v > IntMax then Extracted(Stream(body[n..], false), IntMax)
      else Extracted(Stream(body[n..], n < |body|), v)
  }

  /**
   * `ss >> c` for a char c whose value before the call is `prior`: skips
   * white space and takes one character; at the end of the text the stream
   * fails and c is left alone.
   */
  function ExtractChar(s: Stream, prior: char): (e: Extracted<char>)
    ensures !s.good ==> e == Extracted(s, prior)
    ensures e.stream.good ==> s.good && |e.stream.rest| < |s.rest|
  {
    if !s.good then Extracted(s, prior)
    else
      var t := SkipSpaces(s.rest);
      if t == [] then Extracted(Stream([], false), prior)
      else Extracted(Stream(t[1..], true), t[0])
  }

  /** Converting digits followed by a non-digit reads exactly those digits. */
  lemma ConvertDigits(digits: string, rest: string, negative: bool)
    requires digits != [] && AllDigits(digits)
    requires if negative then DigitsValue(digits) <= -IntMin else DigitsValue(digits) <= IntMax
    requires rest == [] || !IsDigit(rest[0])
    ensures Convert(digits + rest, negative) ==
      Extracted(Stream(rest, rest != []), if negative then 0 - DigitsValue(digits) else DigitsValue(digits))
  {
    DigitRunOfDigits(digits, rest);
  }

  /** Extracting digits followed by a non-digit reads exactly those digits. */
  lemma ExtractDigits(s: string, rest: string, prior: int)
    requires s != [] && AllDigits(s) && DigitsValue(s) <= IntMax
    requires rest == [] || !IsDigit(rest[0])
    ensures ExtractInt(Stream(s + rest, true), prior) == Extracted(Stream(rest, rest != []), DigitsValue(s))
  {
    var t := s + rest;
    assert t[0] == s[0] && IsDigit(t[0]);
    assert !IsSpace(t[0]) && t[0] != '-' && t[0] != '+';
    assert SkipSpaces(t) == t;
    ConvertDigits(s, rest, false);
  }

  /** Extracting a minus sign, digits and a non-digit reads the negated digits. */
  lemma ExtractNegative(digits: string, rest: string, prior: int)
    requires digits != [] && AllDigits(digits) && DigitsValue(digits) <= -IntMin
    requires rest == [] || !IsDigit(rest[0])
    ensures ExtractInt(Stream("-" + digits + rest, true), prior) == Extracted(Stream(rest, rest != []), 0 - DigitsValue(digits))
  {
    var t := "-" + digits + rest;
    assert t[1..] == digits + rest;
    ExtractMinus(t, prior);
    ConvertDigits(digits, rest, true);
  }

  /** On a good stream that starts with '-', extraction converts what follows the sign. */
  lemma ExtractMinus(t: string, prior: int)
    requires t != [] && t[0] == '-'
    ensures ExtractInt(Stream(t, true), prior) == Convert(t[1..], true)
  {
    assert !IsSpace(t[0]);
    assert SkipSpaces(t) == t;
  }

  /** Extracting the printed form of an int followed by a non-digit reads that int back. */
  lemma ExtractPrinted(n: int, rest: string, prior: int)
    requires IntMin <= n <= IntMax
    requires rest == [] || !IsDigit(rest[0])
    ensures ExtractInt(Stream(IntToString(n) + rest, true), prior) == Extracted(Stream(rest, rest != []), n)
  {
    var digits := NatToString(if n >= 0 then n else -n);
    NatToStringValue(if n >= 0 then n else -n);
    if n >= 0 {
      assert IntToString(n) == digits;
      ExtractDigits(digits, rest, prior);
    } else {
      assert IntToString(n) == "-" + digits;
      assert IntToString(n) + rest == "-" + digits + rest;
      ExtractNegative(digits, rest, prior);
    }
  }

  /** Extracting a char that is not white space takes exactly that char. */
  lemma ExtractCharAt(c: char, rest: string, prior: char)
    requires !IsSpace(c)
    ensures ExtractChar(Stream([c] + rest, true), prior) == Extracted(Stream(rest, true), c)
  {
    assert SkipSpaces([c] + rest) == [c] + rest;
    assert ([c] + rest)[1..] == rest;
  }
}
