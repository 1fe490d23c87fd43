/**
 * The few pieces of the C++ standard library the weather program builds
 * its strings with: decimal formatting of an int (std::to_string and
 * `ostream << int`), the "0"-prefix idiom used for two-digit fields,
 * std::stoi, std::string::substr, and std::getline with a delimiter.
 */
module StdText {
  import opened Results

  predicate IsDigit(c: char) { '0' <= c <= '9' }

  predicate AllDigits(s: string) { forall i :: 0 <= i < |s| ==> IsDigit(s[i]) }

  function DigitChar(d: int): (c: char)
    requires 0 <= d <= 9
    ensures IsDigit(c) && c as int - '0' as int == d
  {
    ('0' as int + d) as char
  }

  /** The value of a string of decimal digits, most significant first. */
  function DigitsValue(s: string): nat
    requires AllDigits(s)
  {
    if s == [] then 0 else DigitsValue(s[..|s| - 1]) * 10 + (s[|s| - 1] as int - '0' as int)
  }

  /** Decimal text of a natural number, no leading zeros. */
  function NatToString(n: nat): (s: string)
    ensures |s| >= 1 && AllDigits(s)
  {
    if n < 10 then [DigitChar(n)] else NatToString(n / 10) + [DigitChar(n % 10)]
  }

  /** std::to_string(int), and what `ostream << int` writes. */
  function IntToString(n: int): string
  {
    if n < 0 then "-" + NatToString(-n) else NatToString(n)
  }

  /** `(n < 10 ? "0" : "") + to_string(n)`: the two-digit field idiom. */
  function ZeroPadded(n: int): string
  {
    (if n < 10 then "0" else "") + IntToString(n)
  }

  /** Reading the decimal text of n gives n back. */
  lemma {:induction false} NatToStringValue(n: nat)
    ensures DigitsValue(NatToString(n)) == n
  {
    if n >= 10 {
      NatToStringValue(n / 10);
      var s := NatToString(n);
      assert s[..|s| - 1] == NatToString(n / 10);
    }
  }

  /** A four-digit year prints as exactly four characters. */
  lemma FourDigitLength(n: int)
    requires 1000 <= n <= 9999
    ensures |IntToString(n)| == 4 && AllDigits(IntToString(n))
  {
    assert NatToString(n) == NatToString(n / 10) + [DigitChar(n % 10)];
    assert NatToString(n / 10) == NatToString(n / 100) + [DigitChar(n / 10 % 10)];
    assert NatToString(n / 100) == NatToString(n / 1000) + [DigitChar(n / 100 % 10)];
  }

  /** The text of n starts with a minus sign exactly when n is negative. */
  lemma NegativeSign(n: int)
    ensures |IntToString(n)| > 0 && (IntToString(n)[0] == '-' <==> n < 0)
  {
    if n >= 0 {
      assert IsDigit(NatToString(n)[0]);
    }
  }

  /** Different ints print differently. */
  lemma IntToStringInjective(a: int, b: int)
    requires IntToString(a) == IntToString(b)
    ensures a == b
  {
    NegativeSign(a);
    NegativeSign(b);
    var text := IntToString(a);
    if a < 0 {
      assert b < 0;
      var da, db := NatToString(-a), NatToString(-b);
      assert text == "-" + da && text == "-" + db;
      assert da == text[1..] == db;
      NatToStringValue(-a);
      NatToStringValue(-b);
    } else {
      assert b >= 0;
      assert NatToString(a) == text == NatToString(b);
      NatToStringValue(a);
      NatToStringValue(b);
    }
  }

  /** For 0..99 the padded field is two digits that read back as n. */
  lemma ZeroPaddedTwoDigits(n: int)
    requires 0 <= n <= 99
    ensures |ZeroPadded(n)| == 2 && AllDigits(ZeroPadded(n)) && DigitsValue(ZeroPadded(n)) == n
  {
    var s := ZeroPadded(n);
    if n < 10 {
      assert s == ['0', DigitChar(n)];
      assert s[..1] == "0";
      assert s[..1][..0] == [];
      assert DigitsValue(s[..1]) == 0;
    } else {
      assert NatToString(n / 10) == [DigitChar(n / 10)];
      assert s == [DigitChar(n / 10), DigitChar(n % 10)];
      assert s[..1] == [DigitChar(n / 10)];
      assert s[..1][..0] == [];
      assert DigitsValue(s[..1]) == n / 10;
    }
  }

  // ---- std::stoi ----

  /** The characters std::isspace accepts in the "C" locale. */
  predicate IsSpace(c: char)
  {
    c == ' ' || c == '\t' || c == '\n' || c as int == 11 || c as int == 12 || c == '\r'
  }

  function SkipSpaces(s: string): (t: string)
    ensures |t| <= |s| && t == s[|s| - |t|..]
    ensures |t| > 0 ==> !IsSpace(t[0])
  {
    if |s| > 0 && IsSpace(s[0]) then SkipSpaces(s[1..]) else s
  }

  /** Length of the longest prefix of decimal digits. */
  function DigitRun(s: string): (n: nat)
    ensures n <= |s| && AllDigits(s[..n]) && (n < |s| ==> !IsDigit(s[n]))
  {
    if |s| > 0 && IsDigit(s[0]) then
      var n := 1 + DigitRun(s[1..]);
      assert s[..n] == [s[0]] + s[1..][..n - 1];
      n
    else 0
  }

  const IntMin: int := -0x8000_0000
  const IntMax: int := 0x7FFF_FFFF

  /**
   * std::stoi(s) in base 10: leading white space, an optional sign, then the
   * longest run of digits; no digits throws invalid_argument, a value
   * outside int throws out_of_range.
   */
  function Stoi(s: string): (r: Result<int>)
    ensures r.Ok? ==> IntMin <= r.value <= IntMax
  {
    var t := SkipSpaces(s);
    var negative := |t| > 0 && t[0] == '-';
    var body := if |t| > 0 && (t[0] == '-' || t[0] == '+') then t[1..] else t;
    StoiDigits(body, negative)
  }

  /** What stoi makes of the text after the white space and the sign. */
  function StoiDigits(body: string, negative: bool): (r: Result<int>)
    ensures r.Ok? ==> IntMin <= r.value <= IntMax
  {
    var n := DigitRun(body);
    if n == 0 then Err(InvalidArgument)
    else
      var v: int := if negative then 0 - DigitsValue(body[..n]) else DigitsValue(body[..n]);
      if v < IntMin || v > IntMax then Err(OutOfRange) else Ok(v)
  }

  /** Two digits read by stoi give their value. */
  lemma StoiTwoDigits(s: string)
    requires |s| == 2 && AllDigits(s)
    ensures Stoi(s) == Ok(DigitsValue(s))
  {
    assert !IsSpace(s[0]) && SkipSpaces(s) == s;
    assert s[0] != '-' && s[0] != '+';
    assert s[..1][..0] == [];
    assert DigitsValue(s[..1]) <= 9;
    assert DigitsValue(s) <= 99;
    assert DigitRun(s[1..][1..]) == 0;
    assert DigitRun(s[1..]) == 1;
    assert DigitRun(s) == 2;
    assert s[..2] == s;
  }

  /** A digit run ends where the digits end. */
  lemma {:induction false} DigitRunOfDigits(s: string, rest: string)
    requires AllDigits(s)
    requires rest == [] || !IsDigit(rest[0])
    ensures DigitRun(s + rest) == |s| && (s + rest)[..|s|] == s && (s + rest)[|s|..] == rest
  {
    if s != [] {
      DigitRunOfDigits(s[1..], rest);
      assert (s + rest)[1..] == s[1..] + rest;
    }
  }

  /** stoi of a text with no digit at all throws invalid_argument. */
  lemma StoiWithoutDigits(s: string)
    requires forall i :: 0 <= i < |s| ==> !IsDigit(s[i])
    ensures Stoi(s) == Err(InvalidArgument)
  {
    var t := SkipSpaces(s);
    var negative := |t| > 0 && t[0] == '-';
    var body := if |t| > 0 && (t[0] == '-' || t[0] == '+') then t[1..] else t;
    assert Stoi(s) == StoiDigits(body, negative);
    assert DigitRun(body) == 0 by {
      assert body == s[|s| - |body|..];
      if |body| > 0 {
        assert body[0] == s[|s| - |body|];
      }
    }
  }

  /** stoi of digits whose value is above INT_MAX throws out_of_range. */
  lemma StoiAboveMax(digits: string)
    requires digits != [] && AllDigits(digits) && DigitsValue(digits) > IntMax
    ensures Stoi(digits) == Err(OutOfRange)
  {
    assert IsDigit(digits[0]);
    StoiUnsigned(digits);
    DigitsOutOfRange(digits, false);
  }

  /** A text that starts with neither a blank nor a sign is read as unsigned digits. */
  lemma StoiUnsigned(s: string)
    requires s != [] && !IsSpace(s[0]) && s[0] != '-' && s[0] != '+'
    ensures Stoi(s) == StoiDigits(s, false)
  {
    assert SkipSpaces(s) == s;
  }

  /** stoi of a minus sign and digits whose value is above -INT_MIN throws out_of_range. */
  lemma StoiBelowMin(digits: string)
    requires digits != [] && AllDigits(digits) && DigitsValue(digits) > -IntMin
    ensures Stoi("-" + digits) == Err(OutOfRange)
  {
    var s := "-" + digits;
    assert s[0] == '-' && s[1..] == digits;
    StoiMinus(s);
    DigitsOutOfRange(digits, true);
  }

  /** A text that starts with a minus sign is read as the negated digits after it. */
  lemma StoiMinus(s: string)
    requires s != [] && s[0] == '-'
    ensures Stoi(s) == StoiDigits(s[1..], true)
  {
    assert !IsSpace(s[0]) && SkipSpaces(s) == s;
  }

  /** A digit run too large for int, with or without the minus sign, is out_of_range. */
  lemma DigitsOutOfRange(digits: string, negative: bool)
    requires digits != [] && AllDigits(digits)
    requires if negative then DigitsValue(digits) > -IntMin else DigitsValue(digits) > IntMax
    ensures StoiDigits(digits, negative) == Err(OutOfRange)
  {
    DigitRunOfDigits(digits, []);
    assert digits + [] == digits;
    assert digits[..|digits|] == digits;
  }

  // ---- std::string::substr ----

  /** s.substr(pos, len): throws out_of_range when pos > size(). */
  function Substr(s: string, pos: nat, len: nat): (r: Result<string>)
    ensures r.Err? <==> pos > |s|
    ensures r.Ok? ==> |r.value| == if pos + len <= |s| then len else |s| - pos
    ensures r.Ok? ==> forall i :: 0 <= i < |r.value| ==> r.value[i] == s[pos + i]
  {
    if pos > |s| then Err(OutOfRange)
    else if pos + len <= |s| then Ok(s[pos..pos + len])
    else Ok(s[pos..])
  }

  // ---- std::getline(stream, piece, delim) ----

  /** Index of the first `c` in s, or |s| when there is none. */
  function FirstIndex(s: string, c: char): (i: nat)
    ensures i <= |s| && (i < |s| ==> s[i] == c)
    ensures forall j :: 0 <= j < i ==> s[j] != c
  {
    if |s| == 0 || s[0] == c then 0 else 1 + FirstIndex(s[1..], c)
  }

  /** What one getline(stream, piece, c) stores: the text before the first c. */
  function Before(s: string, c: char): string
  {
    s[..FirstIndex(s, c)]
  }

  /** What remains in the stream after that getline (the delimiter is consumed). */
  function After(s: string, c: char): (rest: string)
    ensures |rest| < |s| || s == []
  {
    var i := FirstIndex(s, c);
    if i < |s| then s[i + 1..] else []
  }

  /**
   * The pieces `while (getline(ss, cell, c))` yields: one per delimiter-ended
   * piece, plus the final piece only when it is not empty (getline fails
   * on a stream that is already at its end).
   */
  function Split(s: string, c: char): (cells: seq<string>)
    decreases |s|
  {
    if s == [] then [] else [Before(s, c)] + Split(After(s, c), c)
  }

  /** One getline step: the first piece, then the pieces of what follows it. */
  lemma SplitStep(s: string, c: char)
    requires s != []
    ensures Split(s, c) == [Before(s, c)] + Split(After(s, c), c)
  {
  }

  /** A getline loop that has taken the pieces `done` and still has `rest` takes one more piece. */
  lemma SplitResume(done: seq<string>, rest: string, line: string, c: char)
    requires rest != [] && done + Split(rest, c) == Split(line, c)
    ensures (done + [Before(rest, c)]) + Split(After(rest, c), c) == Split(line, c)
  {
    SplitStep(rest, c);
    assert (done + [Before(rest, c)]) + Split(After(rest, c), c) == done + ([Before(rest, c)] + Split(After(rest, c), c));
  }

  /** No piece contains the delimiter. */
  lemma {:induction false} SplitPiecesHaveNoDelimiter(s: string, c: char)
    ensures forall k :: 0 <= k < |Split(s, c)| ==> c !in Split(s, c)[k]
    decreases |s|
  {
    if s != [] {
      var head, rest := Before(s, c), Split(After(s, c), c);
      SplitPiecesHaveNoDelimiter(After(s, c), c);
      SplitStep(s, c);
      assert c !in head by {
        var i := FirstIndex(s, c);
        assert head == s[..i];
        assert forall j :: 0 <= j < i ==> head[j] == s[j] != c;
      }
      var cells := Split(s, c);
      assert cells == [head] + rest;
      forall k | 0 <= k < |cells|
        ensures c !in cells[k]
      {
        if k > 0 {
          assert cells[k] == rest[k - 1];
        }
      }
    }
  }

  /** Splitting text with no delimiter in it gives the text back (when not empty). */
  lemma SplitWithoutDelimiter(s: string, c: char)
    requires s != [] && c !in s
    ensures Split(s, c) == [s]
  {
    var i := FirstIndex(s, c);
    assert i == |s|;
    assert Before(s, c) == s;
    assert After(s, c) == [];
    assert Split([], c) == [];
  }

  /** getline stops at the first delimiter: text without one before it comes out whole. */
  lemma SplitAtFirst(a: string, c: char, b: string)
    requires c !in a
    ensures Before(a + [c] + b, c) == a && After(a + [c] + b, c) == b
  {
    var s := a + [c] + b;
    assert s[|a|] == c;
    assert FirstIndex(s, c) == |a| by {
      forall j | 0 <= j < |a|
        ensures s[j] != c
      {
        assert s[j] == a[j];
      }
    }
    assert s[..|a|] == a;
    assert s[|a| + 1..] == b;
  }

  /** getline on text with no delimiter takes all of it. */
  lemma BeforeWithoutDelimiter(s: string, c: char)
    requires c !in s
    ensures Before(s, c) == s
  {
  }

  /** Printed ints consist of digits and minus signs only. */
  lemma PrintedChars(n: int)
    ensures forall i :: 0 <= i < |IntToString(n)| ==> IsDigit(IntToString(n)[i]) || IntToString(n)[i] == '-'
    ensures forall i :: 0 <= i < |ZeroPadded(n)| ==> IsDigit(ZeroPadded(n)[i]) || ZeroPadded(n)[i] == '-'
  {
    var z := ZeroPadded(n);
    var p := IntToString(n);
    assert z == (if n < 10 then "0" else "") + p;
    forall i | 0 <= i < |z|
      ensures IsDigit(z[i]) || z[i] == '-'
    {
      if n < 10 && i > 0 {
        assert z[i] == p[i - 1];
      }
    }
  }

  /** The cells written out with `c` between them. */
  function Join(cells: seq<string>, c: char): string
  {
    if cells == [] then []
    else if |cells| == 1 then cells[0]
    else cells[0] + [c] + Join(cells[1..], c)
  }

  /**
   * Splitting a joined row gives its cells back, provided no cell holds the
   * delimiter and the last cell is not empty (getline drops a trailing
   * empty piece).
   */
  lemma {:induction false} SplitJoin(cells: seq<string>, c: char)
    requires forall k :: 0 <= k < |cells| ==> c !in cells[k]
    requires cells == [] || cells[|cells| - 1] != []
    ensures Split(Join(cells, c), c) == cells
  {
    if |cells| == 1 {
      SplitWithoutDelimiter(cells[0], c);
    } else if |cells| > 1 {
      var tail := cells[1..];
      assert forall k :: 0 <= k < |tail| ==> tail[k] == cells[k + 1];
      SplitJoin(tail, c);
      var joined := Join(cells, c);
      assert joined == cells[0] + [c] + Join(tail, c);
      SplitAtFirst(cells[0], c, Join(tail, c));
      SplitStep(joined, c);
      assert cells == [cells[0]] + tail;
    }
  }
}
