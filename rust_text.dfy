/** The few pieces of Rust's standard string handling that the argument parser of
    `soap` relies on: ASCII case-insensitive comparison (`str::eq_ignore_ascii_case`),
    the length of a `String` in UTF-8 bytes (`str::len`) and decimal parsing into a
    `usize` (`str::parse::<usize>`). Strings are sequences of Unicode scalar values. */
module RustText {

  datatype Option<T> = None | Some(value: T)

  /** Largest value of `usize`; the model assumes a 64-bit target. */
  const USIZE_MAX: nat := 0xFFFF_FFFF_FFFF_FFFF

  // ---------------------------------------------------------------------------
  // ASCII case folding

  predicate IsAsciiUpper(c: char) {
    'A' <= c <= 'Z'
  }

  /** `char::to_ascii_lowercase`: maps 'A'..'Z' to 'a'..'z' and leaves every other
      character as it is. */
  function AsciiLower(c: char): char {
    if IsAsciiUpper(c) then (c as int + 32) as char else c
  }

  /** `str::eq_ignore_ascii_case`: the same length, and equal after folding each
      position to ASCII lower case. Comparing characters rather than UTF-8 bytes
      gives the same answer, because folding only touches ASCII bytes. */
  predicate EqIgnoreAsciiCase(a: string, b: string) {
    |a| == |b| && forall i :: 0 <= i < |a| ==> AsciiLower(a[i]) == AsciiLower(b[i])
  }

  /** The whole string folded to ASCII lower case (`str::to_ascii_lowercase`). */
  function AsciiLowercase(s: string): (r: string)
    ensures |r| == |s|
    ensures forall i :: 0 <= i < |s| ==> r[i] == AsciiLower(s[i])
  {
    if s == [] then [] else [AsciiLower(s[0])] + AsciiLowercase(s[1..])
  }

  /** Case-insensitive equality is equality of the lower-cased strings. */
  lemma EqIgnoreAsciiCaseIsLowercaseEquality(a: string, b: string)
    ensures EqIgnoreAsciiCase(a, b) <==> AsciiLowercase(a) == AsciiLowercase(b)
  {
    if AsciiLowercase(a) == AsciiLowercase(b) {
      forall i | 0 <= i < |a|
        ensures AsciiLower(a[i]) == AsciiLower(b[i])
      {
        assert AsciiLowercase(a)[i] == AsciiLowercase(b)[i];
      }
    }
  }

  // ---------------------------------------------------------------------------
  // UTF-8 length

  /** Number of bytes UTF-8 uses to encode `c`. */
  function Utf8Width(c: char): (w: nat)
    ensures 1 <= w <= 4
    ensures w == 1 <==> c as int < 0x80
  {
    if c as int < 0x80 then 1
    else if c as int < 0x800 then 2
    else if c as int < 0x1_0000 then 3
    else 4
  }

  /** `String::len`: the length in UTF-8 bytes, not in characters. */
  function Utf8Len(s: string): (n: nat)
    ensures n >= |s|
  {
    if s == [] then 0 else Utf8Width(s[0]) + Utf8Len(s[1..])
  }

  /** A string is one byte long exactly when it is a single ASCII character. */
  lemma {:induction false} Utf8LenIsOne(s: string)
    ensures Utf8Len(s) == 1 <==> |s| == 1 && s[0] as int < 0x80
  {
    if |s| >= 2 {
      assert Utf8Len(s[1..]) >= 1;
    } else if |s| == 1 {
      assert s[1..] == [];
    }
  }

  // ---------------------------------------------------------------------------
  // Decimal numbers

  predicate IsDigit(c: char) {
    '0' <= c <= '9'
  }

  predicate AllDigits(s: string) {
    forall i :: 0 <= i < |s| ==> IsDigit(s[i])
  }

  function DigitValue(c: char): (d: nat)
    requires IsDigit(c)
    ensures d < 10
  {
    c as int - '0' as int
  }

  function DigitChar(d: nat): (c: char)
    requires d < 10
    ensures IsDigit(c) && DigitValue(c) == d
  {
    ('0' as int + d) as char
  }

  /** The value of a string of decimal digits, most significant first. */
  function DecimalValue(s: string): nat
    requires AllDigits(s)
  {
    if s == [] then 0 else DecimalValue(s[..|s| - 1]) * 10 + DigitValue(s[|s| - 1])
  }

  /** The shortest decimal spelling of `n` (no sign, no leading zeros). */
  function DecimalString(n: nat): (s: string)
    ensures |s| > 0 && AllDigits(s)
  {
    if n < 10 then [DigitChar(n)] else DecimalString(n / 10) + [DigitChar(n % 10)]
  }

  lemma {:induction false} DecimalRoundTrip(n: nat)
    ensures DecimalValue(DecimalString(n)) == n
  {
    var s := DecimalString(n);
    if n >= 10 {
      assert s[..|s| - 1] == DecimalString(n / 10);
      DecimalRoundTrip(n / 10);
    } else {
      assert s[..|s| - 1] == [];
    }
  }

  /** `k` zero digits. */
  function Zeros(k: nat): (z: string)
    ensures |z| == k && forall i :: 0 <= i < k ==> z[i] == '0'
  {
    if k == 0 then [] else ['0'] + Zeros(k - 1)
  }

  /** A leading zero does not change the value of a digit string. */
  lemma {:induction false} LeadingZeroValue(e: string)
    requires AllDigits(e)
    ensures AllDigits(['0'] + e) && DecimalValue(['0'] + e) == DecimalValue(e)
    decreases |e|
  {
    var d := ['0'] + e;
    if e == [] {
      assert d[..|d| - 1] == [];
    } else {
      assert d[..|d| - 1] == ['0'] + e[..|e| - 1];
      LeadingZeroValue(e[..|e| - 1]);
    }
  }

  /** Any number of leading zeros do not change the value. */
  lemma {:induction false} ZerosPrefixValue(k: nat, e: string)
    requires AllDigits(e)
    ensures AllDigits(Zeros(k) + e) && DecimalValue(Zeros(k) + e) == DecimalValue(e)
  {
    if k == 0 {
      assert Zeros(k) + e == e;
    } else {
      ZerosPrefixValue(k - 1, e);
      assert Zeros(k) + e == ['0'] + (Zeros(k - 1) + e);
      LeadingZeroValue(Zeros(k - 1) + e);
    }
  }

  /** A digit string that does not start with '0' has a positive value. */
  lemma {:induction false} PositiveValue(d: string)
    requires |d| > 0 && AllDigits(d) && d[0] != '0'
    ensures DecimalValue(d) >= 1
    decreases |d|
  {
    if |d| > 1 {
      PositiveValue(d[..|d| - 1]);
    }
  }

  /** A digit string without a leading zero (or the single digit "0") is the
      decimal spelling of its own value. */
  lemma {:induction false} CanonicalSpelling(d: string)
    requires |d| > 0 && AllDigits(d) && (d[0] != '0' || |d| == 1)
    ensures DecimalString(DecimalValue(d)) == d
    decreases |d|
  {
    var v := DecimalValue(d);
    if |d| == 1 {
      assert d[..|d| - 1] == [];
      assert DecimalValue(d[..|d| - 1]) == 0;
      assert v == DigitValue(d[0]);
      assert DigitChar(v) == d[0];
    } else {
      var front := d[..|d| - 1];
      PositiveValue(front);
      CanonicalSpelling(front);
      var x := DigitValue(d[|d| - 1]);
      assert v == DecimalValue(front) * 10 + x;
      assert v / 10 == DecimalValue(front) && v % 10 == x;
      assert d == front + [d[|d| - 1]];
    }
  }

  /** Every non-empty digit string is some zeros followed by the decimal spelling
      of its value. */
  lemma {:induction false} ZerosThenCanonical(d: string)
    requires |d| > 0 && AllDigits(d)
    ensures |DecimalString(DecimalValue(d))| <= |d|
    ensures d == Zeros(|d| - |DecimalString(DecimalValue(d))|) + DecimalString(DecimalValue(d))
    decreases |d|
  {
    if d[0] != '0' || |d| == 1 {
      CanonicalSpelling(d);
    } else {
      var e := d[1..];
      ZerosThenCanonical(e);
      assert d == ['0'] + e;
      LeadingZeroValue(e);
      var c := DecimalString(DecimalValue(e));
      assert Zeros(|e| - |c| + 1) == ['0'] + Zeros(|e| - |c|);
    }
  }

  /** `str::parse::<usize>`: an optional leading '+', then one or more decimal
      digits whose value fits in a `usize`. Empty input, a lone '+', a '-' sign, any
      other character and overflow all fail. */
  function ParseUsize(s: string): (r: Option<nat>)
    ensures r.Some? ==> r.value <= USIZE_MAX
    ensures r.Some? ==> |s| > 0 && (IsDigit(s[0]) || s[0] == '+')
  {
    var digits := if |s| > 0 && s[0] == '+' then s[1..] else s;
    if |digits| == 0 || !AllDigits(digits) then None
    else if DecimalValue(digits) <= USIZE_MAX then Some(DecimalValue(digits))
    else None
  }

  /** Every `usize` written in decimal, with or without a '+', parses back to
      itself; a decimal number beyond `usize::MAX` does not parse. */
  lemma ParseUsizeOfDecimal(n: nat)
    ensures n <= USIZE_MAX ==> ParseUsize(DecimalString(n)) == Some(n)
    ensures n <= USIZE_MAX ==> ParseUsize("+" + DecimalString(n)) == Some(n)
    ensures n > USIZE_MAX ==> ParseUsize(DecimalString(n)) == None
  {
    var s := DecimalString(n);
    DecimalRoundTrip(n);
    assert s[0] != '+' by { assert IsDigit(s[0]); }
    assert ("+" + s)[1..] == s;
  }

  /** An optional '+' and a non-empty run of digits parse to the run's value,
      unless it exceeds `usize::MAX`. */
  lemma ParseUsizeDigits(sign: string, digits: string)
    requires sign == "" || sign == "+"
    requires |digits| > 0 && AllDigits(digits)
    ensures ParseUsize(sign + digits)
         == if DecimalValue(digits) <= USIZE_MAX then Some(DecimalValue(digits)) else None
  {
    assert IsDigit(digits[0]);
    if sign == "+" {
      assert (sign + digits)[1..] == digits;
    } else {
      assert sign + digits == digits;
    }
  }

  /** Every spelling the parser accepts: an optional '+', any number of leading
      zeros, then the decimal digits of a value; it parses to that value when the
      value fits a `usize` and fails otherwise. */
  lemma ParseUsizeOfSpelling(sign: string, k: nat, v: nat)
    requires sign == "" || sign == "+"
    ensures ParseUsize(sign + (Zeros(k) + DecimalString(v))) == if v <= USIZE_MAX then Some(v) else None
  {
    DecimalRoundTrip(v);
    ZerosPrefixValue(k, DecimalString(v));
    ParseUsizeDigits(sign, Zeros(k) + DecimalString(v));
  }

  /** A successful parse read the digits after an optional '+'. */
  lemma ParseUsizeValue(s: string)
    requires ParseUsize(s).Some?
    ensures var rest := if s[0] == '+' then s[1..] else s;
      |rest| > 0 && AllDigits(rest) && ParseUsize(s).value == DecimalValue(rest)
  {
  }

  /** Conversely, whatever the parser accepts is an optional '+', some zeros and
      the decimal digits of the value it returns. So a string with any other
      character in it, a lone or doubled sign, or the empty string, fails. */
  lemma ParseUsizeAccepted(s: string)
    requires ParseUsize(s).Some?
    ensures var sign := if s[0] == '+' then "+" else "";
      var digits := DecimalString(ParseUsize(s).value);
      |sign| + |digits| <= |s|
      && s == sign + (Zeros(|s| - |sign| - |digits|) + digits)
  {
    ParseUsizeValue(s);
    if s[0] == '+' {
      var rest := s[1..];
      ZerosThenCanonical(rest);
      assert s == "+" + rest;
    } else {
      ZerosThenCanonical(s);
      assert s == "" + s;
    }
  }

  /** A zero-padded spelling is accepted. */
  lemma ZeroPaddedExample()
    ensures ParseUsize("007") == Some(7)
  {
    ParseUsizeOfSpelling("", 2, 7);
    assert "007" == "" + (Zeros(2) + DecimalString(7));
  }

  /** A zero-padded spelling after '+' is accepted. */
  lemma SignedZeroPaddedExample()
    ensures ParseUsize("+010") == Some(10)
  {
    var digits := DecimalString(10);
    assert digits == "10";
    ParseUsizeOfSpelling("+", 1, 10);
    assert "+010" == "+" + (Zeros(1) + digits);
  }

  /** A trailing letter or space, a sign followed by another sign, the empty string
      and a lone sign are refused. */
  lemma RefusedSpellingExamples()
    ensures ParseUsize("12x") == None
    ensures ParseUsize("1 ") == None
    ensures ParseUsize("+-1") == None
    ensures ParseUsize("") == None && ParseUsize("+") == None
  {
    assert !IsDigit("12x"[2]);
    assert !IsDigit("1 "[1]);
    assert !IsDigit("-1"[0]);
    assert "+-1"[1..] == "-1";
  }
}
