/** The C library text routines the EasyComm handlers rely on (strnlen, atol, snprintf
    with "%ld" and "%02ld"), and the fixed-point number text of the EasyComm protocol:
    tenths of a degree written with one decimal, as in "12.3" or "-.5". */
module CText {
  import opened AxisCommon

  const NUL: char := '\0'

  predicate IsDigit(c: char) { '0' <= c <= '9' }

  /** isspace() in the C locale: space, \t, \n, \v, \f and \r. */
  predicate IsSpace(c: char) { c == ' ' || '\t' <= c <= '\r' }

  predicate AllDigits(d: seq<char>)
  {
    forall i :: 0 <= i < |d| ==> IsDigit(d[i])
  }

  function DigitVal(c: char): (v: nat)
    requires IsDigit(c)
    ensures v < 10
  {
    (c as int) - ('0' as int)
  }

  function DigitChar(v: nat): (c: char)
    requires v < 10
    ensures IsDigit(c) && DigitVal(c) == v
  {
    (('0' as int) + v) as char
  }

  function Pow10(n: nat): (p: nat)
    ensures p >= 1
  {
    if n == 0 then 1 else 10 * Pow10(n - 1)
  }

  lemma {:induction false} Pow10Monotone(a: nat, b: nat)
    requires a <= b
    ensures Pow10(a) <= Pow10(b)
    decreases b
  {
    if a < b {
      Pow10Monotone(a, b - 1);
    }
  }

  /** strnlen(s, max): the number of characters before the first NUL, at most `max`. */
  function StrNLen(s: seq<char>, max: nat): (n: nat)
    ensures n <= max && n <= |s|
    ensures forall i :: 0 <= i < n ==> s[i] != NUL
    ensures n < max && n < |s| ==> s[n] == NUL
  {
    ScanFrom(s, 0, max)
  }

  /** strnlen's scan from index `i` on: it stops at a NUL, at `max` or at the end. */
  function ScanFrom(s: seq<char>, i: nat, max: nat): (n: nat)
    requires i <= max && i <= |s|
    ensures i <= n <= max && n <= |s|
    ensures forall k :: i <= k < n ==> s[k] != NUL
    ensures n < max && n < |s| ==> s[n] == NUL
    decreases max - i
  {
    if i == max || i == |s| || s[i] == NUL then i else ScanFrom(s, i + 1, max)
  }

  /** strnlen is fixed by its result: no NUL before it, and a NUL at it unless a bound
      was reached. */
  lemma StrNLenIs(s: seq<char>, max: nat, n: nat)
    requires n <= max && n <= |s|
    requires forall i :: 0 <= i < n ==> s[i] != NUL
    requires n < max && n < |s| ==> s[n] == NUL
    ensures StrNLen(s, max) == n
  {
  }

  /** strnlen(&a[start], max), reading the array. */
  method CStrNLen(a: array<char>, start: nat, max: nat) returns (n: nat)
    requires start <= a.Length
    ensures n == StrNLen(a[start..], max)
    ensures start == 0 ==> n == StrNLen(a[..], max)
  {
    n := 0;
    while n < max && start + n < a.Length && a[start + n] != NUL
      invariant n <= max && start + n <= a.Length
      invariant forall i :: 0 <= i < n ==> a[start..][i] != NUL
    {
      n := n + 1;
    }
    StrNLenIs(a[start..], max, n);
    if start == 0 {
      assert a[..][0..] == a[..];
    }
  }

  // ---------------------------------------------------------------------------
  // atol

  /** The value of a string of decimal digits, most significant first. */
  function Value(d: seq<char>): (v: nat)
    requires AllDigits(d)
    decreases |d|
  {
    if d == [] then 0 else Value(d[..|d| - 1]) * 10 + DigitVal(d[|d| - 1])
  }

  /** A string of k digits is worth less than 10^k. */
  lemma {:induction false} ValueBound(d: seq<char>)
    requires AllDigits(d)
    ensures Value(d) < Pow10(|d|)
    decreases |d|
  {
    if d != [] {
      ValueBound(d[..|d| - 1]);
    }
  }

  /** The index of the first character from `i` on that is not white space. */
  function SpacesEnd(s: seq<char>, i: nat): (j: nat)
    requires i <= |s|
    ensures i <= j <= |s| && (j < |s| ==> !IsSpace(s[j]))
    decreases |s| - i
  {
    if i < |s| && IsSpace(s[i]) then SpacesEnd(s, i + 1) else i
  }

  /** The index of the first character from `i` on that is not a digit. */
  function DigitsEnd(s: seq<char>, i: nat): (j: nat)
    requires i <= |s|
    ensures i <= j <= |s| && (j < |s| ==> !IsDigit(s[j]))
    ensures forall k :: i <= k < j ==> IsDigit(s[k])
    decreases |s| - i
  {
    if i < |s| && IsDigit(s[i]) then DigitsEnd(s, i + 1) else i
  }

  /** atol(): leading white space, an optional sign, then as many digits as follow. The
      strings this model passes are at most eight characters long, so the result never
      leaves the range of a 32-bit long. */
  function Atol(s: seq<char>): (n: int)
    ensures Abs(n) < Pow10(|s|)
  {
    var i := SpacesEnd(s, 0);
    var signed := i < |s| && (s[i] == '-' || s[i] == '+');
    var k := if signed then i + 1 else i;
    var j := DigitsEnd(s, k);
    var d := s[k..j];
    assert AllDigits(d) by {
      assert forall m :: 0 <= m < |d| ==> d[m] == s[k + m];
    }
    ValueBound(d);
    Pow10Monotone(|d|, |s|);
    var v: int := Value(d);
    if signed && s[i] == '-' then -v else v
  }

  // ---------------------------------------------------------------------------
  // snprintf with "%ld" and "%02ld"

  /** The decimal digits of n, with no leading zero. */
  function Digits(n: nat): (d: seq<char>)
    ensures |d| >= 1 && AllDigits(d) && Value(d) == n
    ensures |d| > 1 ==> d[0] != '0'
  {
    if n < 10 then
      [DigitChar(n)]
    else
      var d := Digits(n / 10) + [DigitChar(n % 10)];
      assert d[..|d| - 1] == Digits(n / 10);
      d
  }

  /** "%ld" */
  function Render(n: int): (t: seq<char>)
    ensures |t| >= 1 && (n < 0 <==> t[0] == '-')
  {
    if n < 0 then ['-'] + Digits(-n) else Digits(n)
  }

  /** "%02ld": at least two characters, zero-padded on the left. */
  function Render02(n: int): (t: seq<char>)
    ensures |t| >= 2
    ensures |t| > 2 ==> t == Render(n)
  {
    if 0 <= n < 10 then ['0'] + Digits(n) else Render(n)
  }

  /** The text snprintf leaves in a buffer of `size` bytes: the output cut to size - 1
      characters and terminated. */
  function Snprintf(out: seq<char>, size: nat): (b: seq<char>)
    requires size >= 1
    ensures 1 <= |b| <= size && b[|b| - 1] == NUL
  {
    (if |out| < size then out else out[..size - 1]) + [NUL]
  }

  /** A decimal string read back gives the number it was written from. */
  lemma AtolRender(n: int)
    ensures Atol(Render(n)) == n
  {
    if n < 0 {
      AtolOfNegative(Digits(-n));
    } else {
      AtolOfDigits(Digits(n));
    }
  }

  lemma AtolRender02(n: int)
    ensures Atol(Render02(n)) == n
  {
    if 0 <= n < 10 {
      var t := Render02(n);
      assert t == ['0'] + [DigitChar(n)];
      ValueAppend(['0'], DigitChar(n));
      assert ['0'][..0] == [];
      AtolOfDigits(t);
    } else {
      assert Render02(n) == Render(n);
      AtolRender(n);
    }
  }

  /** A digit string with no leading zero is what Digits writes for its value. */
  lemma {:induction false} DigitsOfValue(d: seq<char>)
    requires |d| >= 1 && AllDigits(d) && (|d| > 1 ==> d[0] != '0')
    ensures Digits(Value(d)) == d
    decreases |d|
  {
    if |d| > 1 {
      var p, c := d[..|d| - 1], d[|d| - 1];
      assert p[0] == d[0];
      DigitsOfValue(p);
      DigitsAppend(Value(p), c);
      assert d == p + [c];
    }
  }

  /** Appending a digit to a number's text multiplies it by ten and adds the digit. */
  lemma DigitsAppend(a: nat, c: char)
    requires a >= 1 && IsDigit(c)
    ensures Digits(a * 10 + DigitVal(c)) == Digits(a) + [c]
  {
    var n := a * 10 + DigitVal(c);
    assert n / 10 == a && n % 10 == DigitVal(c);
    assert DigitChar(DigitVal(c)) == c;
  }

  /** The number of digits grows with the number: Digits(n) has at most k digits
      exactly when n < 10^k. */
  lemma {:induction false} DigitsBounds(n: nat)
    ensures n < Pow10(|Digits(n)|)
    ensures |Digits(n)| > 1 ==> Pow10(|Digits(n)| - 1) <= n
  {
    ValueBound(Digits(n));
    if n >= 10 {
      DigitsBounds(n / 10);
      assert Digits(n)[..|Digits(n)| - 1] == Digits(n / 10);
    }
  }

  lemma DigitsLength(n: nat, k: nat)
    requires k >= 1
    ensures |Digits(n)| <= k <==> n < Pow10(k)
  {
    var d := Digits(n);
    DigitsBounds(n);
    if |d| <= k {
      Pow10Monotone(|d|, k);
    } else {
      Pow10Monotone(k, |d| - 1);
    }
  }

  // ---------------------------------------------------------------------------
  // The protocol's number text: tenths of a degree with the dot before the last digit.

  /** Insert the dot before the last character: "123" becomes "12.3". */
  function InsertDot(t: seq<char>): (s: seq<char>)
    requires |t| >= 1
    ensures |s| == |t| + 1 && s[|s| - 2] == '.'
  {
    t[..|t| - 1] + ['.', t[|t| - 1]]
  }

  /** Remove the character before the last one: "12.3" becomes "123". */
  function DropDot(s: seq<char>): (t: seq<char>)
    requires |s| >= 2
    ensures |t| == |s| - 1
  {
    s[..|s| - 2] + [s[|s| - 1]]
  }

  lemma DropInsert(t: seq<char>)
    requires |t| >= 1
    ensures DropDot(InsertDot(t)) == t
  {
    assert InsertDot(t)[..|t| - 1] == t[..|t| - 1];
  }

  lemma InsertDrop(s: seq<char>)
    requires |s| >= 2 && s[|s| - 2] == '.'
    ensures InsertDot(DropDot(s)) == s
  {
    var t := DropDot(s);
    assert t[..|t| - 1] == s[..|s| - 2];
    assert s == s[..|s| - 2] + [s[|s| - 2], s[|s| - 1]];
  }

  /** string_to_number on a string `s` (the text before its NUL): fewer than `max`
      characters, a dot before the last one, and the digits around the dot read as one
      integer. */
  function ParseDecimal(s: seq<char>, max: nat): (r: Option<int>)
    requires max >= 2
    ensures r.Some? <==> 2 <= |s| < max && s[|s| - 2] == '.'
    ensures r.Some? ==> Abs(r.value) < Pow10(max - 2)
  {
    if |s| >= max || |s| < 2 || s[|s| - 2] != '.' then None
    else
      Pow10Monotone(|s| - 1, max - 2);
      Some(Atol(DropDot(s)))
  }

  /** number_to_string into a buffer of `max` bytes: the number written with snprintf
      ("%02ld" when `padded`, "%ld" otherwise), refused when the text and its dot would
      not fit, and the dot inserted before the last digit. */
  function FormatDecimal(n: int, max: nat, padded: bool): (r: Option<seq<char>>)
    requires max >= 4
    ensures r.Some? ==> |r.value| + 1 <= max && |r.value| >= 2 && r.value[|r.value| - 2] == '.'
  {
    var t := if padded then Render02(n) else Render(n);
    if |t| >= max - 1 then None else Some(InsertDot(t))
  }

  /** The characters of the protocol's number text. */
  predicate NumberChar(c: char) { IsDigit(c) || c == '-' || c == '.' }

  /** What snprintf(s, size, ...) of the text `t` leaves, read back with
      strnlen(s, size - 1): the text, cut to size - 1 characters, whose length stays
      below size - 1 exactly when nothing was cut. */
  lemma PrintedText(t: seq<char>, s: seq<char>, size: nat)
    requires size >= 2 && 1 <= |t| && NoNul(t)
    requires var out := Snprintf(t, size); |s| == size && s[..|out|] == out
    ensures var len := StrNLen(s, size - 1);
      && 1 <= len <= size - 1
      && (len < size - 1 <==> |t| < size - 1)
      && (len < size - 1 ==> s[..len] == t)
  {
    var k := if |t| < size then |t| else size - 1;
    var out := Snprintf(t, size);
    assert out == t[..k] + [NUL];
    assert s[..k] == out[..k] == t[..k] && s[k] == NUL;
    if |t| < size - 1 {
      StrNLenOfText(s, size - 1, t);
    } else {
      assert forall i :: 0 <= i < size - 1 ==> s[i] == t[i];
      StrNLenIs(s, size - 1, size - 1);
    }
  }

  /** "%ld" and "%02ld" write only digits and a minus. */
  lemma RenderCharacters(n: int)
    ensures forall i :: 0 <= i < |Render(n)| ==> NumberChar(Render(n)[i]) && Render(n)[i] != '.'
    ensures forall i :: 0 <= i < |Render02(n)| ==> NumberChar(Render02(n)[i]) && Render02(n)[i] != '.'
  {
    var d := Digits(if n < 0 then -n else n);
    assert forall i :: 0 <= i < |d| ==> IsDigit(d[i]);
  }

  /** FormatDecimal writes only digits, a minus and the dot. */
  lemma FormatCharacters(n: int, max: nat, padded: bool)
    requires max >= 4 && FormatDecimal(n, max, padded).Some?
    ensures forall i :: 0 <= i < |FormatDecimal(n, max, padded).value| ==> NumberChar(FormatDecimal(n, max, padded).value[i])
    ensures NoNul(FormatDecimal(n, max, padded).value)
  {
    var t := if padded then Render02(n) else Render(n);
    RenderCharacters(n);
    var s := InsertDot(t);
    assert forall i :: 0 <= i < |s| ==> NumberChar(s[i]) by {
      assert forall i :: 0 <= i < |t| - 1 ==> s[i] == t[i];
    }
  }

  /** A number written by FormatDecimal reads back as itself. */
  lemma FormatParse(n: int, max: nat, padded: bool)
    requires max >= 4
    ensures FormatDecimal(n, max, padded).Some? ==>
      ParseDecimal(FormatDecimal(n, max, padded).value, max) == Some(n)
  {
    var t := if padded then Render02(n) else Render(n);
    if |t| < max - 1 {
      DropInsert(t);
      if padded { AtolRender02(n); } else { AtolRender(n); }
    }
  }

  /** FormatDecimal succeeds exactly for the numbers whose text fits: greater than
      -10^(max-3) and less than 10^(max-2). */
  lemma FormatRange(n: int, max: nat, padded: bool)
    requires max >= 4
    ensures FormatDecimal(n, max, padded).Some? <==> -(Pow10(max - 3) as int) < n < Pow10(max - 2)
  {
    var t := if padded then Render02(n) else Render(n);
    assert FormatDecimal(n, max, padded).Some? <==> |t| < max - 1;
    if n < 0 {
      RangeNegative(n, max, t);
    } else if padded && n < 10 {
      RangePadded(n, max);
    } else {
      RangeUnpadded(n, max, t);
    }
  }

  lemma RangeNegative(n: int, max: nat, t: seq<char>)
    requires max >= 4 && n < 0 && t == Render(n)
    ensures |t| < max - 1 <==> -(Pow10(max - 3) as int) < n
  {
    DigitsLength(-n, max - 3);
  }

  lemma RangePadded(n: nat, max: nat)
    requires max >= 4 && n < 10
    ensures n < Pow10(max - 2)
  {
    assert Pow10(1) == 10;
    Pow10Monotone(1, max - 2);
  }

  lemma RangeUnpadded(n: nat, max: nat, t: seq<char>)
    requires max >= 4 && t == Digits(n)
    ensures |t| < max - 1 <==> n < Pow10(max - 2)
  {
    DigitsLength(n, max - 2);
  }

  /** A digit string with at least one digit and no leading zero. */
  predicate NoLeadingZero(p: seq<char>)
  {
    |p| >= 1 && AllDigits(p) && p[0] != '0'
  }

  /** The texts FormatDecimal produces: an optional minus, the integer part, a dot and a
      digit. The integer part is empty ("%ld") or "0" ("%02ld") for numbers below ten
      and has no leading zero otherwise; "-.0" is not among them. */
  predicate Canonical(s: seq<char>, padded: bool)
  {
    && |s| >= 2 && s[|s| - 2] == '.' && IsDigit(s[|s| - 1])
    && var p := s[..|s| - 2];
    || p == (if padded then ['0'] else [])
    || NoLeadingZero(p)
    || (p == ['-'] && s[|s| - 1] != '0')
    || (|p| >= 2 && p[0] == '-' && NoLeadingZero(p[1..]))
  }

  /** atol of a digit string is its value. */
  lemma AtolOfDigits(d: seq<char>)
    requires |d| >= 1 && AllDigits(d)
    ensures Atol(d) == Value(d)
  {
    assert SpacesEnd(d, 0) == 0;
    assert DigitsEnd(d, 0) == |d|;
    assert d[0..|d|] == d;
  }

  /** atol of a minus and a digit string is the value negated. */
  lemma AtolOfNegative(d: seq<char>)
    requires AllDigits(d)
    ensures Atol(['-'] + d) == -(Value(d) as int)
  {
    var t := ['-'] + d;
    assert SpacesEnd(t, 0) == 0;
    assert forall k :: 1 <= k < |t| ==> IsDigit(t[k]) by {
      assert forall k :: 1 <= k < |t| ==> t[k] == d[k - 1];
    }
    assert DigitsEnd(t, 1) == |t|;
    assert t[1..|t|] == d;
  }

  /** Appending a digit multiplies the value by ten and adds the digit. */
  lemma ValueAppend(p: seq<char>, c: char)
    requires AllDigits(p) && IsDigit(c)
    ensures AllDigits(p + [c]) && Value(p + [c]) == Value(p) * 10 + DigitVal(c)
  {
    assert (p + [c])[..|p|] == p;
  }

  /** A digit string with no leading zero has a positive value. */
  lemma NoLeadingZeroPositive(p: seq<char>)
    requires NoLeadingZero(p)
    ensures Value(p) >= 1
  {
    DigitsOfValue(p);
  }

  /** A digit string of two or more digits with no leading zero is what "%ld" and
      "%02ld" write for its value. */
  lemma RenderUnsigned(t: seq<char>)
    requires NoLeadingZero(t) && |t| >= 2
    ensures Atol(t) >= 10 && Render(Atol(t)) == t && Render02(Atol(t)) == t
  {
    AtolOfDigits(t);
    DigitsOfValue(t);
    assert Pow10(1) == 10;
  }

  /** A minus and a digit string with no leading zero is what "%ld" and "%02ld" write
      for its value. */
  lemma RenderNegative(u: seq<char>)
    requires NoLeadingZero(u)
    ensures Atol(['-'] + u) < 0
    ensures Render(Atol(['-'] + u)) == ['-'] + u && Render02(Atol(['-'] + u)) == ['-'] + u
  {
    AtolOfNegative(u);
    NoLeadingZeroPositive(u);
    DigitsOfValue(u);
    RenderNegated(Value(u));
  }

  lemma RenderNegated(v: nat)
    requires v >= 1
    ensures Render(-(v as int)) == ['-'] + Digits(v) && Render02(-(v as int)) == ['-'] + Digits(v)
  {
    var n := -(v as int);
    assert n < 0 && -n == v;
    assert Render(n) == ['-'] + Digits(v);
  }

  lemma DigitRoundTrip(c: char)
    requires IsDigit(c)
    ensures DigitChar(DigitVal(c)) == c
  {
  }

  /** A single digit is what "%ld" writes for its value. */
  lemma RenderOneDigit(c: char)
    requires IsDigit(c)
    ensures Atol([c]) == DigitVal(c) && Render(DigitVal(c)) == [c]
  {
    AtolOfDigits([c]);
    ValueAppend([], c);
    assert [] + [c] == [c];
    DigitRoundTrip(c);
  }

  /** A zero and a digit is what "%02ld" writes for the digit's value. */
  lemma RenderPaddedDigit(c: char)
    requires IsDigit(c)
    ensures Atol(['0', c]) == DigitVal(c) && Render02(DigitVal(c)) == ['0', c]
  {
    AtolOfDigits(['0', c]);
    ValueAppend(['0'], c);
    assert ['0'] + [c] == ['0', c];
    RenderOneDigit('0');
    DigitRoundTrip(c);
  }

  /** printf of the number a canonical text's digits read as gives those digits back. */
  lemma RenderCanonical(s: seq<char>, padded: bool)
    requires Canonical(s, padded)
    ensures var n := Atol(DropDot(s));
      (if padded then Render02(n) else Render(n)) == DropDot(s)
  {
    var p := s[..|s| - 2];
    var c := s[|s| - 1];
    var t := DropDot(s);
    assert t == p + [c];
    if p == (if padded then ['0'] else []) {
      if padded {
        assert t == ['0', c];
        RenderPaddedDigit(c);
      } else {
        assert t == [c];
        RenderOneDigit(c);
      }
    } else if NoLeadingZero(p) {
      assert NoLeadingZero(t);
      RenderUnsigned(t);
    } else {
      assert t == ['-'] + t[1..];
      assert NoLeadingZero(t[1..]);
      RenderNegative(t[1..]);
    }
  }

  /** A canonical text reads as a number that FormatDecimal writes back to the same text. */
  lemma ParseFormat(s: seq<char>, max: nat, padded: bool)
    requires max >= 4 && Canonical(s, padded) && |s| < max
    ensures ParseDecimal(s, max).Some?
    ensures FormatDecimal(ParseDecimal(s, max).value, max, padded) == Some(s)
  {
    RenderCanonical(s, padded);
    InsertDrop(s);
  }

  // ---------------------------------------------------------------------------
  // string_to_number on a buffer, as the handlers call it on &command[2].

  datatype Parsed = Parsed(buf: seq<char>, number: Option<int>)

  /** strnlen(&buf[start], max) stays inside the buffer: the buffer has `max` places
      from `start` on, or a NUL before its end. */
  predicate Readable(buf: seq<char>, start: nat, max: nat)
  {
    start <= |buf| && (start + max <= |buf| || StrNLen(buf[start..], max) < |buf| - start)
  }

  /** The C string at `start`, read with strnlen(&buf[start], max). */
  function TextAt(buf: seq<char>, start: nat, max: nat): (s: seq<char>)
    requires start <= |buf|
    ensures |s| <= max && forall i :: 0 <= i < |s| ==> s[i] != NUL
  {
    buf[start..start + StrNLen(buf[start..], max)]
  }

  /** A text with no NUL in it. */
  predicate NoNul(s: seq<char>)
  {
    forall i :: 0 <= i < |s| ==> s[i] != NUL
  }

  /** A buffer that starts with a text without NUL and then a NUL holds that C string. */
  lemma StrNLenOfText(buf: seq<char>, max: nat, s: seq<char>)
    requires |s| < max && |s| < |buf| && buf[..|s|] == s && buf[|s|] == NUL && NoNul(s)
    ensures StrNLen(buf, max) == |s|
  {
    assert forall i :: 0 <= i < |s| ==> buf[i] == s[i];
    StrNLenIs(buf, max, |s|);
  }

  /** A text without NUL stored at `start` and ended by a NUL is the C string read there. */
  lemma TextAtIs(buf: seq<char>, start: nat, max: nat, s: seq<char>)
    requires start + max <= |buf| && |s| < max && start + |s| < |buf|
    requires buf[start..start + |s|] == s && buf[start + |s|] == NUL && NoNul(s)
    ensures TextAt(buf, start, max) == s
  {
    var tail := buf[start..];
    assert tail[..|s|] == s;
    StrNLenOfText(tail, max, s);
  }

  /** The dot written before the last character of `t`, and a NUL after it. */
  lemma DotInserted(t: seq<char>, s: seq<char>)
    requires 1 <= |t| && |t| + 1 < |s|
    requires s[..|t| - 1] == t[..|t| - 1] && s[|t| - 1] == '.' && s[|t|] == t[|t| - 1]
    ensures s[..|t| + 1] == InsertDot(t)
  {
  }

  /** number_to_string's edit of a buffer of `max` bytes that holds the text `t`: the
      last character moved up, the dot written in its place and a NUL after it. The
      buffer then holds `t` with its dot as a C string. */
  lemma DottedText(t: seq<char>, before: seq<char>, s: seq<char>, max: nat)
    requires 1 <= |t| && |t| + 1 < max && |before| == max
    requires before[..|t|] == t && NoNul(t)
    requires var k := |t|; s == before[k := before[k - 1]][k - 1 := '.'][k + 1 := NUL]
    ensures var text := InsertDot(t);
      StrNLen(s, max) == |text| && s[..|text|] == text && NoNul(text)
  {
    var text := InsertDot(t);
    assert s[..|t| - 1] == t[..|t| - 1] by {
      assert s[..|t| - 1] == before[..|t| - 1];
    }
    DotInserted(t, s);
    StrNLenOfText(s, max, text);
  }

  /** The three writes of number_to_string after snprintf: the last of the `len` characters moves up
      one place, the dot takes its place and a NUL follows. */
  method WriteDot(a: array<char>, len: nat)
    requires 1 <= len && len + 1 < a.Length
    modifies a
    ensures a[..] == old(a[..])[len := old(a[len - 1])][len - 1 := '.'][len + 1 := NUL]
  {
    a[len] := a[len - 1];
    a[len - 1] := '.';
    a[len + 1] := NUL;
  }

  /** `after` is `before` with the dot of the `len` characters at `start` squeezed out
      and a NUL in the freed place; nothing else differs. */
  predicate DotSqueezed(before: seq<char>, after: seq<char>, start: nat, len: nat)
    requires len >= 2 && start + len <= |before| == |after|
  {
    && after[start..start + len - 1] == DropDot(before[start..start + len])
    && after[start + len - 1] == NUL
    && forall i :: 0 <= i < |before| && !(start <= i < start + len) ==> after[i] == before[i]
  }

  /** The two writes that squeeze out the dot: the last character moves one place left
      and a NUL takes its place. With a text shorter than two characters they land on
      the characters before `start`. */
  function SqueezeDot(buf: seq<char>, start: nat, len: nat): seq<char>
    requires 2 <= start && start + len <= |buf|
  {
    buf[start + len - 2 := buf[start + len - 1]][start + len - 1 := NUL]
  }

  lemma SqueezedBuffer(buf: seq<char>, start: nat, len: nat)
    requires 2 <= start && len >= 2 && start + len <= |buf|
    ensures DotSqueezed(buf, SqueezeDot(buf, start, len), start, len)
  {
    var b := SqueezeDot(buf, start, len);
    assert b[start..start + len - 1] == buf[start..start + len - 2] + [buf[start + len - 1]];
  }

  /** After the squeeze, strnlen and atol see the text without its dot. */
  lemma SqueezedText(buf: seq<char>, start: nat, max: nat)
    requires 2 <= start <= |buf| && max >= 2
    requires StrNLen(buf[start..], max) < max
    ensures var len := StrNLen(buf[start..], max);
      TextAt(SqueezeDot(buf, start, len), start, max) == (if len >= 2 then DropDot(buf[start..start + len]) else [])
    ensures var len := StrNLen(buf[start..], max);
      len >= 2 ==> DotSqueezed(buf, SqueezeDot(buf, start, len), start, len)
  {
    var len := StrNLen(buf[start..], max);
    var b := SqueezeDot(buf, start, len);
    if len >= 2 {
      SqueezedBuffer(buf, start, len);
      assert forall i :: 0 <= i < len - 1 ==> b[start..][i] == b[start + i];
      StrNLenIs(b[start..], max, len - 1);
    } else {
      StrNLenIs(b[start..], max, 0);
    }
  }

  /** The dot test on the buffer is the dot test on the text, when the two characters
      before the text are no dots. */
  lemma DotTestOnText(buf: seq<char>, start: nat, max: nat)
    requires 2 <= start <= |buf| && max >= 2
    ensures var len := StrNLen(buf[start..], max);
      var s := TextAt(buf, start, max);
      |s| == len && (buf[start - 2] != '.' && buf[start - 1] != '.' ==>
        (buf[start + len - 2] == '.' <==> |s| >= 2 && s[|s| - 2] == '.'))
  {
  }

  /** string_to_number(&buf[start], number) with MAX_NUMBER_STRING_SIZE `max`: on success
      the dot is squeezed out of the text in the buffer and the digits read with atol.
      A text shorter than two characters makes the dot test read the one or two
      characters before `start`. */
  function StringToNumber(buf: seq<char>, start: nat, max: nat): (r: Parsed)
    requires 2 <= start && Readable(buf, start, max) && max >= 2
    ensures |r.buf| == |buf|
    ensures r.number.None? ==> r.buf == buf
    // the text before `start` holds no dot (as after "AZ"): the plain string reading
    ensures buf[start - 2] != '.' && buf[start - 1] != '.' ==>
      r.number == ParseDecimal(TextAt(buf, start, max), max)
    // on success the text without its dot is left behind as a C string
    ensures r.number.Some? && |TextAt(buf, start, max)| >= 2 ==>
      DotSqueezed(buf, r.buf, start, |TextAt(buf, start, max)|)
  {
    var len := StrNLen(buf[start..], max);
    DotTestOnText(buf, start, max);
    if len >= max then Parsed(buf, None)
    else if buf[start + len - 2] != '.' then Parsed(buf, None)
    else
      var b := SqueezeDot(buf, start, len);
      SqueezedText(buf, start, max);
      assert buf[start - 2] != '.' && buf[start - 1] != '.' ==>
        ParseDecimal(TextAt(buf, start, max), max) == Some(Atol(TextAt(b, start, max))) by {
        if buf[start - 2] != '.' && buf[start - 1] != '.' {
          ParseOfSqueezed(buf, start, max);
        }
      }
      Parsed(b, Some(Atol(TextAt(b, start, max))))
  }

  /** After two characters that are no dots, the one-decimal reading of a text with a
      dot before its last character is atol of the text squeezed in the buffer. */
  lemma ParseOfSqueezed(buf: seq<char>, start: nat, max: nat)
    requires 2 <= start <= |buf| && max >= 2 && buf[start - 2] != '.' && buf[start - 1] != '.'
    requires var len := StrNLen(buf[start..], max); len < max && buf[start + len - 2] == '.'
    ensures var len := StrNLen(buf[start..], max);
      ParseDecimal(TextAt(buf, start, max), max) == Some(Atol(TextAt(SqueezeDot(buf, start, len), start, max)))
  {
    DotTestOnText(buf, start, max);
    SqueezedText(buf, start, max);
  }

  /** What a successful string_to_number reads: the text at `start` with its dot
      squeezed out. */
  lemma StringToNumberReads(buf: seq<char>, start: nat, max: nat)
    requires 2 <= start && Readable(buf, start, max) && max >= 2
    ensures var len := StrNLen(buf[start..], max);
      StringToNumber(buf, start, max).number.Some? ==>
        len < max && StringToNumber(buf, start, max).number ==
          Some(Atol(TextAt(SqueezeDot(buf, start, len), start, max)))
  {
  }

  /** atol of at most `k` characters stays below 10^k in magnitude. */
  lemma AtolBound(text: seq<char>, k: nat)
    requires |text| <= k
    ensures Abs(Atol(text)) < Pow10(k)
  {
    Pow10Monotone(|text|, k);
  }

  /** The text left after the squeeze has at most max - 2 characters. */
  lemma SqueezedLength(buf: seq<char>, start: nat, max: nat)
    requires 2 <= start <= |buf| && max >= 2
    requires StrNLen(buf[start..], max) < max
    ensures var len := StrNLen(buf[start..], max);
      |TextAt(SqueezeDot(buf, start, len), start, max)| <= max - 2
  {
    SqueezedText(buf, start, max);
  }

  /** A number string_to_number accepts is atol of a text of at most max - 2 characters. */
  lemma StringToNumberText(buf: seq<char>, start: nat, max: nat) returns (text: seq<char>)
    requires 2 <= start && Readable(buf, start, max) && max >= 2
    ensures StringToNumber(buf, start, max).number.Some? ==>
      |text| <= max - 2 && StringToNumber(buf, start, max).number == Some(Atol(text))
  {
    var len := StrNLen(buf[start..], max);
    StringToNumberReads(buf, start, max);
    text := [];
    if StringToNumber(buf, start, max).number.Some? {
      SqueezedLength(buf, start, max);
      text := TextAt(SqueezeDot(buf, start, len), start, max);
    }
  }

  /** string_to_number leaves at most max - 2 digits to read, whatever precedes the text. */
  lemma StringToNumberBound(buf: seq<char>, start: nat, max: nat)
    requires 2 <= start && Readable(buf, start, max) && max >= 2
    ensures var r := StringToNumber(buf, start, max);
      r.number.Some? ==> Abs(r.number.value) < Pow10(max - 2)
  {
    var text := StringToNumberText(buf, start, max);
    if StringToNumber(buf, start, max).number.Some? {
      AtolBound(text, max - 2);
    }
  }
}
