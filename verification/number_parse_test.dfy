/** The number conversions of tests/test_number_parse.c: string_to_number and
    number_to_string with a 10-byte bound, where parsing multiplies the number read by
    ten and formatting divides by ten, truncating toward zero, before writing one
    decimal. Both work in place on the caller's char array; `main` runs one of each. */
module NumberParseTest {
  import opened AxisCommon
  import opened CText

  const MAX_NUMBER_STRING_SIZE: nat := 10

  // ---------------------------------------------------------------------------
  // The two conversions as functions.

  /** string_to_number(&buf[start], number): the handlers' parse with the 10-byte bound,
      the number read multiplied by ten. It always fits the int32 result. */
  function Parse(buf: seq<char>, start: nat): (r: Parsed)
    requires 2 <= start && Readable(buf, start, MAX_NUMBER_STRING_SIZE)
    ensures |r.buf| == |buf| && (r.number.None? ==> r.buf == buf)
    ensures r.number.Some? ==> IsInt32(r.number.value)
    // after two characters that are no dots, the one-decimal reading of the text, times ten
    ensures buf[start - 2] != '.' && buf[start - 1] != '.' ==>
      var q := ParseDecimal(TextAt(buf, start, MAX_NUMBER_STRING_SIZE), MAX_NUMBER_STRING_SIZE);
      r.number == (if q.Some? then Some(q.value * 10) else None)
    // on success the text without its dot is left behind as a C string
    ensures r.number.Some? && |TextAt(buf, start, MAX_NUMBER_STRING_SIZE)| >= 2 ==>
      DotSqueezed(buf, r.buf, start, |TextAt(buf, start, MAX_NUMBER_STRING_SIZE)|)
  {
    var p := CText.StringToNumber(buf, start, MAX_NUMBER_STRING_SIZE);
    StringToNumberBound(buf, start, MAX_NUMBER_STRING_SIZE);
    assert Pow10(8) == 100000000;
    Parsed(p.buf, if p.number.Some? then Some(p.number.value * 10) else None)
  }

  /** number_to_string(number, string): the number divided by ten, truncating toward
      zero (the rounding term is commented out), written with "%ld", refused from nine
      characters on, and the dot inserted before the last digit. */
  function Format(n: int): (r: Option<seq<char>>)
    ensures r.Some? <==> -10000000 < TruncDiv(n, 10) < 100000000
    ensures r.Some? ==> 2 <= |r.value| < MAX_NUMBER_STRING_SIZE && NoNul(r.value)
    ensures r.Some? ==> ParseDecimal(r.value, MAX_NUMBER_STRING_SIZE) == Some(TruncDiv(n, 10))
  {
    var scaled := TruncDiv(n, 10);
    FormatRange(scaled, MAX_NUMBER_STRING_SIZE, false);
    assert Pow10(7) == 10000000 && Pow10(8) == 100000000;
    FormatParse(scaled, MAX_NUMBER_STRING_SIZE, false);
    var r := FormatDecimal(scaled, MAX_NUMBER_STRING_SIZE, false);
    assert r.Some? ==> NoNul(r.value) by {
      if r.Some? {
        FormatCharacters(scaled, MAX_NUMBER_STRING_SIZE, false);
      }
    }
    r
  }

  // ---------------------------------------------------------------------------
  // Round trips.

  /** The text `s` of a formatted number, stored as a C string after two characters
      that are no dots, parses back to the number with its last digit dropped toward
      zero. */
  lemma ParseOfFormat(buf: seq<char>, start: nat, n: int, s: seq<char>)
    requires 2 <= start && Format(n) == Some(s)
    requires start + |s| < |buf| && buf[start..start + |s|] == s && buf[start + |s|] == NUL
    requires buf[start - 2] != '.' && buf[start - 1] != '.'
    ensures Readable(buf, start, MAX_NUMBER_STRING_SIZE) && TextAt(buf, start, MAX_NUMBER_STRING_SIZE) == s
    ensures Parse(buf, start).number == Some(TruncDiv(n, 10) * 10)
  {
    StoredText(buf, start, s);
  }

  /** A canonical one-decimal text, stored as a C string after two characters that are
      no dots, parses and formats back to itself: the multiplication and the division by
      ten cancel. */
  lemma FormatOfParse(buf: seq<char>, start: nat, s: seq<char>)
    requires Canonical(s, false) && |s| < MAX_NUMBER_STRING_SIZE && 2 <= start
    requires start + |s| < |buf| && buf[start..start + |s|] == s && buf[start + |s|] == NUL
    requires buf[start - 2] != '.' && buf[start - 1] != '.'
    ensures Readable(buf, start, MAX_NUMBER_STRING_SIZE) && Parse(buf, start).number.Some?
    ensures Format(Parse(buf, start).number.value) == Some(s)
  {
    CanonicalHasNoNul(s);
    StoredText(buf, start, s);
    ParseFormat(s, MAX_NUMBER_STRING_SIZE, false);
    var v := ParseDecimal(s, MAX_NUMBER_STRING_SIZE).value;
    assert TruncDiv(v * 10, 10) == v;
  }

  /** A text without NUL, stored at `start` and ended by a NUL, is the C string read there,
      wherever the buffer ends. */
  lemma StoredText(buf: seq<char>, start: nat, s: seq<char>)
    requires |s| < MAX_NUMBER_STRING_SIZE && start + |s| < |buf| && NoNul(s)
    requires buf[start..start + |s|] == s && buf[start + |s|] == NUL
    ensures Readable(buf, start, MAX_NUMBER_STRING_SIZE) && TextAt(buf, start, MAX_NUMBER_STRING_SIZE) == s
  {
    var tail := buf[start..];
    assert tail[..|s|] == s && tail[|s|] == NUL;
    StrNLenOfText(tail, MAX_NUMBER_STRING_SIZE, s);
  }

  /** A canonical text holds digits, a minus and a dot only. */
  lemma CanonicalHasNoNul(s: seq<char>)
    requires Canonical(s, false)
    ensures NoNul(s)
  {
    var p := s[..|s| - 2];
    forall i | 0 <= i < |s|
      ensures s[i] != NUL
    {
      if i < |s| - 2 {
        assert s[i] == p[i];
        if p[0] == '-' && i >= 1 {
          assert s[i] == p[1..][i - 1];
        }
      }
    }
  }

  // ---------------------------------------------------------------------------
  // The two runs of main.

  /** "AZ-238.0" in the 10-byte numberstring, parsed from index 2: -23800, and the
      array left holding the C string "AZ-2380". */
  lemma ParseExample(buf: seq<char>)
    requires buf == "AZ-238.0" + [NUL, NUL]
    ensures Readable(buf, 2, MAX_NUMBER_STRING_SIZE)
    ensures Parse(buf, 2).number == Some(-23800)
    ensures TextAt(Parse(buf, 2).buf, 0, MAX_NUMBER_STRING_SIZE) == "AZ-2380"
  {
    var s := "-238.0";
    FormattedSetpoint();
    SetpointText(buf);
    ParseOfFormat(buf, 2, -23800, s);
    SqueezedExample(buf, Parse(buf, 2).buf);
  }

  /** Where "-238.0" lies in the numberstring. */
  lemma SetpointText(buf: seq<char>)
    requires buf == "AZ-238.0" + [NUL, NUL]
    ensures buf[2..8] == "-238.0" && buf[8] == NUL && buf[0] == 'A' && buf[1] == 'Z'
  {
    assert forall i :: 0 <= i < 6 ==> buf[2..8][i] == "-238.0"[i];
  }

  /** -23800 is formatted as "-238.0", the text the parse starts from. */
  lemma FormattedSetpoint()
    ensures Format(-23800) == Some("-238.0")
  {
    assert Render(-2380) == "-2380" by {
      assert DigitChar(2) == '2' && DigitChar(3) == '3' && DigitChar(8) == '8' && DigitChar(0) == '0';
      assert Digits(23) == Digits(2) + [DigitChar(3)];
      assert Digits(238) == Digits(23) + [DigitChar(8)];
      assert Digits(2380) == Digits(238) + [DigitChar(0)];
    }
    assert InsertDot("-2380") == "-238.0";
  }

  /** The dot squeezed out of "AZ-238.0" leaves the C string "AZ-2380". */
  lemma SqueezedExample(buf: seq<char>, after: seq<char>)
    requires buf == "AZ-238.0" + [NUL, NUL] && |after| == |buf|
    requires DotSqueezed(buf, after, 2, 6)
    ensures TextAt(after, 0, MAX_NUMBER_STRING_SIZE) == "AZ-2380"
  {
    var text := "AZ-2380";
    assert DropDot(buf[2..8]) == "-2380";
    assert after[..7] == text by {
      assert after[..7] == after[..2] + after[2..7];
    }
    assert NoNul(text);
    assert after[..][0..] == after;
    StrNLenOfText(after, MAX_NUMBER_STRING_SIZE, text);
  }

  /** -35000 is formatted as "-350.0". */
  lemma FormatExample()
    ensures Format(-35000) == Some("-350.0")
  {
    assert TruncDiv(-35000, 10) == -3500;
    assert Render(-3500) == "-3500" by {
      assert DigitChar(3) == '3' && DigitChar(5) == '5' && DigitChar(0) == '0';
      assert Digits(35) == Digits(3) + [DigitChar(5)];
      assert Digits(350) == Digits(35) + [DigitChar(0)];
      assert Digits(3500) == Digits(350) + [DigitChar(0)];
    }
    assert InsertDot("-3500") == "-350.0";
  }

  // ---------------------------------------------------------------------------
  // The two conversions on the caller's array.

  /** string_to_number(&a[start], number): strnlen, the dot test, the dot squeezed out in
      place, then atol times ten. */
  method StringToNumber(a: array<char>, start: nat) returns (ok: bool, number: int)
    requires 2 <= start && Readable(a[..], start, MAX_NUMBER_STRING_SIZE)
    modifies a
    ensures var p := Parse(old(a[..]), start);
      a[..] == p.buf && ok == p.number.Some? && (ok ==> number == p.number.value)
  {
    var len := CStrNLen(a, start, MAX_NUMBER_STRING_SIZE);
    assert a[..][start..] == a[start..];
    if len >= MAX_NUMBER_STRING_SIZE {
      return false, 0;
    }
    if a[start + len - 2] != '.' {
      return false, 0;
    }
    a[start + len - 2] := a[start + len - 1];
    a[start + len - 1] := NUL;
    assert a[..] == SqueezeDot(old(a[..]), start, len);
    number := Atol(TextAt(a[..], start, MAX_NUMBER_STRING_SIZE)) * 10;
    ok := true;
  }

  /** snprintf(string, MAX_NUMBER_STRING_SIZE, "%ld", scaled): the text, cut to nine
      characters, and a NUL; the rest of the array keeps what it held. */
  method PrintNumber(scaled: int, a: array<char>)
    requires a.Length == MAX_NUMBER_STRING_SIZE
    modifies a
    ensures var out := Snprintf(Render(scaled), MAX_NUMBER_STRING_SIZE);
      a[..|out|] == out && a[|out|..] == old(a[..])[|out|..]
  {
    var out := Snprintf(Render(scaled), MAX_NUMBER_STRING_SIZE);
    forall i | 0 <= i < |out| {
      a[i] := out[i];
    }
    assert a[..|out|] == out;
    assert a[|out|..] == old(a[..])[|out|..];
  }

  /** Format as the text snprintf writes: refused from nine characters on, otherwise
      that text with its dot. */
  lemma FormatText(n: int)
    ensures var t := Render(TruncDiv(n, 10));
      Format(n) == if |t| >= MAX_NUMBER_STRING_SIZE - 1 then None else Some(InsertDot(t))
  {
  }

  /** The text `text` written as a C string over the start of `buf`, the rest of `buf`
      as it was. */
  function Stored(text: seq<char>, buf: seq<char>): seq<char>
    requires |text| < |buf|
  {
    text + [NUL] + buf[|text| + 1..]
  }

  /** A buffer that holds `text`, a NUL and then what `buf` held there is `text` stored
      over `buf`. */
  lemma IsStored(text: seq<char>, buf: seq<char>, s: seq<char>)
    requires |text| < |s| == |buf| && s[..|text|] == text && s[|text|] == NUL
    requires s[|text| + 1..] == buf[|text| + 1..]
    ensures s == Stored(text, buf)
  {
    assert s == s[..|text|] + [s[|text|]] + s[|text| + 1..];
  }

  /** number_to_string(number, string) into the caller's 10-byte array: snprintf of the
      divided number, strnlen, the length test, and the dot written in place. On refusal
      the array holds what snprintf wrote. */
  method NumberToString(n: int, a: array<char>) returns (ok: bool)
    requires a.Length == MAX_NUMBER_STRING_SIZE
    modifies a
    ensures ok == Format(n).Some?
    ensures ok ==> a[..] == Stored(Format(n).value, old(a[..]))
    ensures !ok ==> a[..] == Snprintf(Render(TruncDiv(n, 10)), MAX_NUMBER_STRING_SIZE)
  {
    var t := Render(TruncDiv(n, 10));
    FormatText(n);
    PrintNumber(TruncDiv(n, 10), a);
    RenderCharacters(TruncDiv(n, 10));
    var len := CStrNLen(a, 0, MAX_NUMBER_STRING_SIZE - 1);
    PrintedText(t, a[..], MAX_NUMBER_STRING_SIZE);
    if len >= MAX_NUMBER_STRING_SIZE - 1 {
      assert a[..] == a[..|Snprintf(t, MAX_NUMBER_STRING_SIZE)|];
      return false;
    }
    ghost var before := a[..];
    WriteDot(a, len);
    ok := true;
    DotStored(t, old(a[..]), before, a[..]);
  }

  /** snprintf's text `t` over `buf`, then the three writes of number_to_string: `t` with
      its dot stored over `buf`. */
  lemma DotStored(t: seq<char>, buf: seq<char>, before: seq<char>, s: seq<char>)
    requires 1 <= |t| < MAX_NUMBER_STRING_SIZE - 1 && NoNul(t) && |buf| == MAX_NUMBER_STRING_SIZE
    requires var out := Snprintf(t, MAX_NUMBER_STRING_SIZE);
      |before| == |buf| && before[..|out|] == out && before[|out|..] == buf[|out|..]
    requires var k := |t|; s == before[k := before[k - 1]][k - 1 := '.'][k + 1 := NUL]
    ensures s == Stored(InsertDot(t), buf)
  {
    var k := |t|;
    assert before[..k] == t;
    DottedText(t, before, s, MAX_NUMBER_STRING_SIZE);
    assert before[k + 1..] == buf[k + 1..];
    assert s[k + 2..] == buf[k + 2..] by {
      assert s[k + 2..] == before[k + 2..];
    }
    IsStored(InsertDot(t), buf, s);
  }

  /** main's first half: "AZ-238.0" in a 10-byte array, parsed from index 2. Returns the
      number read and the array after the parse, read as a C string. */
  method ParseRun() returns (parsedBuffer: seq<char>, number: int)
    ensures parsedBuffer == "AZ-2380" && number == -23800
  {
    var init := "AZ-238.0" + [NUL, NUL];
    var numberstring := new char[MAX_NUMBER_STRING_SIZE](i requires 0 <= i < |init| => init[i]);
    assert numberstring[..] == init;
    ParseExample(numberstring[..]);
    var ok;
    ok, number := StringToNumber(numberstring, 2);
    var len := CStrNLen(numberstring, 0, MAX_NUMBER_STRING_SIZE);
    parsedBuffer := numberstring[..len];
  }

  /** main's second half: -35000 formatted into a 10-byte array whose contents `junk`
      are indeterminate. Returns the array afterwards, read as a C string. */
  method FormatRun(junk: seq<char>) returns (formatted: seq<char>)
    requires |junk| == MAX_NUMBER_STRING_SIZE
    ensures formatted == "-350.0"
  {
    var numberstring2 := new char[MAX_NUMBER_STRING_SIZE](i requires 0 <= i < |junk| => junk[i]);
    var ok := NumberToString(-35000, numberstring2);
    FormatExample();
    var len2 := CStrNLen(numberstring2, 0, MAX_NUMBER_STRING_SIZE);
    var text := "-350.0";
    assert numberstring2[..][..|text|] == text;
    StrNLenOfText(numberstring2[..], MAX_NUMBER_STRING_SIZE, text);
    formatted := numberstring2[..len2];
  }

  /** main: one parse and one format, with what the two cout lines show as C strings
      beside the number. */
  method RunMain(junk: seq<char>) returns (parsedBuffer: seq<char>, number: int, formatted: seq<char>)
    requires |junk| == MAX_NUMBER_STRING_SIZE
    ensures parsedBuffer == "AZ-2380" && number == -23800 && formatted == "-350.0"
  {
    parsedBuffer, number := ParseRun();
    formatted := FormatRun(junk);
  }
}
