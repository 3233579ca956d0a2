/** The command handler of the first iteration, easycomm_handler.cpp with its 64-byte
    receive buffer, as functions: how update() frames the serial input into a command,
    what the command does to the two axes, and the reply written back. The handler
    object with its static buffer is in module LegacyEasyCommHandler. */
module LegacyEasyComm {
  import opened AxisCommon
  import opened CText
  import E = EasyComm
  import M = LegacyMotor

  const BUF_SIZE: nat := 64
  const MAX_NUMBER_STRING_SIZE: nat := 6

  // ---------------------------------------------------------------------------
  // Framing: the read loop of update().

  /** Why the read loop stopped: the input ran out, the byte just stored filled the
      last place of the buffer, or the byte just stored was a terminator. */
  datatype Stop = InputEnd | BufferFull | Terminator

  /** The buffer after the read loop, the index it left (for a terminator, the place the
      terminator is stored, where handle_command finds it), the characters read and why
      the loop stopped. */
  datatype Framed = Framed(buf: seq<char>, index: nat, consumed: nat, stop: Stop)

  /** The read loop of update() on the characters `input` the serial port has: each is
      stored at the index before it is looked at, so a byte landing in the last place
      empties the buffer even when it is a terminator. ReceiveStores says where the
      characters go. */
  function Receive(buf: seq<char>, index: nat, input: seq<char>): (r: Framed)
    requires |buf| == BUF_SIZE && index < BUF_SIZE
    ensures |r.buf| == BUF_SIZE && r.index < BUF_SIZE
    ensures r.consumed <= |input| && index + r.consumed <= BUF_SIZE
    ensures r.stop.Terminator? ==> E.IsTerminator(r.buf[r.index])
    decreases |input|
  {
    if input == [] then Framed(buf, index, 0, InputEnd)
    else
      var c := input[0];
      var b := buf[index := c];
      if index == BUF_SIZE - 1 then Framed(b, 0, 1, BufferFull)
      else if E.IsTerminator(c) then Framed(b, index, 1, Terminator)
      else
        var r := Receive(b, index + 1, input[1..]);
        r.(consumed := r.consumed + 1)
  }

  /** How a read ends: the input ran out with no terminator as its last character, the
      last place of the buffer was filled, or a terminator was stored at the index that
      is left pointing at it. */
  lemma {:induction false} ReceiveEnds(buf: seq<char>, index: nat, input: seq<char>)
    requires |buf| == BUF_SIZE && index < BUF_SIZE
    ensures var r := Receive(buf, index, input);
      && (r.stop.InputEnd? ==>
            r.consumed == |input| && r.index == index + |input| && (|input| == 0 || !E.IsTerminator(input[|input| - 1])))
      && (r.stop.BufferFull? ==> r.consumed >= 1 && index + r.consumed == BUF_SIZE && r.index == 0)
      && (r.stop.Terminator? ==>
            && r.consumed >= 1 && r.index == index + r.consumed - 1 && r.index < BUF_SIZE - 1
            && E.IsTerminator(input[r.consumed - 1]) && r.buf[r.index] == input[r.consumed - 1])
    decreases |input|
  {
    if input != [] && index < BUF_SIZE - 1 && !E.IsTerminator(input[0]) {
      var b := buf[index := input[0]];
      ReceiveStep(buf, index, input);
      ReceiveEnds(b, index + 1, input[1..]);
      var r := Receive(b, index + 1, input[1..]);
      assert r.consumed >= 1 ==> input[r.consumed] == input[1..][r.consumed - 1];
      assert |input| >= 2 ==> input[|input| - 1] == input[1..][|input| - 2];
    }
  }

  /** One step of the read loop, unfolded. */
  lemma ReceiveStep(buf: seq<char>, index: nat, input: seq<char>)
    requires |buf| == BUF_SIZE && index < BUF_SIZE && input != []
    ensures var b := buf[index := input[0]];
      Receive(buf, index, input) ==
        if index == BUF_SIZE - 1 then Framed(b, 0, 1, BufferFull)
        else if E.IsTerminator(input[0]) then Framed(b, index, 1, Terminator)
        else var r := Receive(b, index + 1, input[1..]); r.(consumed := r.consumed + 1)
  {
  }

  /** A read takes in at most one command: no character before the last one read is a
      terminator. */
  lemma {:induction false} ReceiveOneCommand(buf: seq<char>, index: nat, input: seq<char>)
    requires |buf| == BUF_SIZE && index < BUF_SIZE
    ensures var r := Receive(buf, index, input);
      forall i :: 0 <= i < r.consumed - 1 ==> !E.IsTerminator(input[i])
    decreases |input|
  {
    if input != [] && index < BUF_SIZE - 1 && !E.IsTerminator(input[0]) {
      var b := buf[index := input[0]];
      ReceiveStep(buf, index, input);
      ReceiveOneCommand(b, index + 1, input[1..]);
      var r := Receive(b, index + 1, input[1..]);
      forall i | 1 <= i < r.consumed
        ensures !E.IsTerminator(input[i])
      {
        assert input[i] == input[1..][i - 1];
      }
    }
  }

  /** The read loop's invariant carried over one stored character that neither fills the
      buffer nor ends the command: `f` is the whole read, `consumed` characters of which
      are already done. */
  lemma ReceiveAdvance(f: Framed, buf: seq<char>, index: nat, input: seq<char>, consumed: nat)
    requires |buf| == BUF_SIZE && index < BUF_SIZE - 1 && input != [] && !E.IsTerminator(input[0])
    requires var r := Receive(buf, index, input); f == r.(consumed := r.consumed + consumed)
    ensures var r := Receive(buf[index := input[0]], index + 1, input[1..]);
      f == r.(consumed := r.consumed + (consumed + 1))
  {
    ReceiveStep(buf, index, input);
  }

  /** Every character read is stored after the ones already there, and nothing else in
      the buffer changes. */
  lemma {:induction false} ReceiveStores(buf: seq<char>, index: nat, input: seq<char>)
    requires |buf| == BUF_SIZE && index < BUF_SIZE
    ensures var r := Receive(buf, index, input);
      && r.buf[..index + r.consumed] == buf[..index] + input[..r.consumed]
      && r.buf[index + r.consumed..] == buf[index + r.consumed..]
    decreases |input|
  {
    ReceiveKeeps(buf, index, input);
    if input == [] {
      assert buf[..index] + input[..0] == buf[..index];
    } else {
      ReceiveStep(buf, index, input);
      E.FirstStored(buf, index, input);
      if index < BUF_SIZE - 1 && !E.IsTerminator(input[0]) {
        var b := buf[index := input[0]];
        ReceiveStores(b, index + 1, input[1..]);
        var r := Receive(b, index + 1, input[1..]);
        E.TailStored(buf[..index], input, r.buf[..index + 1 + r.consumed], r.consumed);
      }
    }
  }

  /** The read loop leaves the buffer after the characters it stored as it was. */
  lemma {:induction false} ReceiveKeeps(buf: seq<char>, index: nat, input: seq<char>)
    requires |buf| == BUF_SIZE && index < BUF_SIZE
    ensures var r := Receive(buf, index, input);
      r.buf[index + r.consumed..] == buf[index + r.consumed..]
    decreases |input|
  {
    if input != [] {
      var c := input[0];
      var b := buf[index := c];
      assert b[index + 1..] == buf[index + 1..];
      ReceiveStep(buf, index, input);
      if index < BUF_SIZE - 1 && !E.IsTerminator(c) {
        ReceiveKeeps(b, index + 1, input[1..]);
        var r := Receive(b, index + 1, input[1..]);
        assert b[index + 1 + r.consumed..] == buf[index + 1 + r.consumed..];
      }
    }
  }

  /** A terminator that lands in the last place of the buffer is dropped with the
      partial command before it: the loop reports a full buffer, not a command. */
  lemma {:induction false} TerminatorInLastPlaceDropped(buf: seq<char>, index: nat, input: seq<char>)
    requires |buf| == BUF_SIZE && index < BUF_SIZE && index + |input| == BUF_SIZE
    requires forall i :: 0 <= i < |input| - 1 ==> !E.IsTerminator(input[i])
    ensures Receive(buf, index, input).stop.BufferFull?
    ensures Receive(buf, index, input).consumed == |input|
    decreases |input|
  {
    if index < BUF_SIZE - 1 {
      assert !E.IsTerminator(input[0]);
      var b := buf[index := input[0]];
      assert forall i :: 0 <= i < |input[1..]| - 1 ==> input[1..][i] == input[i + 1];
      TerminatorInLastPlaceDropped(b, index + 1, input[1..]);
    }
  }

  // ---------------------------------------------------------------------------
  // Number text.

  /** number_to_string of this iteration: snprintf with "%ld" into the 6-byte
      num_string, refused from five characters on, the dot inserted before the last
      digit. There is no zero padding, so 5 is written ".5". */
  function NumberToString(n: int): (r: Option<seq<char>>)
    ensures r.Some? ==> 2 <= |r.value| && |r.value| + 1 <= MAX_NUMBER_STRING_SIZE
    ensures r.Some? <==> -1000 < n < 10000
  {
    FormatRange(n, MAX_NUMBER_STRING_SIZE, false);
    assert Pow10(3) == 1000 && Pow10(4) == 10000;
    FormatDecimal(n, MAX_NUMBER_STRING_SIZE, false)
  }

  /** The text number_to_string writes reads back as the same number. */
  lemma NumberToStringParses(n: int)
    requires NumberToString(n).Some?
    ensures ParseDecimal(NumberToString(n).value, MAX_NUMBER_STRING_SIZE) == Some(n)
  {
    FormatParse(n, MAX_NUMBER_STRING_SIZE, false);
  }

  /** number_to_string writes no zero before the dot of a single digit: 5 is ".5". */
  lemma NumberToStringOfDigit()
    ensures NumberToString(5) == Some(".5")
  {
    assert Render(5) == "5" by {
      assert DigitChar(5) == '5';
    }
    assert InsertDot("5") == ".5";
  }

  /** -5 is written "-.5". */
  lemma NumberToStringOfNegativeDigit()
    ensures NumberToString(-5) == Some("-.5")
  {
    assert Render(-5) == "-5" by {
      assert DigitChar(5) == '5';
    }
    assert InsertDot("-5") == "-.5";
  }

  /** 123 is written "12.3". */
  lemma NumberToStringOfThreeDigits()
    ensures NumberToString(123) == Some("12.3")
  {
    assert Render(123) == "123" by {
      assert DigitChar(1) == '1' && DigitChar(2) == '2' && DigitChar(3) == '3';
      assert Digits(12) == Digits(1) + [DigitChar(2)];
      assert Digits(123) == Digits(12) + [DigitChar(3)];
    }
    assert InsertDot("123") == "12.3";
  }

  // ---------------------------------------------------------------------------
  // Commands.

  datatype AxisOutcome = AxisOutcome(buf: seq<char>, axis: M.AxisState, reply: seq<char>)

  /** The reply to a position query: the two command letters, the position's text and
      the terminator. Empty when number_to_string refuses the position. */
  function QueryReply(buf: seq<char>, pos: int): seq<char>
    requires |buf| >= 3
  {
    var num := NumberToString(pos);
    if num.None? then [] else E.Enclose(buf[0], buf[1], num.value, buf[2])
  }

  /** A query is answered exactly when the position has a text, and the text in the
      reply reads back as the position. */
  lemma QueryReplyParses(buf: seq<char>, pos: int)
    requires |buf| >= 3
    ensures var reply := QueryReply(buf, pos);
      && (reply != [] <==> -1000 < pos < 10000)
      && (reply != [] ==>
            && 4 <= |reply| <= 8 && reply[0] == buf[0] && reply[1] == buf[1] && reply[|reply| - 1] == buf[2]
            && ParseDecimal(reply[2..|reply| - 1], MAX_NUMBER_STRING_SIZE) == Some(pos))
  {
    if NumberToString(pos).Some? {
      NumberToStringParses(pos);
    }
  }

  /** The setpoint text of an AZ or EL command whose terminator is at `index`: what
      follows the two letters once the terminator is overwritten with NUL. */
  function SetpointText(buf: seq<char>, index: nat): seq<char>
    requires |buf| == BUF_SIZE && 2 <= index < BUF_SIZE
  {
    TextAt(buf[index := NUL], 2, MAX_NUMBER_STRING_SIZE)
  }

  /** The terminator overwritten, then string_to_number on &mReceiveBuffer[2]: the number
      is the setpoint text's, and always a position the axis can hold. */
  function ParseSetpoint(buf: seq<char>, index: nat): (p: Parsed)
    requires |buf| == BUF_SIZE && 2 <= index < BUF_SIZE && E.IsAzEl(buf)
    ensures |p.buf| == BUF_SIZE
    ensures p.number == ParseDecimal(SetpointText(buf, index), MAX_NUMBER_STRING_SIZE)
    ensures p.number.Some? ==> -10000 < p.number.value < 10000 && ExtFits(p.number.value)
  {
    var b := buf[index := NUL];
    assert b[0] == buf[0] && b[1] == buf[1];
    assert Pow10(4) == 10000;
    StringToNumber(b, 2, MAX_NUMBER_STRING_SIZE)
  }

  /** handle_az_el_command: a terminator at index 2 asks for the position; anything
      longer is a setpoint, moved to only when it parses. */
  function HandleAzEl(buf: seq<char>, index: nat, axis: M.AxisState, now: nat, pol: M.Polarity): (r: AxisOutcome)
    requires |buf| == BUF_SIZE && 2 <= index < BUF_SIZE && E.IsAzEl(buf)
    ensures |r.buf| == BUF_SIZE && |r.reply| <= 8
    // a query changes nothing and reports the position
    ensures index == 2 ==>
      r.buf == buf && r.axis == axis && r.reply == QueryReply(buf, M.GetCurrentPosition(axis))
    // anything else replies nothing; the axis moves only to a setpoint that parses
    ensures index != 2 ==> r.reply == []
    ensures index != 2 ==>
      var q := ParseDecimal(SetpointText(buf, index), MAX_NUMBER_STRING_SIZE);
      && (q.None? ==> r.axis == axis)
      && (q.Some? ==> ExtFits(q.value) && r.axis == M.MoveToPosition(axis, q.value, now, pol))
  {
    if index == 2 then
      AxisOutcome(buf, axis, QueryReply(buf, M.GetCurrentPosition(axis)))
    else
      var p := ParseSetpoint(buf, index);
      match p.number
      case Some(n) => AxisOutcome(p.buf, M.MoveToPosition(axis, n, now, pol), [])
      case None => AxisOutcome(p.buf, axis, [])
  }

  datatype Outcome = Outcome(buf: seq<char>, az: M.AxisState, el: M.AxisState, reply: seq<char>)

  /** The azimuth half of an M command: ML jogs negative, MR positive. */
  function JogAzimuth(c: char, az: M.AxisState, now: nat, pol: M.Polarity): (r: M.AxisState)
    ensures c != 'L' && c != 'R' ==> r == az
  {
    if c == 'L' then M.MoveNegative(az, now, pol) else if c == 'R' then M.MovePositive(az, now, pol) else az
  }

  /** The elevation half of an M command: MU jogs positive, MD negative. */
  function JogElevation(c: char, el: M.AxisState, now: nat, pol: M.Polarity): (r: M.AxisState)
    ensures c != 'U' && c != 'D' ==> r == el
  {
    if c == 'U' then M.MovePositive(el, now, pol) else if c == 'D' then M.MoveNegative(el, now, pol) else el
  }

  /** handle_command with the terminator at `index`: dispatch on the first two bytes of
      the buffer. */
  function HandleCommand(buf: seq<char>, index: nat, az: M.AxisState, el: M.AxisState, now: nat,
                         azPol: M.Polarity, elPol: M.Polarity): (r: Outcome)
    requires |buf| == BUF_SIZE && index < BUF_SIZE && E.IsTerminator(buf[index])
    ensures |r.buf| == BUF_SIZE && |r.reply| <= 8
    // a command addresses one axis at most; only an AZ or EL command replies or edits
    // the buffer
    ensures r.az == az || r.el == el
    ensures !E.IsAzEl(buf) ==> r.reply == [] && r.buf == buf
    // anything but AZ, EL, M and S is ignored, AX or EZ included (VE only writes the version text)
    ensures !E.IsAzEl(buf) && buf[0] != 'M' && buf[0] != 'S' ==> r == Outcome(buf, az, el, [])
    ensures buf[0] == 'M' ==> r.az == JogAzimuth(buf[1], az, now, azPol) && r.el == JogElevation(buf[1], el, now, elPol)
    ensures buf[0] == 'S' ==>
      && r.az == (if buf[1] == 'A' then M.StopMoving(az, now, azPol) else az)
      && r.el == (if buf[1] == 'E' then M.StopMoving(el, now, elPol) else el)
    // the two letters are no terminators, so an AZ or EL command has its terminator at 2
    // or later
    ensures E.IsAzEl(buf) ==> index >= 2
    ensures buf[0] == 'A' && buf[1] == 'Z' ==>
      r == (var o := HandleAzEl(buf, index, az, now, azPol); Outcome(o.buf, o.axis, el, o.reply))
    ensures buf[0] == 'E' && buf[1] == 'L' ==>
      r == (var o := HandleAzEl(buf, index, el, now, elPol); Outcome(o.buf, az, o.axis, o.reply))
  {
    if buf[0] == 'A' && buf[1] == 'Z' then
      var o := HandleAzEl(buf, index, az, now, azPol);
      Outcome(o.buf, o.axis, el, o.reply)
    else if buf[0] == 'E' && buf[1] == 'L' then
      var o := HandleAzEl(buf, index, el, now, elPol);
      Outcome(o.buf, az, o.axis, o.reply)
    else if buf[0] == 'V' && buf[1] == 'E' then
      Outcome(buf, az, el, [])
    else if buf[0] == 'M' then
      Outcome(buf, JogAzimuth(buf[1], az, now, azPol), JogElevation(buf[1], el, now, elPol), [])
    else if buf[0] == 'S' then
      var az1 := if buf[1] == 'A' then M.StopMoving(az, now, azPol) else az;
      var el1 := if buf[1] == 'E' then M.StopMoving(el, now, elPol) else el;
      Outcome(buf, az1, el1, [])
    else
      Outcome(buf, az, el, [])
  }

  /** The state update() leaves: buffer, index, characters read, both axes, and the
      reply written to the serial port. */
  datatype Updated = Updated(buf: seq<char>, index: nat, consumed: nat, az: M.AxisState, el: M.AxisState, reply: seq<char>)

  /** update(): read until a terminator, a full buffer or the end of the input; a
      terminator hands the buffer to handle_command and restarts at index 0. */
  function Update(buf: seq<char>, index: nat, input: seq<char>, az: M.AxisState, el: M.AxisState, now: nat,
                  azPol: M.Polarity, elPol: M.Polarity): (r: Updated)
    requires |buf| == BUF_SIZE && index < BUF_SIZE
    ensures |r.buf| == BUF_SIZE && r.index < BUF_SIZE && r.consumed <= |input|
    // at most one command per call: no terminator before the last character read
    ensures forall i :: 0 <= i < r.consumed - 1 ==> !E.IsTerminator(input[i])
    ensures var f := Receive(buf, index, input);
      && r.consumed == f.consumed
      && (f.stop.Terminator? ==>
            var o := HandleCommand(f.buf, f.index, az, el, now, azPol, elPol);
            r == Updated(o.buf, 0, f.consumed, o.az, o.el, o.reply))
      && (!f.stop.Terminator? ==> r == Updated(f.buf, f.index, f.consumed, az, el, []))
  {
    ReceiveOneCommand(buf, index, input);
    var f := Receive(buf, index, input);
    if f.stop.Terminator? then
      var o := HandleCommand(f.buf, f.index, az, el, now, azPol, elPol);
      Updated(o.buf, 0, f.consumed, o.az, o.el, o.reply)
    else
      Updated(f.buf, f.index, f.consumed, az, el, [])
  }

  // ---------------------------------------------------------------------------
  // End to end: characters in, axis moved or position reported.

  /** A lone terminator at the start of the buffer is handled as a command, and it does
      nothing. */
  lemma LoneTerminatorDoesNothing(buf: seq<char>, az: M.AxisState, el: M.AxisState, now: nat,
                                  azPol: M.Polarity, elPol: M.Polarity, term: char)
    requires |buf| == BUF_SIZE && E.IsTerminator(term)
    ensures Update(buf, 0, [term], az, el, now, azPol, elPol) == Updated(buf[0 := term], 0, 1, az, el, [])
  {
    var f := Receive(buf, 0, [term]);
    assert f == Framed(buf[0 := term], 0, 1, Terminator);
  }

  /** Sending "AZ" and a terminator is answered with "AZ", the position's text and the
      same terminator, when the position is within -99.9 to 999.9 degrees. */
  lemma QueryReportsPosition(buf: seq<char>, az: M.AxisState, el: M.AxisState, now: nat,
                             azPol: M.Polarity, elPol: M.Polarity, term: char)
    requires |buf| == BUF_SIZE && E.IsTerminator(term)
    requires -1000 < M.GetCurrentPosition(az) < 10000
    ensures var u := Update(buf, 0, ['A', 'Z', term], az, el, now, azPol, elPol);
      && u.consumed == 3 && u.index == 0 && u.az == az && u.el == el
      && u.reply == E.Enclose('A', 'Z', NumberToString(M.GetCurrentPosition(az)).value, term)
  {
    var msg := ['A', 'Z', term];
    ReceiveMessage(buf, msg);
    var f := Receive(buf, 0, msg);
    assert f.buf[0] == 'A' && f.buf[1] == 'Z' && f.buf[2] == term by {
      assert f.buf[0] == f.buf[..3][0] && f.buf[1] == f.buf[..3][1] && f.buf[2] == f.buf[..3][2];
    }
    AzimuthQuery(f.buf, az, el, now, azPol, elPol);
  }

  /** An AZ command with its terminator at index 2 reports the azimuth position and
      changes nothing. */
  lemma AzimuthQuery(buf: seq<char>, az: M.AxisState, el: M.AxisState, now: nat, azPol: M.Polarity, elPol: M.Polarity)
    requires |buf| == BUF_SIZE && buf[0] == 'A' && buf[1] == 'Z' && E.IsTerminator(buf[2])
    requires -1000 < M.GetCurrentPosition(az) < 10000
    ensures var o := HandleCommand(buf, 2, az, el, now, azPol, elPol);
      && o.az == az && o.el == el
      && o.reply == E.Enclose('A', 'Z', NumberToString(M.GetCurrentPosition(az)).value, buf[2])
  {
    var o := HandleAzEl(buf, 2, az, now, azPol);
    assert HandleCommand(buf, 2, az, el, now, azPol, elPol) == Outcome(o.buf, o.axis, el, o.reply);
  }

  /** Sending "AZ", a position's text and a terminator moves the azimuth axis toward that
      position and leaves the elevation axis alone. */
  lemma SetpointCommandMovesAxis(buf: seq<char>, az: M.AxisState, el: M.AxisState, now: nat,
                                 azPol: M.Polarity, elPol: M.Polarity, p: int, term: char)
    requires |buf| == BUF_SIZE && E.IsTerminator(term) && NumberToString(p).Some?
    ensures ExtFits(p)
    ensures var u := Update(buf, 0, ['A', 'Z'] + NumberToString(p).value + [term], az, el, now, azPol, elPol);
      && u.index == 0 && u.reply == [] && u.el == el && u.az == M.MoveToPosition(az, p, now, azPol)
  {
    var num := NumberToString(p).value;
    NumberToStringParses(p);
    FormatCharacters(p, MAX_NUMBER_STRING_SIZE, false);
    ReceiveSetpoint(buf, num, term);
    var f := Receive(buf, 0, ['A', 'Z'] + num + [term]);
    AzimuthSetpoint(f.buf, f.index, az, el, now, azPol, elPol, p);
  }

  /** "AZ", a number text and a terminator are framed as a command whose setpoint text
      is that number text. */
  lemma ReceiveSetpoint(buf: seq<char>, num: seq<char>, term: char)
    requires |buf| == BUF_SIZE && E.IsTerminator(term)
    requires 2 <= |num| < MAX_NUMBER_STRING_SIZE && forall i :: 0 <= i < |num| ==> NumberChar(num[i])
    ensures var f := Receive(buf, 0, ['A', 'Z'] + num + [term]);
      && f.stop.Terminator? && f.index == |num| + 2 && f.buf[0] == 'A' && f.buf[1] == 'Z'
      && SetpointText(f.buf, f.index) == num
  {
    var msg := ['A', 'Z'] + num + [term];
    assert forall i :: 0 <= i < |msg| - 1 ==> !E.IsTerminator(msg[i]) by {
      forall i | 2 <= i < |msg| - 1
        ensures !E.IsTerminator(msg[i])
      {
        assert msg[i] == num[i - 2] && NumberChar(num[i - 2]);
      }
    }
    ReceiveMessage(buf, msg);
    var f := Receive(buf, 0, msg);
    assert NoNul(num) by {
      assert forall i :: 0 <= i < |num| ==> NumberChar(num[i]);
    }
    SetpointOfMessage(f.buf, num, term);
  }

  /** A message whose only terminator is its last character, read from index 0 into a
      buffer it fits: a command, with the terminator at the message's last place. */
  lemma ReceiveMessage(buf: seq<char>, msg: seq<char>)
    requires |buf| == BUF_SIZE && 1 <= |msg| < BUF_SIZE
    requires E.IsTerminator(msg[|msg| - 1]) && forall i :: 0 <= i < |msg| - 1 ==> !E.IsTerminator(msg[i])
    ensures var f := Receive(buf, 0, msg);
      f.stop.Terminator? && f.consumed == |msg| && f.index == |msg| - 1 && f.buf[..|msg|] == msg
  {
    var f := Receive(buf, 0, msg);
    ReceiveEnds(buf, 0, msg);
    ReceiveStores(buf, 0, msg);
  }

  /** A buffer holding "AZ", a setpoint text and a terminator: its setpoint text is the
      one sent. */
  lemma SetpointOfMessage(buf: seq<char>, num: seq<char>, term: char)
    requires |buf| == BUF_SIZE && 2 <= |num| < MAX_NUMBER_STRING_SIZE && NoNul(num)
    requires buf[..|num| + 3] == ['A', 'Z'] + num + [term] && term != NUL
    ensures buf[0] == 'A' && buf[1] == 'Z' && SetpointText(buf, |num| + 2) == num
  {
    var msg := ['A', 'Z'] + num + [term];
    E.MessageText(num, term);
    assert buf[0] == msg[0] && buf[1] == msg[1] && buf[2..|num| + 2] == num by {
      assert buf[2..|num| + 2] == buf[..|msg|][2..|num| + 2] == msg[2..|num| + 2];
    }
    SetpointInPlace(buf, num);
  }

  /** The setpoint text sits at index 2 and the terminator after it is overwritten with
      NUL: the text read at index 2 is the setpoint text. */
  lemma SetpointInPlace(buf: seq<char>, num: seq<char>)
    requires |buf| == BUF_SIZE && |num| < MAX_NUMBER_STRING_SIZE && NoNul(num)
    requires buf[2..|num| + 2] == num
    ensures SetpointText(buf, |num| + 2) == num
  {
    var b := buf[|num| + 2 := NUL];
    assert b[2..2 + |num|] == num by {
      assert forall i :: 2 <= i < |num| + 2 ==> b[i] == buf[i];
    }
    TextAtIs(b, 2, MAX_NUMBER_STRING_SIZE, num);
  }

  /** An AZ command longer than a query whose setpoint text reads as `p` moves the
      azimuth axis toward `p` and leaves the elevation axis alone. */
  lemma AzimuthSetpoint(buf: seq<char>, index: nat, az: M.AxisState, el: M.AxisState, now: nat,
                        azPol: M.Polarity, elPol: M.Polarity, p: int)
    requires |buf| == BUF_SIZE && 2 < index < BUF_SIZE && E.IsTerminator(buf[index])
    requires buf[0] == 'A' && buf[1] == 'Z'
    requires ParseDecimal(SetpointText(buf, index), MAX_NUMBER_STRING_SIZE) == Some(p)
    ensures ExtFits(p)
    ensures var o := HandleCommand(buf, index, az, el, now, azPol, elPol);
      o.reply == [] && o.el == el && o.az == M.MoveToPosition(az, p, now, azPol)
  {
    var o := HandleAzEl(buf, index, az, now, azPol);
    assert o.axis == M.MoveToPosition(az, p, now, azPol);
  }
}
