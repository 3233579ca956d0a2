/** The EasyComm command handler of src/easycomm_handler.h and src/easycomm_handler.cpp,
    as functions: how received characters are framed into a command, what a command does
    to the two axes, and the reply it sends back. The handler object with its static
    buffers is in module EasyCommHandler. */
module EasyComm {
  import opened AxisCommon
  import opened CText
  import M = EncoderMotor

  const COMM_BUF_SIZE: nat := 128
  const RESP_BUF_SIZE: nat := 128
  const MAX_NUMBER_STRING_SIZE: nat := 6

  /** The characters that end a command. */
  predicate IsTerminator(c: char) { c == '\n' || c == '\r' || c == ' ' }

  // ---------------------------------------------------------------------------
  // Framing: handle_commands reading from the client.

  /** The command buffer and write index after a call of handle_commands, the number of
      characters it read, and whether a complete command was received. */
  datatype Framed = Framed(buf: seq<char>, it: nat, consumed: nat, complete: bool)

  /** The read loop of handle_commands on the characters `input` the client has
      available: it stops at the first terminator, when the buffer is full, or when the
      input runs out. ReceiveStores and ReceiveStops say what it leaves behind. */
  function Receive(buf: seq<char>, it: nat, input: seq<char>): (r: Framed)
    requires |buf| == COMM_BUF_SIZE && it <= COMM_BUF_SIZE - 2
    ensures |r.buf| == COMM_BUF_SIZE && r.it <= COMM_BUF_SIZE - 2
    ensures r.consumed <= |input| && it + r.consumed <= COMM_BUF_SIZE - 2
    decreases |input|
  {
    if input == [] then Framed(buf, it, 0, false)
    else if it == COMM_BUF_SIZE - 2 then Framed(buf, 0, 0, false)
    else
      var c := input[0];
      var b := buf[it := c];
      if IsTerminator(c) then
        if it + 1 > 1 then Framed(b[it + 1 := NUL], 0, 1, true) else Framed(b, 0, 1, false)
      else
        var r := Receive(b, it + 1, input[1..]);
        r.(consumed := r.consumed + 1)
  }

  /** A command is complete when a terminator ends at least two characters, and the
      next command then starts at index 0. */
  lemma {:induction false} ReceiveCompletes(buf: seq<char>, it: nat, input: seq<char>)
    requires |buf| == COMM_BUF_SIZE && it <= COMM_BUF_SIZE - 2
    ensures var r := Receive(buf, it, input);
      && (r.complete <==> r.consumed >= 1 && IsTerminator(input[r.consumed - 1]) && it + r.consumed >= 2)
      && (r.complete ==> r.it == 0)
    decreases |input|
  {
    if input != [] && it < COMM_BUF_SIZE - 2 && !IsTerminator(input[0]) {
      var b := buf[it := input[0]];
      ReceiveStep(buf, it, input);
      ReceiveCompletes(b, it + 1, input[1..]);
      var r := Receive(b, it + 1, input[1..]);
      assert r.consumed >= 1 ==> input[r.consumed] == input[1..][r.consumed - 1];
    }
  }

  /** One step of the read loop, unfolded. */
  lemma ReceiveStep(buf: seq<char>, it: nat, input: seq<char>)
    requires |buf| == COMM_BUF_SIZE && it <= COMM_BUF_SIZE - 2 && input != []
    ensures it == COMM_BUF_SIZE - 2 ==> Receive(buf, it, input) == Framed(buf, 0, 0, false)
    ensures it < COMM_BUF_SIZE - 2 && IsTerminator(input[0]) ==>
      var b := buf[it := input[0]];
      Receive(buf, it, input) == if it + 1 > 1 then Framed(b[it + 1 := NUL], 0, 1, true) else Framed(b, 0, 1, false)
    ensures it < COMM_BUF_SIZE - 2 && !IsTerminator(input[0]) ==>
      var r := Receive(buf[it := input[0]], it + 1, input[1..]);
      Receive(buf, it, input) == r.(consumed := r.consumed + 1)
  {
  }

  /** A read takes in at most one command: no character before the last one read is a
      terminator. */
  lemma {:induction false} ReceiveOneCommand(buf: seq<char>, it: nat, input: seq<char>)
    requires |buf| == COMM_BUF_SIZE && it <= COMM_BUF_SIZE - 2
    ensures var r := Receive(buf, it, input);
      forall i :: 0 <= i < r.consumed - 1 ==> !IsTerminator(input[i])
    decreases |input|
  {
    if input != [] && it < COMM_BUF_SIZE - 2 && !IsTerminator(input[0]) {
      var b := buf[it := input[0]];
      ReceiveStep(buf, it, input);
      ReceiveOneCommand(b, it + 1, input[1..]);
      var r := Receive(b, it + 1, input[1..]);
      forall i | 1 <= i < r.consumed
        ensures !IsTerminator(input[i])
      {
        assert input[i] == input[1..][i - 1];
      }
    }
  }

  /** The read loop's invariant carried over one stored character that is not a
      terminator: `f` is the whole read, `consumed` characters of which are already done. */
  lemma ReceiveAdvance(f: Framed, buf: seq<char>, it: nat, input: seq<char>, consumed: nat)
    requires |buf| == COMM_BUF_SIZE && it < COMM_BUF_SIZE - 2 && input != [] && !IsTerminator(input[0])
    requires var r := Receive(buf, it, input); f == r.(consumed := r.consumed + consumed)
    ensures var r := Receive(buf[it := input[0]], it + 1, input[1..]);
      f == r.(consumed := r.consumed + (consumed + 1))
  {
    ReceiveStep(buf, it, input);
  }

  /** Every character read is stored after the ones already there; a complete command
      is NUL-terminated in place; nothing else in the buffer changes. */
  lemma {:induction false} ReceiveStores(buf: seq<char>, it: nat, input: seq<char>)
    requires |buf| == COMM_BUF_SIZE && it <= COMM_BUF_SIZE - 2
    ensures var r := Receive(buf, it, input);
      && r.buf[..it + r.consumed] == buf[..it] + input[..r.consumed]
      && (r.complete ==> r.buf[it + r.consumed] == NUL && r.buf[it + r.consumed + 1..] == buf[it + r.consumed + 1..])
      && (!r.complete ==> r.buf[it + r.consumed..] == buf[it + r.consumed..])
    decreases |input|
  {
    ReceiveKeeps(buf, it, input);
    if input == [] || it == COMM_BUF_SIZE - 2 {
      assert buf[..it] + input[..0] == buf[..it];
    } else {
      ReceiveStep(buf, it, input);
      FirstStored(buf, it, input);
      if !IsTerminator(input[0]) {
        var b := buf[it := input[0]];
        ReceiveStores(b, it + 1, input[1..]);
        var r := Receive(b, it + 1, input[1..]);
        TailStored(buf[..it], input, r.buf[..it + 1 + r.consumed], r.consumed);
      }
    }
  }

  /** The first character of `input` stored at index `i`. */
  lemma FirstStored(buf: seq<char>, i: nat, input: seq<char>)
    requires i < |buf| && input != []
    ensures buf[i := input[0]][..i + 1] == buf[..i] + [input[0]] == buf[..i] + input[..1]
  {
    assert input[..1] == [input[0]];
  }

  /** The read loop leaves the buffer after the characters it stored as it was, except
      for the NUL that ends a complete command. */
  lemma {:induction false} ReceiveKeeps(buf: seq<char>, it: nat, input: seq<char>)
    requires |buf| == COMM_BUF_SIZE && it <= COMM_BUF_SIZE - 2
    ensures var r := Receive(buf, it, input);
      && (r.complete ==> r.buf[it + r.consumed] == NUL && r.buf[it + r.consumed + 1..] == buf[it + r.consumed + 1..])
      && (!r.complete ==> r.buf[it + r.consumed..] == buf[it + r.consumed..])
    decreases |input|
  {
    if input != [] && it < COMM_BUF_SIZE - 2 {
      var c := input[0];
      var b := buf[it := c];
      ReceiveStep(buf, it, input);
      if IsTerminator(c) {
        assert b[it + 1 := NUL][it + 2..] == buf[it + 2..];
        assert b[it + 1..] == buf[it + 1..];
      } else {
        ReceiveKeeps(b, it + 1, input[1..]);
        var r := Receive(b, it + 1, input[1..]);
        assert b[it + 1 + r.consumed..] == buf[it + 1 + r.consumed..];
        assert b[it + 1 + r.consumed + 1..] == buf[it + 1 + r.consumed + 1..];
      }
    }
  }

  /** A read that ends without a complete command: the input ran out and the partial
      command waits for more, or the buffer was full, or a lone terminator was read; the
      last two discard what was stored. */
  lemma {:induction false} ReceiveStops(buf: seq<char>, it: nat, input: seq<char>)
    requires |buf| == COMM_BUF_SIZE && it <= COMM_BUF_SIZE - 2
    ensures var r := Receive(buf, it, input);
      !r.complete ==>
        || (r.consumed == |input| && r.it == it + |input| && (|input| == 0 || !IsTerminator(input[|input| - 1])))
        || (r.it == 0 && it + r.consumed == COMM_BUF_SIZE - 2 && (r.consumed == 0 || !IsTerminator(input[r.consumed - 1])))
        || (r.it == 0 && it == 0 && r.consumed == 1 && IsTerminator(input[0]))
    decreases |input|
  {
    if input != [] && it < COMM_BUF_SIZE - 2 && !IsTerminator(input[0]) {
      var b := buf[it := input[0]];
      ReceiveStops(b, it + 1, input[1..]);
      var r := Receive(b, it + 1, input[1..]);
      assert Receive(buf, it, input) == r.(consumed := r.consumed + 1);
      assert r.consumed >= 1 ==> input[r.consumed] == input[1..][r.consumed - 1];
      assert |input| == 1 || input[1..][|input| - 2] == input[|input| - 1];
    }
  }

  /** The first character of `input` stored after `p`, then `k` more after it: the first
      k + 1 characters of `input` after `p`. */
  lemma TailStored(p: seq<char>, input: seq<char>, s: seq<char>, k: nat)
    requires 1 + k <= |input| && s == (p + [input[0]]) + input[1..][..k]
    ensures s == p + input[..k + 1]
  {
    assert input[..k + 1] == [input[0]] + input[1..][..k];
    AppendShift(p, input[0], input[1..][..k]);
  }

  lemma AppendShift(p: seq<char>, c: char, x: seq<char>)
    ensures (p + [c]) + x == p + ([c] + x)
  {
  }

  // ---------------------------------------------------------------------------
  // Number text.

  /** number_to_string as written: snprintf with "%02ld" into the 6-byte num_string,
      then the dot inserted before the last character. The result is every byte the
      function writes, from num_string[0] on. Its length test compares strnlen(s, 6)
      with 6 and can never fire, so nothing is refused. */
  function NumberToStringAsWritten(n: int): (w: seq<char>)
    ensures |w| == (if |Render02(n)| < MAX_NUMBER_STRING_SIZE then |Render02(n)| else MAX_NUMBER_STRING_SIZE - 1) + 2
    ensures w[|w| - 1] == NUL
  {
    var s := Snprintf(Render02(n), MAX_NUMBER_STRING_SIZE);
    var len := StrNLen(s, MAX_NUMBER_STRING_SIZE);
    StrNLenIs(s, MAX_NUMBER_STRING_SIZE, |s| - 1);
    s[..len - 1] + ['.', s[len - 1], NUL]
  }

  /** number_to_string as intended: refused when the text with its dot and NUL would not
      fit num_string. The handler uses this one. */
  function NumberToString(n: int): (r: Option<seq<char>>)
    ensures r.Some? ==> 2 <= |r.value| && |r.value| + 1 <= MAX_NUMBER_STRING_SIZE
    ensures r.Some? <==> -1000 < n < 10000
  {
    FormatRange(n, MAX_NUMBER_STRING_SIZE, true);
    assert Pow10(3) == 1000 && Pow10(4) == 10000;
    FormatDecimal(n, MAX_NUMBER_STRING_SIZE, true)
  }

  /** The text number_to_string writes reads back as the same number. */
  lemma NumberToStringParses(n: int)
    requires NumberToString(n).Some?
    ensures ParseDecimal(NumberToString(n).value, MAX_NUMBER_STRING_SIZE) == Some(n)
  {
    FormatParse(n, MAX_NUMBER_STRING_SIZE, true);
  }

  /** The length test of number_to_string as written never fires. */
  lemma NumberToStringGuardIsDead(n: int)
    ensures StrNLen(Snprintf(Render02(n), MAX_NUMBER_STRING_SIZE), MAX_NUMBER_STRING_SIZE) < MAX_NUMBER_STRING_SIZE
  {
    var s := Snprintf(Render02(n), MAX_NUMBER_STRING_SIZE);
    StrNLenIs(s, MAX_NUMBER_STRING_SIZE, |s| - 1);
  }

  /** Every position from -100.0 degrees down, and from 1000.0 degrees up, makes number_to_string
      as written write seven bytes into the six-byte num_string. */
  lemma NumberToStringOverrun(n: int)
    requires n <= -1000 || n >= 10000
    ensures |NumberToStringAsWritten(n)| == MAX_NUMBER_STRING_SIZE + 1
  {
    if n < 0 {
      DigitsLength(-n, 3);
    } else {
      DigitsLength(n, 4);
    }
    assert Pow10(3) == 1000 && Pow10(4) == 10000;
  }

  /** The position -100.0 degrees, concretely. */
  lemma NumberToStringOverrunExample()
    ensures NumberToStringAsWritten(-1000) == ['-', '1', '0', '0', '.', '0', NUL]
  {
    assert Digits(1000) == ['1', '0', '0', '0'] by {
      assert Digits(1) == ['1'];
      assert Digits(10) == ['1', '0'];
      assert Digits(100) == ['1', '0', '0'];
    }
    assert Render02(-1000) == ['-', '1', '0', '0', '0'];
  }

  /** Where the intended function succeeds, the code as written writes the same text. */
  lemma NumberToStringAgrees(n: int)
    requires NumberToString(n).Some?
    ensures NumberToStringAsWritten(n) == NumberToString(n).value + [NUL]
  {
    var t := Render02(n);
    assert |t| < MAX_NUMBER_STRING_SIZE - 1 && NumberToString(n).value == InsertDot(t) by {
      assert FormatDecimal(n, MAX_NUMBER_STRING_SIZE, true) == Some(InsertDot(t));
    }
    assert NoNul(t) by {
      RenderCharacters(n);
    }
    WrittenText(t);
  }

  /** number_to_string as written on a text that fits: the snprintf output read back
      with strnlen, and the dot inserted. */
  lemma WrittenText(t: seq<char>)
    requires 2 <= |t| < MAX_NUMBER_STRING_SIZE - 1 && NoNul(t)
    ensures var s := Snprintf(t, MAX_NUMBER_STRING_SIZE);
      var len := StrNLen(s, MAX_NUMBER_STRING_SIZE);
      len == |t| && s[..len - 1] + ['.', s[len - 1], NUL] == InsertDot(t) + [NUL]
  {
    var s := Snprintf(t, MAX_NUMBER_STRING_SIZE);
    assert s == t + [NUL];
    assert StrNLen(s, MAX_NUMBER_STRING_SIZE) == |t| by {
      StrNLenIs(s, MAX_NUMBER_STRING_SIZE, |t|);
    }
    AppendDot(t);
  }

  /** The dot inserted into the snprintf output of a text that fits, in the terms of the
      code as written. */
  lemma AppendDot(t: seq<char>)
    requires 1 <= |t| < MAX_NUMBER_STRING_SIZE
    ensures (t + [NUL])[..|t| - 1] + ['.', (t + [NUL])[|t| - 1], NUL] == InsertDot(t) + [NUL]
  {
    assert (t + [NUL])[..|t| - 1] == t[..|t| - 1];
  }

  // ---------------------------------------------------------------------------
  // Commands.

  /** The two characters of an AZ or EL command. */
  predicate IsAzEl(buf: seq<char>)
  {
    |buf| >= 2 && ((buf[0] == 'A' && buf[1] == 'Z') || (buf[0] == 'E' && buf[1] == 'L'))
  }

  /** The response buffer after handle_command: the reply and its NUL at the front. */
  function Respond(resp: seq<char>, reply: seq<char>): (r: seq<char>)
    requires |reply| < |resp|
    ensures |r| == |resp| && r[..|reply|] == reply && r[|reply|] == NUL
    ensures r[|reply| + 1..] == resp[|reply| + 1..]
  {
    reply + [NUL] + resp[|reply| + 1..]
  }

  /** Emptying the response first changes nothing that the reply does not overwrite. */
  lemma RespondAfterClear(resp: seq<char>, reply: seq<char>)
    requires |reply| < |resp|
    ensures Respond(resp[0 := NUL], reply) == Respond(resp, reply)
  {
  }

  datatype AxisOutcome = AxisOutcome(buf: seq<char>, axis: M.AxisState, reply: seq<char>)

  /** The reply to a position query: the two command letters, the position's text and
      the character that ended the query. Empty when the text does not fit. */
  function QueryReply(buf: seq<char>, pos: int): seq<char>
    requires |buf| >= 3
  {
    var num := NumberToString(pos);
    if num.None? then [] else Enclose(buf[0], buf[1], num.value, buf[2])
  }

  /** A query is answered exactly when the position has a text, and the text in the
      reply reads back as the position. */
  lemma QueryReplyParses(buf: seq<char>, pos: int)
    requires |buf| >= 3
    ensures var reply := QueryReply(buf, pos);
      && (reply != [] <==> -1000 < pos < 10000)
      && (reply != [] ==>
            && 4 <= |reply| <= 8 && reply[0] == buf[0] && reply[1] == buf[1] && reply[|reply| - 1] == buf[2]
            && ParseDecimal(reply[2..|reply| - 1], MAX_NUMBER_STRING_SIZE) == Some(pos))
  {
    if NumberToString(pos).Some? {
      NumberToStringParses(pos);
    }
  }

  /** A text between two letters and a final character. */
  function Enclose(a: char, b: char, num: seq<char>, c: char): (r: seq<char>)
    ensures |r| == |num| + 3 && r[0] == a && r[1] == b && r[2..|r| - 1] == num && r[|r| - 1] == c
  {
    var r := [a, b] + num + [c];
    assert r[2..|r| - 1] == num;
    r
  }

  /** The setpoint text of an AZ or EL command longer than a query: what follows the two
      letters once the terminator is overwritten with NUL, as string_to_number reads it. */
  function SetpointText(buf: seq<char>): seq<char>
    requires |buf| == COMM_BUF_SIZE && IsAzEl(buf)
  {
    var len := StrNLen(buf, COMM_BUF_SIZE);
    TextAt(buf[len - 1 := NUL], 2, MAX_NUMBER_STRING_SIZE)
  }

  /** The terminator overwritten, then string_to_number on &command[2]: the number is the
      setpoint text's, and always a position the axis can hold. */
  function ParseSetpoint(buf: seq<char>): (p: Parsed)
    requires |buf| == COMM_BUF_SIZE && IsAzEl(buf)
    ensures |p.buf| == COMM_BUF_SIZE
    ensures p.number == ParseDecimal(SetpointText(buf), MAX_NUMBER_STRING_SIZE)
    ensures p.number.Some? ==> -10000 < p.number.value < 10000 && ExtFits(p.number.value)
  {
    var len := StrNLen(buf, COMM_BUF_SIZE);
    assert Pow10(4) == 10000;
    StringToNumber(buf[len - 1 := NUL], 2, MAX_NUMBER_STRING_SIZE)
  }

  /** handle_az_el_command: the two letters and a terminator ask for the position;
      anything longer is a setpoint, moved to only when it parses. */
  function HandleAzEl(buf: seq<char>, axis: M.AxisState, now: nat): (r: AxisOutcome)
    requires |buf| == COMM_BUF_SIZE && IsAzEl(buf) && now >= M.ENC_DEAD_TIME
    ensures |r.buf| == COMM_BUF_SIZE && |r.reply| < RESP_BUF_SIZE
    // a query changes nothing and reports the position
    ensures StrNLen(buf, COMM_BUF_SIZE) == 3 ==>
      r.buf == buf && r.axis == axis && r.reply == QueryReply(buf, M.GetCurrentPosition(axis))
    // anything else replies nothing; the axis moves only to a setpoint that parses
    ensures StrNLen(buf, COMM_BUF_SIZE) != 3 ==> r.reply == []
    ensures StrNLen(buf, COMM_BUF_SIZE) != 3 ==>
      var q := ParseDecimal(SetpointText(buf), MAX_NUMBER_STRING_SIZE);
      && (q.None? ==> r.axis == axis)
      && (q.Some? ==> ExtFits(q.value) && r.axis == M.MoveToPosition(axis, q.value, now))
  {
    var len := StrNLen(buf, COMM_BUF_SIZE);
    if len == 3 then
      AxisOutcome(buf, axis, QueryReply(buf, M.GetCurrentPosition(axis)))
    else
      var p := ParseSetpoint(buf);
      match p.number
      case Some(n) => AxisOutcome(p.buf, M.MoveToPosition(axis, n, now), [])
      case None => AxisOutcome(p.buf, axis, [])
  }

  datatype Outcome = Outcome(buf: seq<char>, az: M.AxisState, el: M.AxisState, reply: seq<char>)

  /** The azimuth half of an M command: ML jogs negative, MR positive. */
  function JogAzimuth(c: char, az: M.AxisState, now: nat): (r: M.AxisState)
    requires now >= M.ENC_DEAD_TIME
    ensures c != 'L' && c != 'R' ==> r == az
  {
    if c == 'L' then M.MoveNegative(az, now) else if c == 'R' then M.MovePositive(az, now) else az
  }

  /** The elevation half of an M command: MU jogs positive, MD negative. */
  function JogElevation(c: char, el: M.AxisState, now: nat): (r: M.AxisState)
    requires now >= M.ENC_DEAD_TIME
    ensures c != 'U' && c != 'D' ==> r == el
  {
    if c == 'U' then M.MovePositive(el, now) else if c == 'D' then M.MoveNegative(el, now) else el
  }

  /** handle_command: dispatch on the first two characters of the command. */
  function HandleCommand(buf: seq<char>, az: M.AxisState, el: M.AxisState, now: nat): (r: Outcome)
    requires |buf| == COMM_BUF_SIZE && now >= M.ENC_DEAD_TIME
    ensures |r.buf| == COMM_BUF_SIZE && |r.reply| < RESP_BUF_SIZE
    // a command addresses one axis at most; only an AZ or EL command replies or edits
    // the buffer
    ensures r.az == az || r.el == el
    ensures buf[0] != 'A' && buf[0] != 'M' && buf[0] != 'S' ==> r.az == az
    ensures buf[0] != 'E' && buf[0] != 'M' && buf[0] != 'S' ==> r.el == el
    ensures !IsAzEl(buf) ==> r.reply == [] && r.buf == buf
    // anything but AZ, EL, M and S is ignored, AX or EZ included (VE only writes to the debug port)
    ensures !IsAzEl(buf) && buf[0] != 'M' && buf[0] != 'S' ==> r == Outcome(buf, az, el, [])
    ensures buf[0] == 'M' ==> r.az == JogAzimuth(buf[1], az, now) && r.el == JogElevation(buf[1], el, now)
    ensures buf[0] == 'S' ==>
      && r.az == (if buf[1] == 'A' then M.StopMoving(az, now) else az)
      && r.el == (if buf[1] == 'E' then M.StopMoving(el, now) else el)
    ensures buf[0] == 'A' && buf[1] == 'Z' ==> r == (var o := HandleAzEl(buf, az, now); Outcome(o.buf, o.axis, el, o.reply))
    ensures buf[0] == 'E' && buf[1] == 'L' ==> r == (var o := HandleAzEl(buf, el, now); Outcome(o.buf, az, o.axis, o.reply))
  {
    if buf[0] == 'A' && buf[1] == 'Z' then
      var o := HandleAzEl(buf, az, now);
      Outcome(o.buf, o.axis, el, o.reply)
    else if buf[0] == 'E' && buf[1] == 'L' then
      var o := HandleAzEl(buf, el, now);
      Outcome(o.buf, az, o.axis, o.reply)
    else if buf[0] == 'V' && buf[1] == 'E' then
      Outcome(buf, az, el, [])
    else if buf[0] == 'M' then
      Outcome(buf, JogAzimuth(buf[1], az, now), JogElevation(buf[1], el, now), [])
    else if buf[0] == 'S' then
      var az1 := if buf[1] == 'A' then M.StopMoving(az, now) else az;
      var el1 := if buf[1] == 'E' then M.StopMoving(el, now) else el;
      Outcome(buf, az1, el1, [])
    else
      Outcome(buf, az, el, [])
  }

  /** The reply holds no NUL, so the client receives all of it. */
  lemma ReplyHasNoNul(buf: seq<char>, az: M.AxisState, el: M.AxisState, now: nat)
    requires |buf| == COMM_BUF_SIZE && now >= M.ENC_DEAD_TIME
    ensures NoNul(HandleCommand(buf, az, el, now).reply)
  {
    if IsAzEl(buf) && StrNLen(buf, COMM_BUF_SIZE) == 3 {
      var axis := if buf[0] == 'A' then az else el;
      QueryReplyHasNoNul(buf, M.GetCurrentPosition(axis));
    }
  }

  lemma QueryReplyHasNoNul(buf: seq<char>, pos: int)
    requires |buf| >= 3 && buf[0] != NUL && buf[1] != NUL && buf[2] != NUL
    ensures NoNul(QueryReply(buf, pos))
  {
    if NumberToString(pos).Some? {
      NumberToStringCharacters(pos);
      var num := NumberToString(pos).value;
      assert NoNul(num) by {
        assert forall i :: 0 <= i < |num| ==> NumberChar(num[i]);
      }
      EnclosedNoNul(buf[0], buf[1], num, buf[2]);
    }
  }

  lemma EnclosedNoNul(a: char, b: char, num: seq<char>, c: char)
    requires a != NUL && b != NUL && c != NUL && NoNul(num)
    ensures NoNul(Enclose(a, b, num, c))
  {
    var s := [a, b] + num + [c];
    assert forall i :: 2 <= i < |s| - 1 ==> s[i] == num[i - 2];
  }

  // ---------------------------------------------------------------------------
  // End to end: characters in, axis moved or position reported.

  /** The characters of a message the handler frames as one complete command. */
  lemma ReceiveMessage(buf: seq<char>, msg: seq<char>)
    requires |buf| == COMM_BUF_SIZE && 2 <= |msg| <= COMM_BUF_SIZE - 2
    requires IsTerminator(msg[|msg| - 1]) && forall i :: 0 <= i < |msg| - 1 ==> !IsTerminator(msg[i])
    ensures var f := Receive(buf, 0, msg);
      f.complete && f.consumed == |msg| && f.it == 0 && f.buf[..|msg|] == msg && f.buf[|msg|] == NUL
  {
    ReceiveStops(buf, 0, msg);
    ReceiveCompletes(buf, 0, msg);
    var f := Receive(buf, 0, msg);
    assert f.complete;
    ReceiveStores(buf, 0, msg);
  }

  /** Sending "AZ", a position's text and a terminator moves the azimuth axis toward
      that position (and "EL" the elevation axis). */
  lemma SetpointCommandMovesAxis(buf: seq<char>, az: M.AxisState, el: M.AxisState, now: nat, p: int, term: char)
    requires |buf| == COMM_BUF_SIZE && now >= M.ENC_DEAD_TIME
    requires NumberToString(p).Some? && IsTerminator(term)
    ensures var msg := ['A', 'Z'] + NumberToString(p).value + [term];
      var f := Receive(buf, 0, msg);
      f.complete && HandleCommand(f.buf, az, el, now).az == M.MoveToPosition(az, p, now)
        && HandleCommand(f.buf, az, el, now).el == el
  {
    var num := NumberToString(p).value;
    NumberToStringCharacters(p);
    NumberToStringParses(p);
    assert ExtFits(p);
    SetpointMessage(buf, az, el, now, num, p, term);
  }

  /** The characters number_to_string writes: digits, a minus and the dot. */
  lemma NumberToStringCharacters(n: int)
    requires NumberToString(n).Some?
    ensures forall i :: 0 <= i < |NumberToString(n).value| ==> NumberChar(NumberToString(n).value[i])
  {
    FormatCharacters(n, MAX_NUMBER_STRING_SIZE, true);
  }

  /** "AZ", a number text that reads as `p` and a terminator, framed and handled. */
  lemma SetpointMessage(buf: seq<char>, az: M.AxisState, el: M.AxisState, now: nat, num: seq<char>, p: int, term: char)
    requires |buf| == COMM_BUF_SIZE && now >= M.ENC_DEAD_TIME && IsTerminator(term)
    requires |num| < MAX_NUMBER_STRING_SIZE && forall i :: 0 <= i < |num| ==> NumberChar(num[i])
    requires ParseDecimal(num, MAX_NUMBER_STRING_SIZE) == Some(p) && ExtFits(p)
    ensures var f := Receive(buf, 0, ['A', 'Z'] + num + [term]);
      f.complete && HandleCommand(f.buf, az, el, now).az == M.MoveToPosition(az, p, now)
        && HandleCommand(f.buf, az, el, now).el == el
  {
    ReceiveSetpoint(buf, num, term);
    var f := Receive(buf, 0, ['A', 'Z'] + num + [term]);
    AzimuthSetpoint(f.buf, az, el, now, p);
  }

  /** "AZ", a number text and a terminator are framed as a command whose setpoint text
      is that number text. */
  lemma ReceiveSetpoint(buf: seq<char>, num: seq<char>, term: char)
    requires |buf| == COMM_BUF_SIZE && IsTerminator(term)
    requires 2 <= |num| < MAX_NUMBER_STRING_SIZE && forall i :: 0 <= i < |num| ==> NumberChar(num[i])
    ensures var f := Receive(buf, 0, ['A', 'Z'] + num + [term]);
      && f.complete && f.buf[0] == 'A' && f.buf[1] == 'Z' && IsAzEl(f.buf)
      && StrNLen(f.buf, COMM_BUF_SIZE) == |num| + 3 && SetpointText(f.buf) == num
  {
    var msg := ['A', 'Z'] + num + [term];
    assert forall i :: 0 <= i < |msg| - 1 ==> !IsTerminator(msg[i]) by {
      forall i | 2 <= i < |msg| - 1
        ensures !IsTerminator(msg[i])
      {
        assert msg[i] == num[i - 2] && NumberChar(num[i - 2]);
      }
    }
    ReceiveMessage(buf, msg);
    var f := Receive(buf, 0, msg);
    assert NoNul(num) by {
      assert forall i :: 0 <= i < |num| ==> NumberChar(num[i]);
    }
    SetpointOfMessage(f.buf, num, term);
  }

  /** A buffer holding "AZ", a setpoint text and a terminator, then NUL: its setpoint
      text is the one sent. */
  lemma SetpointOfMessage(buf: seq<char>, num: seq<char>, term: char)
    requires |buf| == COMM_BUF_SIZE && 2 <= |num| < MAX_NUMBER_STRING_SIZE && NoNul(num)
    requires buf[..|num| + 3] == ['A', 'Z'] + num + [term] && term != NUL
    requires buf[|num| + 3] == NUL
    ensures IsAzEl(buf) && StrNLen(buf, COMM_BUF_SIZE) == |num| + 3 && SetpointText(buf) == num
  {
    var msg := ['A', 'Z'] + num + [term];
    MessageText(num, term);
    StrNLenOfText(buf, COMM_BUF_SIZE, msg);
    assert buf[0] == msg[0] && buf[1] == msg[1] && buf[2..|num| + 2] == num by {
      assert buf[2..|num| + 2] == buf[..|msg|][2..|num| + 2] == msg[2..|num| + 2];
    }
    TerminatorOverwritten(buf, num);
  }

  /** "AZ", a text without NUL and a character other than NUL hold no NUL, and the text
      sits at index 2. */
  lemma MessageText(num: seq<char>, term: char)
    requires NoNul(num) && term != NUL
    ensures var msg := ['A', 'Z'] + num + [term];
      NoNul(msg) && msg[0] == 'A' && msg[1] == 'Z' && msg[2..|num| + 2] == num
  {
    var msg := ['A', 'Z'] + num + [term];
    assert forall i :: 2 <= i < |msg| - 1 ==> msg[i] == num[i - 2];
  }

  /** The terminator after a setpoint text overwritten with NUL: the text at index 2 is
      the setpoint text. */
  lemma TerminatorOverwritten(buf: seq<char>, num: seq<char>)
    requires |buf| == COMM_BUF_SIZE && |num| < MAX_NUMBER_STRING_SIZE && NoNul(num)
    requires buf[2..|num| + 2] == num
    ensures TextAt(buf[|num| + 2 := NUL], 2, MAX_NUMBER_STRING_SIZE) == num
  {
    var b := buf[|num| + 2 := NUL];
    assert b[2..2 + |num|] == num by {
      assert forall i :: 2 <= i < |num| + 2 ==> b[i] == buf[i];
    }
    TextAtIs(b, 2, MAX_NUMBER_STRING_SIZE, num);
  }

  /** An AZ command longer than a query whose setpoint text reads as `p` moves the
      azimuth axis toward `p` and leaves the elevation axis alone. */
  lemma AzimuthSetpoint(buf: seq<char>, az: M.AxisState, el: M.AxisState, now: nat, p: int)
    requires |buf| == COMM_BUF_SIZE && now >= M.ENC_DEAD_TIME
    requires buf[0] == 'A' && buf[1] == 'Z' && StrNLen(buf, COMM_BUF_SIZE) != 3
    requires ParseDecimal(SetpointText(buf), MAX_NUMBER_STRING_SIZE) == Some(p)
    ensures ExtFits(p)
    ensures HandleCommand(buf, az, el, now).az == M.MoveToPosition(az, p, now)
    ensures HandleCommand(buf, az, el, now).el == el
  {
    var o := HandleAzEl(buf, az, now);
    assert o.axis == M.MoveToPosition(az, p, now);
    assert HandleCommand(buf, az, el, now) == Outcome(o.buf, o.axis, el, o.reply);
  }

  /** Sending "AZ" and a terminator is answered with "AZ", the position's text and the
      same terminator, when the position is within -99.9 to 999.9 degrees. */
  lemma QueryReportsPosition(buf: seq<char>, az: M.AxisState, el: M.AxisState, now: nat, term: char)
    requires |buf| == COMM_BUF_SIZE && now >= M.ENC_DEAD_TIME && IsTerminator(term)
    requires -1000 < M.GetCurrentPosition(az) < 10000
    ensures var f := Receive(buf, 0, ['A', 'Z', term]);
      var o := HandleCommand(f.buf, az, el, now);
      f.complete && o.az == az && o.el == el
        && o.reply == ['A', 'Z'] + NumberToString(M.GetCurrentPosition(az)).value + [term]
  {
    ReceiveQuery(buf, term);
    var f := Receive(buf, 0, ['A', 'Z', term]);
    AzimuthQuery(f.buf, az, el, now);
  }

  /** "AZ" and a terminator are framed as a command of three characters. */
  lemma ReceiveQuery(buf: seq<char>, term: char)
    requires |buf| == COMM_BUF_SIZE && IsTerminator(term)
    ensures var f := Receive(buf, 0, ['A', 'Z', term]);
      f.complete && f.buf[0] == 'A' && f.buf[1] == 'Z' && f.buf[2] == term
        && StrNLen(f.buf, COMM_BUF_SIZE) == 3
  {
    var msg := ['A', 'Z', term];
    ReceiveMessage(buf, msg);
    var f := Receive(buf, 0, msg);
    assert f.buf[0] == f.buf[..3][0] && f.buf[1] == f.buf[..3][1] && f.buf[2] == f.buf[..3][2];
    StrNLenOfText(f.buf, COMM_BUF_SIZE, msg);
  }

  /** An AZ command of three characters reports the azimuth position and changes nothing. */
  lemma AzimuthQuery(buf: seq<char>, az: M.AxisState, el: M.AxisState, now: nat)
    requires |buf| == COMM_BUF_SIZE && now >= M.ENC_DEAD_TIME
    requires buf[0] == 'A' && buf[1] == 'Z' && StrNLen(buf, COMM_BUF_SIZE) == 3
    requires -1000 < M.GetCurrentPosition(az) < 10000
    ensures var o := HandleCommand(buf, az, el, now);
      o.az == az && o.el == el
        && o.reply == ['A', 'Z'] + NumberToString(M.GetCurrentPosition(az)).value + [buf[2]]
  {
    var o := HandleAzEl(buf, az, now);
    assert HandleCommand(buf, az, el, now) == Outcome(o.buf, o.axis, el, o.reply);
  }
}
