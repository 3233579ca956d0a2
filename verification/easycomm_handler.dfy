/** CEasyCommHandler of src/easycomm_handler.h and src/easycomm_handler.cpp as an object:
    the static command and response buffers, the write index and the two axes it drives.
    Every method is proved to leave the buffers and the axes as the functions of module
    EasyComm say. */
module EasyCommHandler {
  import opened AxisCommon
  import opened CText
  import E = EasyComm
  import M = EncoderMotor
  import A = EncoderAxis

  /** A response that holds the reply, then a NUL, then what it held before. */
  lemma RespondIs(r: seq<char>, before: seq<char>, reply: seq<char>)
    requires |r| == |before| && |reply| < |r| && r[|reply|] == NUL
    requires forall j :: 0 <= j < |reply| ==> r[j] == reply[j]
    requires forall j :: |reply| < j < |r| ==> r[j] == before[j]
    ensures r == E.Respond(before, reply)
  {
  }

  /** What snprintf(num_string, 6, "%02ld", n) leaves: strnlen finds the printed text,
      cut to five characters, and stays below five exactly when the number has a text. */
  lemma PrintedNumber(n: int, s: seq<char>)
    requires var out := Snprintf(Render02(n), E.MAX_NUMBER_STRING_SIZE); |s| == E.MAX_NUMBER_STRING_SIZE && s[..|out|] == out
    ensures var len := StrNLen(s, E.MAX_NUMBER_STRING_SIZE);
      && 2 <= len < E.MAX_NUMBER_STRING_SIZE
      && (len < E.MAX_NUMBER_STRING_SIZE - 1 <==> E.NumberToString(n).Some?)
      && (len < E.MAX_NUMBER_STRING_SIZE - 1 ==> s[..len] == Render02(n))
    ensures NoNul(Render02(n))
  {
    var t := Render02(n);
    var k := if |t| < E.MAX_NUMBER_STRING_SIZE then |t| else E.MAX_NUMBER_STRING_SIZE - 1;
    var out := Snprintf(t, E.MAX_NUMBER_STRING_SIZE);
    assert out == t[..k] + [NUL];
    PrefixOfPrefix(s, out, t[..k]);
    RenderCharacters(n);
    StrNLenOfText(s, E.MAX_NUMBER_STRING_SIZE, t[..k]);
    NumberTextIs(n);
  }

  /** A buffer that starts with `p + [NUL]` starts with `p`, then a NUL. */
  lemma PrefixOfPrefix(s: seq<char>, out: seq<char>, p: seq<char>)
    requires |out| <= |s| && s[..|out|] == out && out == p + [NUL]
    ensures s[..|p|] == p && s[|p|] == NUL
  {
    assert s[..|p|] == out[..|p|];
  }

  /** The text of number_to_string is the "%02ld" text with a dot before its last digit,
      present when that text has at most four characters. */
  lemma NumberTextIs(n: int)
    ensures E.NumberToString(n).Some? <==> |Render02(n)| < E.MAX_NUMBER_STRING_SIZE - 1
    ensures E.NumberToString(n).Some? ==> E.NumberToString(n).value == InsertDot(Render02(n))
  {
  }

  class Handler {
    /** The static buffers of handle_commands and its write index. */
    const command: array<char>
    const response: array<char>
    var it: nat
    /** The axes that begin() binds. */
    const azimuth: A.Axis
    const elevation: A.Axis

    ghost predicate Valid()
      reads this
    {
      && command.Length == E.COMM_BUF_SIZE && response.Length == E.RESP_BUF_SIZE
      && it <= E.COMM_BUF_SIZE - 2 && command != response && azimuth != elevation
    }

    /** begin(): the buffers start zeroed, as static storage does. */
    constructor (az: A.Axis, el: A.Axis)
      requires az != el
      ensures Valid() && azimuth == az && elevation == el && it == 0
      ensures fresh(command) && fresh(response)
      ensures forall i :: 0 <= i < command.Length ==> command[i] == NUL
      ensures forall i :: 0 <= i < response.Length ==> response[i] == NUL
    {
      azimuth, elevation := az, el;
      command := new char[E.COMM_BUF_SIZE](_ => NUL);
      response := new char[E.RESP_BUF_SIZE](_ => NUL);
      it := 0;
    }

    /** handle_commands(client): `input` is what the client has available and `now` the
        clock. Returns how many characters were read and what was written back. */
    method HandleCommands(input: seq<char>, now: nat) returns (consumed: nat, written: seq<char>)
      requires Valid() && now >= M.ENC_DEAD_TIME
      modifies this, command, response, azimuth, elevation
      ensures Valid()
      ensures var f := E.Receive(old(command[..]), old(it), input);
        && consumed == f.consumed && it == f.it
        && (f.complete ==>
              var o := E.HandleCommand(f.buf, old(azimuth.State()), old(elevation.State()), now);
              && command[..] == o.buf && azimuth.State() == o.az && elevation.State() == o.el
              && response[..] == E.Respond(old(response[..]), o.reply) && written == o.reply)
        && (!f.complete ==>
              && command[..] == f.buf && azimuth.State() == old(azimuth.State())
              && elevation.State() == old(elevation.State())
              && response[..] == old(response[..]) && written == [])
    {
      var complete;
      consumed, complete := ReadCommand(input);
      written := [];
      if complete {
        ghost var f := E.Receive(old(command[..]), old(it), input);
        ghost var o := E.HandleCommand(f.buf, old(azimuth.State()), old(elevation.State()), now);
        HandleCommand(now);
        E.ReplyHasNoNul(f.buf, old(azimuth.State()), old(elevation.State()), now);
        written := SentText(o.reply);
      }
    }

    /** The read loop of handle_commands: characters are stored until a terminator, a
        full buffer or the end of the input. */
    method ReadCommand(input: seq<char>) returns (consumed: nat, complete: bool)
      requires Valid()
      modifies this, command
      ensures Valid()
      ensures var f := E.Receive(old(command[..]), old(it), input);
        && command[..] == f.buf && it == f.it && consumed == f.consumed && complete == f.complete
    {
      ghost var f := E.Receive(command[..], it, input);
      ghost var cur := command[..];
      var rest := input;
      complete := false;
      consumed := 0;
      while rest != []
        invariant Valid() && command[..] == cur
        invariant var r := E.Receive(cur, it, rest);
          f == r.(consumed := r.consumed + consumed)
      {
        if it == E.COMM_BUF_SIZE - 2 {
          E.ReceiveStep(cur, it, rest);
          it := 0;
          return;
        }
        var recvChar := rest[0];
        ghost var before, consumedBefore := rest, consumed;
        rest := rest[1..];
        consumed := consumed + 1;
        command[it] := recvChar;
        it := it + 1;
        if E.IsTerminator(recvChar) {
          E.ReceiveStep(cur, it - 1, before);
          if it > 1 {
            command[it] := NUL;
            complete := true;
          }
          it := 0;
          return;
        }
        E.ReceiveAdvance(f, cur, it - 1, before, consumedBefore);
        cur := cur[it - 1 := recvChar];
      }
    }

    /** client.write(response): the characters before the response's NUL. */
    method SentText(ghost reply: seq<char>) returns (w: seq<char>)
      requires Valid() && |reply| < E.RESP_BUF_SIZE && NoNul(reply)
      requires response[..|reply|] == reply && response[|reply|] == NUL
      ensures w == reply
    {
      var n := CStrNLen(response, 0, E.RESP_BUF_SIZE);
      StrNLenOfText(response[..], E.RESP_BUF_SIZE, reply);
      w := response[..n];
    }

    /** handle_command(command, response): the response is emptied, then the first two
        characters of the command pick the action. */
    method HandleCommand(now: nat)
      requires Valid() && now >= M.ENC_DEAD_TIME
      modifies command, response, azimuth, elevation
      ensures var o := E.HandleCommand(old(command[..]), old(azimuth.State()), old(elevation.State()), now);
        && command[..] == o.buf && azimuth.State() == o.az && elevation.State() == o.el
        && response[..] == E.Respond(old(response[..]), o.reply)
    {
      response[0] := NUL;
      ghost var o := E.HandleCommand(old(command[..]), old(azimuth.State()), old(elevation.State()), now);
      E.RespondAfterClear(old(response[..]), o.reply);
      if command[0] == 'A' && command[1] == 'Z' {
        HandleAzElCommand(azimuth, now);
      } else if command[0] == 'E' && command[1] == 'L' {
        HandleAzElCommand(elevation, now);
      } else if command[0] == 'V' && command[1] == 'E' {
        // the version string goes to the debug port only
      } else if command[0] == 'M' {
        Jog(now);
      } else if command[0] == 'S' {
        Stop(now);
      }
    }

    /** The M branch of handle_command: ML, MR jog the azimuth, MU, MD the elevation. */
    method Jog(now: nat)
      requires Valid() && now >= M.ENC_DEAD_TIME
      modifies azimuth, elevation
      ensures azimuth.State() == E.JogAzimuth(command[1], old(azimuth.State()), now)
      ensures elevation.State() == E.JogElevation(command[1], old(elevation.State()), now)
    {
      if command[1] == 'L' {
        azimuth.MoveNegative(now);
      }
      if command[1] == 'R' {
        azimuth.MovePositive(now);
      }
      if command[1] == 'U' {
        elevation.MovePositive(now);
      }
      if command[1] == 'D' {
        elevation.MoveNegative(now);
      }
    }

    /** The S branch of handle_command: SA stops the azimuth, SE the elevation. */
    method Stop(now: nat)
      requires Valid() && now >= M.ENC_DEAD_TIME
      modifies azimuth, elevation
      ensures azimuth.State() == if command[1] == 'A' then M.StopMoving(old(azimuth.State()), now) else old(azimuth.State())
      ensures elevation.State() == if command[1] == 'E' then M.StopMoving(old(elevation.State()), now) else old(elevation.State())
    {
      if command[1] == 'A' {
        azimuth.StopMoving(now);
      }
      if command[1] == 'E' {
        elevation.StopMoving(now);
      }
    }

    /** handle_az_el_command(axis, command, response) on an emptied response. */
    method HandleAzElCommand(axis: A.Axis, now: nat)
      requires Valid() && now >= M.ENC_DEAD_TIME && E.IsAzEl(command[..])
      requires axis == azimuth || axis == elevation
      requires response[0] == NUL
      modifies command, response, axis
      ensures var o := E.HandleAzEl(old(command[..]), old(axis.State()), now);
        && command[..] == o.buf && axis.State() == o.axis
        && response[..] == E.Respond(old(response[..]), o.reply)
    {
      var len := CStrNLen(command, 0, E.COMM_BUF_SIZE);
      ghost var o := E.HandleAzEl(command[..], axis.State(), now);
      if len == 3 {
        ReportPosition(axis);
        assert o.reply == E.QueryReply(command[..], M.GetCurrentPosition(axis.State()));
      } else {
        MoveToSetpoint(axis, len, now);
      }
    }

    /** The query branch of handle_az_el_command: the position's text between the two
        letters and the terminator, or nothing when number_to_string refuses it. */
    method ReportPosition(axis: A.Axis)
      requires Valid() && E.IsAzEl(command[..]) && response[0] == NUL
      modifies response
      ensures response[..] == E.Respond(old(response[..]), E.QueryReply(command[..], M.GetCurrentPosition(axis.State())))
    {
      var curPos := axis.GetCurrentPosition();
      var ok, numString := NumberToString(curPos);
      if ok {
        WriteReply(command[0], command[1], numString, command[2]);
      } else {
        assert response[..] == E.Respond(old(response[..]), []);
      }
    }

    /** The setpoint branch of handle_az_el_command: the terminator at len - 1 is
        overwritten, the text after the two letters parsed, and the axis moved there. */
    method MoveToSetpoint(axis: A.Axis, len: nat, now: nat)
      requires Valid() && now >= M.ENC_DEAD_TIME && E.IsAzEl(command[..])
      requires len == StrNLen(command[..], E.COMM_BUF_SIZE)
      modifies command, axis
      ensures var p := E.ParseSetpoint(old(command[..]));
        && command[..] == p.buf
        && axis.State() == if p.number.Some? then M.MoveToPosition(old(axis.State()), p.number.value, now) else old(axis.State())
    {
      assert command[0] != NUL && command[1] != NUL;
      command[len - 1] := NUL;
      ghost var p := E.ParseSetpoint(old(command[..]));
      assert p == CText.StringToNumber(command[..], 2, E.MAX_NUMBER_STRING_SIZE) by {
        assert command[..] == old(command[..])[len - 1 := NUL];
      }
      var ok, number := StringToNumber(2);
      if ok {
        axis.MoveToPosition(number, now);
      }
    }

    /** snprintf(response, RESP_BUF_SIZE, "%c%c%s%c", ...): the two letters, the number
        text before its NUL, the terminator and a NUL. */
    method WriteReply(a: char, b: char, num: array<char>, c: char)
      requires Valid() && num != response && num.Length == E.MAX_NUMBER_STRING_SIZE
      modifies response
      ensures var reply := E.Enclose(a, b, num[..StrNLen(num[..], E.MAX_NUMBER_STRING_SIZE)], c);
        response[..] == E.Respond(old(response[..]), reply)
    {
      var n := CStrNLen(num, 0, E.MAX_NUMBER_STRING_SIZE);
      response[0] := a;
      response[1] := b;
      var i := 0;
      while i < n
        invariant 0 <= i <= n && response[0] == a && response[1] == b
        invariant forall j :: 0 <= j < i ==> response[2 + j] == num[j]
        invariant forall j :: 2 + i <= j < response.Length ==> response[j] == old(response[j])
      {
        response[2 + i] := num[i];
        i := i + 1;
      }
      response[2 + n] := c;
      response[3 + n] := NUL;
      RespondIs(response[..], old(response[..]), E.Enclose(a, b, num[..n], c));
    }

    /** string_to_number(&command[start], number) with MAX_NUMBER_STRING_SIZE. */
    method StringToNumber(start: nat) returns (ok: bool, number: int)
      requires Valid() && 2 <= start && start + E.MAX_NUMBER_STRING_SIZE <= command.Length
      modifies command
      ensures var p := CText.StringToNumber(old(command[..]), start, E.MAX_NUMBER_STRING_SIZE);
        command[..] == p.buf && ok == p.number.Some? && (ok ==> number == p.number.value)
    {
      var len := CStrNLen(command, start, E.MAX_NUMBER_STRING_SIZE);
      assert command[..][start..] == command[start..];
      if len >= E.MAX_NUMBER_STRING_SIZE {
        return false, 0;
      }
      if command[start + len - 2] != '.' {
        return false, 0;
      }
      command[start + len - 2] := command[start + len - 1];
      command[start + len - 1] := NUL;
      number := Atol(TextAt(command[..], start, E.MAX_NUMBER_STRING_SIZE));
      ok := true;
    }

    /** snprintf(num_string, MAX_NUMBER_STRING_SIZE, "%02ld", n) into fresh storage. */
    static method PrintNumber(n: int) returns (s: array<char>)
      ensures fresh(s) && s.Length == E.MAX_NUMBER_STRING_SIZE
      ensures var out := Snprintf(Render02(n), E.MAX_NUMBER_STRING_SIZE); s[..|out|] == out
    {
      var out := Snprintf(Render02(n), E.MAX_NUMBER_STRING_SIZE);
      s := new char[E.MAX_NUMBER_STRING_SIZE](i requires 0 <= i => if i < |out| then out[i] else NUL);
      assert s[..|out|] == out;
    }

    /** number_to_string(number, num_string) with the length test the text needs: the
        digits, a dot and a NUL must fit the six bytes of num_string. */
    static method NumberToString(n: int) returns (ok: bool, s: array<char>)
      ensures fresh(s) && s.Length == E.MAX_NUMBER_STRING_SIZE
      ensures ok == E.NumberToString(n).Some?
      ensures ok ==> var text := E.NumberToString(n).value;
        StrNLen(s[..], E.MAX_NUMBER_STRING_SIZE) == |text| && s[..|text|] == text && NoNul(text)
    {
      s := PrintNumber(n);
      var len := CStrNLen(s, 0, E.MAX_NUMBER_STRING_SIZE);
      PrintedNumber(n, s[..]);
      if len >= E.MAX_NUMBER_STRING_SIZE - 1 {
        return false, s;
      }
      ghost var before := s[..];
      WriteDot(s, len);
      ok := true;
      NumberTextIs(n);
      DottedText(Render02(n), before, s[..], E.MAX_NUMBER_STRING_SIZE);
    }
  }
}
