/** CEasyCommHandler of easycomm_handler.h and easycomm_handler.cpp, the first iteration,
    as an object: the static 64-byte receive buffer, its index and the two axes begin()
    binds. Every method is proved to leave the buffer, the index and the axes as the
    functions of module LegacyEasyComm say, and to return the reply written to the
    serial port. */
module LegacyEasyCommHandler {
  import opened AxisCommon
  import opened CText
  import E = EasyComm
  import L = LegacyEasyComm
  import M = LegacyMotor
  import A = LegacyAxis

  /** What snprintf(num_string, 6, "%ld", n) leaves, read with strnlen(num_string, 5):
      the printed text, cut to five characters, and below five exactly when the number
      has a text. */
  lemma PrintedNumber(n: int, s: seq<char>)
    requires var out := Snprintf(Render(n), L.MAX_NUMBER_STRING_SIZE); |s| == L.MAX_NUMBER_STRING_SIZE && s[..|out|] == out
    ensures var len := StrNLen(s, L.MAX_NUMBER_STRING_SIZE - 1);
      && 1 <= len <= L.MAX_NUMBER_STRING_SIZE - 1
      && (len < L.MAX_NUMBER_STRING_SIZE - 1 <==> L.NumberToString(n).Some?)
      && (len < L.MAX_NUMBER_STRING_SIZE - 1 ==> s[..len] == Render(n))
    ensures NoNul(Render(n))
  {
    RenderCharacters(n);
    PrintedText(Render(n), s, L.MAX_NUMBER_STRING_SIZE);
    NumberTextIs(n);
  }

  /** The text of number_to_string is the "%ld" text with a dot before its last digit,
      present when that text has at most four characters. */
  lemma NumberTextIs(n: int)
    ensures L.NumberToString(n).Some? <==> |Render(n)| < L.MAX_NUMBER_STRING_SIZE - 1
    ensures L.NumberToString(n).Some? ==> L.NumberToString(n).value == InsertDot(Render(n))
  {
  }

  class Handler {
    /** The static receive buffer and its index. */
    const buffer: array<char>
    var index: nat
    /** The axes that begin() binds. */
    const azimuth: A.Axis
    const elevation: A.Axis

    /** The buffer has its size, the index stays inside it, the axes are two, and each
        holds a request the state machine takes. */
    ghost predicate Valid()
      reads this, azimuth, elevation
    {
      && buffer.Length == L.BUF_SIZE && index < L.BUF_SIZE && azimuth != elevation
      && azimuth.req.IsCommand() && elevation.req.IsCommand()
    }

    /** begin(): the buffer starts zeroed, as static storage does, and the index at 0. */
    constructor (az: A.Axis, el: A.Axis)
      requires az != el && az.req.IsCommand() && el.req.IsCommand()
      ensures Valid() && azimuth == az && elevation == el && index == 0
      ensures fresh(buffer) && forall i :: 0 <= i < buffer.Length ==> buffer[i] == NUL
    {
      azimuth, elevation := az, el;
      buffer := new char[L.BUF_SIZE](_ => NUL);
      index := 0;
    }

    /** update(): `input` is what the serial port has available and `now` the clock.
        Returns how many characters were read and what was written back. */
    method Update(input: seq<char>, now: nat) returns (consumed: nat, reply: seq<char>)
      requires Valid()
      modifies this, buffer, azimuth, elevation
      ensures Valid()
      ensures var u := L.Update(old(buffer[..]), old(index), input, old(azimuth.State()), old(elevation.State()),
                                now, azimuth.pol, elevation.pol);
        && buffer[..] == u.buf && index == u.index && consumed == u.consumed
        && azimuth.State() == u.az && elevation.State() == u.el && reply == u.reply
    {
      var stop;
      consumed, stop := ReadCommand(input);
      reply := [];
      if stop == L.Terminator {
        reply := HandleCommand(now);
        index := 0;
      }
    }

    /** The read loop of update(): each character is stored at the index, then the
        buffer is tested for fullness, then the character for a terminator. */
    method ReadCommand(input: seq<char>) returns (consumed: nat, stop: L.Stop)
      requires Valid()
      modifies this, buffer
      ensures Valid()
      ensures var f := L.Receive(old(buffer[..]), old(index), input);
        buffer[..] == f.buf && index == f.index && consumed == f.consumed && stop == f.stop
    {
      ghost var f := L.Receive(buffer[..], index, input);
      ghost var cur := buffer[..];
      var rest := input;
      consumed := 0;
      while rest != []
        invariant Valid() && buffer[..] == cur
        invariant var r := L.Receive(cur, index, rest);
          f == r.(consumed := r.consumed + consumed)
      {
        var c := rest[0];
        ghost var before, consumedBefore := rest, consumed;
        rest := rest[1..];
        buffer[index] := c;
        consumed := consumed + 1;
        if index == L.BUF_SIZE - 1 {
          L.ReceiveStep(cur, index, before);
          index := 0;
          return consumed, L.BufferFull;
        }
        if E.IsTerminator(buffer[index]) {
          L.ReceiveStep(cur, index, before);
          return consumed, L.Terminator;
        }
        L.ReceiveAdvance(f, cur, index, before, consumedBefore);
        cur := cur[index := c];
        index := index + 1;
      }
      stop := L.InputEnd;
    }

    /** handle_command(): the first two bytes of the buffer pick the action. */
    method HandleCommand(now: nat) returns (reply: seq<char>)
      requires Valid() && E.IsTerminator(buffer[index])
      modifies buffer, azimuth, elevation
      ensures Valid()
      ensures var o := L.HandleCommand(old(buffer[..]), index, old(azimuth.State()), old(elevation.State()),
                                       now, azimuth.pol, elevation.pol);
        && buffer[..] == o.buf && azimuth.State() == o.az && elevation.State() == o.el && reply == o.reply
    {
      reply := [];
      if buffer[0] == 'A' && buffer[1] == 'Z' {
        reply := HandleAzElCommand(azimuth, now);
      } else if buffer[0] == 'E' && buffer[1] == 'L' {
        reply := HandleAzElCommand(elevation, now);
      } else if buffer[0] == 'V' && buffer[1] == 'E' {
        // the version string is left out of the reply
      } else if buffer[0] == 'M' {
        Jog(now);
      } else if buffer[0] == 'S' {
        Stop(now);
      }
    }

    /** The M branch of handle_command: ML, MR jog the azimuth, MU, MD the elevation. */
    method Jog(now: nat)
      requires Valid()
      modifies azimuth, elevation
      ensures Valid()
      ensures azimuth.State() == L.JogAzimuth(buffer[1], old(azimuth.State()), now, azimuth.pol)
      ensures elevation.State() == L.JogElevation(buffer[1], old(elevation.State()), now, elevation.pol)
    {
      if buffer[1] == 'L' {
        azimuth.MoveNegative(now);
      }
      if buffer[1] == 'R' {
        azimuth.MovePositive(now);
      }
      if buffer[1] == 'U' {
        elevation.MovePositive(now);
      }
      if buffer[1] == 'D' {
        elevation.MoveNegative(now);
      }
    }

    /** The S branch of handle_command: SA stops the azimuth, SE the elevation. */
    method Stop(now: nat)
      requires Valid()
      modifies azimuth, elevation
      ensures Valid()
      ensures azimuth.State() ==
        if buffer[1] == 'A' then M.StopMoving(old(azimuth.State()), now, azimuth.pol) else old(azimuth.State())
      ensures elevation.State() ==
        if buffer[1] == 'E' then M.StopMoving(old(elevation.State()), now, elevation.pol) else old(elevation.State())
    {
      if buffer[1] == 'A' {
        azimuth.StopMoving(now);
      }
      if buffer[1] == 'E' {
        elevation.StopMoving(now);
      }
    }

    /** handle_az_el_command(axis): the index tells a query from a setpoint. */
    method HandleAzElCommand(axis: A.Axis, now: nat) returns (reply: seq<char>)
      requires Valid() && 2 <= index && E.IsAzEl(buffer[..])
      requires axis == azimuth || axis == elevation
      modifies buffer, axis
      ensures Valid()
      ensures var o := L.HandleAzEl(old(buffer[..]), index, old(axis.State()), now, axis.pol);
        buffer[..] == o.buf && axis.State() == o.axis && reply == o.reply
    {
      if index == 2 {
        reply := ReportPosition(axis);
      } else {
        MoveToSetpoint(axis, now);
        reply := [];
      }
    }

    /** The query branch of handle_az_el_command: the two letters, the position's text
        and the terminator, or nothing when number_to_string refuses the position. */
    method ReportPosition(axis: A.Axis) returns (reply: seq<char>)
      requires Valid()
      ensures reply == L.QueryReply(buffer[..], M.GetCurrentPosition(axis.State()))
    {
      var curPos := axis.GetCurrentPosition();
      var ok, numString := NumberToString(curPos);
      reply := [];
      if ok {
        reply := ReplyOf(numString, L.NumberToString(curPos).value);
      }
    }

    /** The query reply around the text in `numString`: the command's two letters before
        it and its terminator after it. */
    method ReplyOf(numString: array<char>, ghost text: seq<char>) returns (reply: seq<char>)
      requires Valid() && numString.Length == L.MAX_NUMBER_STRING_SIZE
      requires StrNLen(numString[..], L.MAX_NUMBER_STRING_SIZE) == |text| && numString[..|text|] == text
      ensures reply == E.Enclose(buffer[0], buffer[1], text, buffer[2])
    {
      var n := CStrNLen(numString, 0, L.MAX_NUMBER_STRING_SIZE);
      reply := [buffer[0], buffer[1]] + numString[..n] + [buffer[2]];
    }

    /** The setpoint branch of handle_az_el_command: the terminator is overwritten, the
        text after the two letters parsed, and the axis moved there. */
    method MoveToSetpoint(axis: A.Axis, now: nat)
      requires Valid() && 2 < index && E.IsAzEl(buffer[..])
      requires axis == azimuth || axis == elevation
      modifies buffer, axis
      ensures Valid()
      ensures var p := L.ParseSetpoint(old(buffer[..]), index);
        && buffer[..] == p.buf
        && axis.State() ==
          if p.number.Some? then M.MoveToPosition(old(axis.State()), p.number.value, now, axis.pol) else old(axis.State())
    {
      buffer[index] := NUL;
      ghost var p := L.ParseSetpoint(old(buffer[..]), index);
      assert p == CText.StringToNumber(buffer[..], 2, L.MAX_NUMBER_STRING_SIZE) by {
        assert buffer[..] == old(buffer[..])[index := NUL];
      }
      var ok, number := StringToNumber(2);
      if ok {
        axis.MoveToPosition(number, now);
      }
    }

    /** string_to_number(&mReceiveBuffer[start], number) with MAX_NUMBER_STRING_SIZE. */
    method StringToNumber(start: nat) returns (ok: bool, number: int)
      requires Valid() && 2 <= start && start + L.MAX_NUMBER_STRING_SIZE <= buffer.Length
      modifies buffer
      ensures var p := CText.StringToNumber(old(buffer[..]), start, L.MAX_NUMBER_STRING_SIZE);
        buffer[..] == p.buf && ok == p.number.Some? && (ok ==> number == p.number.value)
    {
      var len := CStrNLen(buffer, start, L.MAX_NUMBER_STRING_SIZE);
      assert buffer[..][start..] == buffer[start..];
      if len >= L.MAX_NUMBER_STRING_SIZE {
        return false, 0;
      }
      if buffer[start + len - 2] != '.' {
        return false, 0;
      }
      buffer[start + len - 2] := buffer[start + len - 1];
      buffer[start + len - 1] := NUL;
      number := Atol(TextAt(buffer[..], start, L.MAX_NUMBER_STRING_SIZE));
      ok := true;
    }

    /** snprintf(num_string, MAX_NUMBER_STRING_SIZE, "%ld", n) into fresh storage. */
    static method PrintNumber(n: int) returns (s: array<char>)
      ensures fresh(s) && s.Length == L.MAX_NUMBER_STRING_SIZE
      ensures var out := Snprintf(Render(n), L.MAX_NUMBER_STRING_SIZE); s[..|out|] == out
    {
      var out := Snprintf(Render(n), L.MAX_NUMBER_STRING_SIZE);
      s := new char[L.MAX_NUMBER_STRING_SIZE](i requires 0 <= i => if i < |out| then out[i] else NUL);
      assert s[..|out|] == out;
    }

    /** number_to_string(number, num_string): the "%ld" text, refused from five
        characters on, with a dot written before its last character. */
    static method NumberToString(n: int) returns (ok: bool, s: array<char>)
      ensures fresh(s) && s.Length == L.MAX_NUMBER_STRING_SIZE
      ensures ok == L.NumberToString(n).Some?
      ensures ok ==> var text := L.NumberToString(n).value;
        StrNLen(s[..], L.MAX_NUMBER_STRING_SIZE) == |text| && s[..|text|] == text && NoNul(text)
    {
      s := PrintNumber(n);
      var len := CStrNLen(s, 0, L.MAX_NUMBER_STRING_SIZE - 1);
      PrintedNumber(n, s[..]);
      if len >= L.MAX_NUMBER_STRING_SIZE - 1 {
        return false, s;
      }
      ghost var before := s[..];
      WriteDot(s, len);
      ok := true;
      NumberTextIs(n);
      DottedText(Render(n), before, s[..], L.MAX_NUMBER_STRING_SIZE);
    }
  }
}
