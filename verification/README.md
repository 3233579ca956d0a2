# rotator-uc in Dafny

A model of the firmware core of rotator-uc, an Arduino controller for an
azimuth/elevation antenna rotator. The rotator is driven by two relay-switched
gearmotors with an encoder each and controlled over the EasyComm text protocol
that hamlib's `rotctld` speaks. Each iteration of the two components is modelled
separately:

- **The axis engine.** `CEncoderAxis` of src/encoder_axis.cpp (2 ms encoder dead
  time, a ±5000 hysteresis band, requests only acted on when allowed) is in
  modules `EncoderMotor` (the state machine as functions) and `EncoderAxis` (the
  class whose methods update its fields in place). The earlier `CEncoderAxis` of
  encoder_axis.cpp and `CAxis` of axis.cpp run the same logic and differ only in
  the relay polarity (active-high versus active-low). They share module
  `LegacyMotor` (functions, with the polarity as a parameter) and `LegacyAxis`
  (one class whose constructor fixes the polarity). Shared types and the
  external/internal unit conversion are in `AxisCommon`.
- **The EasyComm handler.** The `handle_commands` framing loop of
  src/easycomm_handler.h and the dispatch, query, setpoint and number
  conversions of src/easycomm_handler.cpp are in module `EasyComm` (functions)
  and `EasyCommHandler` (a class over the static `command` and `response`
  arrays, with methods proved against those functions). The first handler,
  easycomm_handler.cpp with its 64-byte `mReceiveBuffer`, is in
  `LegacyEasyComm` and `LegacyEasyCommHandler`.
- **The C library pieces** the handlers rely on (`strnlen`, `atol`, `snprintf`
  with `%ld`/`%02ld`) are specified as functions on character sequences in
  module `CText`, together with the in-place dot insertion and removal and the
  parse/format round trips.
- **tests/test_number_parse.c** is in `NumberParseTest`. It is the variant that
  scales by ten on parse and back on format, with a 10-byte buffer, and its
  `main` is a method proved to produce the strings it prints.

Time is an explicit `now: nat` argument (one clock reading per call). `delay`
advances that value. An encoder interrupt is an ordinary method call, atomic
with respect to the others. In homing, the encoder interrupts that fire during
each delay are an input sequence. Angles are integers in 1e-4 degree internally
and 1e-1 degree externally. The `double` factor 1e3 is exact ×1000, and the
cast back to `int32_t` is division truncating toward zero (`TruncDiv`).

Two details of the code:

- In easycomm_handler.cpp the receive index can be 63 between calls. After 63 non-terminators the index reaches 63, and the next byte is
  stored there and then discarded, whatever it is. The model follows the code:
  `LegacyEasyComm.Receive` keeps `index < 64`, and
  `LegacyEasyComm.TerminatorInLastPlaceDropped` shows a terminator in that
  place being dropped.
- In src/easycomm_handler.cpp, `number_to_string`'s length test cannot fire
  (see Findings). The handler model refuses renderings that do not fit.

## Model

| member | source | states |
|---|---|---|
| AxisCommon.TruncDiv | src/encoder_axis.cpp:107-116 | the quotient's magnitude is the floored quotient of the magnitudes and its sign is the dividend's, as the cast of a double quotient to int32 gives |
| AxisCommon.EncoderDelta | src/encoder_axis.cpp:50-58 | an accepted edge counts +375 exactly in RunningPos/StoppingPos, −375 exactly in RunningNeg/StoppingNeg, and 0 when Stopped |
| AxisCommon.ExternalRoundTrip | src/encoder_axis.cpp:107-125 | scaling a position by ×1000 and converting back gives the same position |
| EncoderMotor.Initial | src/encoder_axis.cpp:21-33 | the constructor leaves the axis Stopped with Stopped requested, angle and setpoint 0, stop-at-setpoint set and relays not yet written |
| EncoderMotor.Begin | src/encoder_axis.cpp:35-42 | begin drives both relays off, which makes them follow a non-running state, and leaves the motor state and angles alone |
| EncoderMotor.SetState | src/encoder_axis.cpp:206-241 | _motor_set_state enters the state; along a diagram edge it keeps the relays following the state; entering a running state rebases the dead time to now−2; nothing else changes |
| EncoderMotor.Request | src/encoder_axis.cpp:158-204 | from Stopped only RunningPos/RunningNeg take effect, entered directly; a running motor enters its Stopping state on a Stopped or reversal request with due time now+500 and remembers the request, and ignores the same direction; a Stopping motor keeps its remembered request and due time, changes only if now > due time, and then enters exactly the request; relays keep following the state |
| EncoderMotor.Update | src/encoder_axis.cpp:127-156 | Stopped does nothing; RunningPos enters StoppingPos iff stalled (now > lastChange+500) or stop-at-setpoint with angle ≥ setpoint (RunningNeg symmetric with ≤), requesting Stopped; a Stopping motor re-requests the remembered state and leaves only once its due time has passed, keeping the remembered request and due time; a run that does not stop and a coast-out before its due time are left as they were |
| EncoderMotor.EncInterrupt | src/encoder_axis.cpp:44-62 | an edge within 2 ms of the last accepted one changes nothing; an accepted edge records now and moves the angle by the state's increment; nothing else changes |
| EncoderMotor.SetCurrentPosition | src/encoder_axis.cpp:118-125 | get_current_position after set_current_position(p) returns p, and only the angle changes |
| EncoderMotor.MoveToPosition | src/encoder_axis.cpp:71-87 | the setpoint becomes 1000·p with stop-at-setpoint set and reads back as p; the request made is the hysteresis direction to it, in every state: from Stopped the axis runs positive iff 1000·p > angle+5000 and negative iff 1000·p < angle−5000; a run keeps going iff the target is still beyond the band ahead, and otherwise coasts out remembering the opposite direction or Stopped; a coasting axis is untouched until its due time and then enters the hysteresis direction |
| EncoderMotor.HysteresisDirection | src/encoder_axis.cpp:75-86 | RunningPos iff the target is more than 5000 above the angle, RunningNeg iff more than 5000 below, Stopped inside the band |
| EncoderMotor.MovePositive | src/encoder_axis.cpp:89-93 | clears stop-at-setpoint; from Stopped the axis runs positive, a negative run coasts out remembering RunningPos with due time now+500, a positive run is unchanged, and a coasting axis is unchanged until its due time has passed and then runs positive |
| EncoderMotor.MoveNegative | src/encoder_axis.cpp:95-99 | clears stop-at-setpoint; from Stopped the axis runs negative, a positive run coasts out remembering RunningNeg with due time now+500, a negative run is unchanged, and a coasting axis is unchanged until its due time has passed and then runs negative |
| EncoderMotor.StopMoving | src/encoder_axis.cpp:101-105 | sets stop-at-setpoint; a running axis enters its Stopping state with Stopped remembered and due time now+500, a stopped axis is otherwise unchanged, and a coasting axis is unchanged until its due time has passed and then stops |
| EncoderMotor.StepKeepsCoasting | src/encoder_axis.cpp:190-202 | no single operation or edge at or before the due time moves a Stopping motor or touches its due time or remembered request |
| EncoderMotor.CoastOut | src/encoder_axis.cpp:150-154 | any run of operations and edges up to the due time leaves a Stopping motor in that state with the request remembered when the coast-out began |
| EncoderMotor.LeavingRunArmsTimer | src/encoder_axis.cpp:172-189 | leaving a running state at time t arms the due time t+500 |
| EncoderMotor.NoReengageWithinCoastOut | src/encoder_axis.cpp:172-202 | after leaving a running state, no run of operations within the next 500 ms engages any direction |
| EncoderMotor.RunKeepsRelays | src/encoder_axis.cpp:208-241 | once the relays follow the state, they do so after every run of operations and edges |
| EncoderMotor.BeginEstablishesRelays | src/encoder_axis.cpp:21-42 | after construction and begin both relays are off and follow the state |
| EncoderAxis.Axis.constructor | src/encoder_axis.cpp:21-33 | the new object's state is EncoderMotor.Initial |
| EncoderAxis.Axis.Begin | src/encoder_axis.cpp:35-42 | the fields become EncoderMotor.Begin of the old fields |
| EncoderAxis.Axis.EncInterrupt | src/encoder_axis.cpp:44-62 | the fields become EncoderMotor.EncInterrupt of the old fields |
| EncoderAxis.Axis.EncReset | src/encoder_axis.cpp:64-69 | only the last-change time changes, to now−2 |
| EncoderAxis.Axis.MoveToPosition | src/encoder_axis.cpp:71-87 | the fields become EncoderMotor.MoveToPosition of the old fields |
| EncoderAxis.Axis.MovePositive | src/encoder_axis.cpp:89-93 | the fields become EncoderMotor.MovePositive of the old fields |
| EncoderAxis.Axis.MoveNegative | src/encoder_axis.cpp:95-99 | the fields become EncoderMotor.MoveNegative of the old fields |
| EncoderAxis.Axis.StopMoving | src/encoder_axis.cpp:101-105 | the fields become EncoderMotor.StopMoving of the old fields |
| EncoderAxis.Axis.GetPositionSetpoint | src/encoder_axis.cpp:107-110 | returns the setpoint in tenths of a degree, truncated toward zero |
| EncoderAxis.Axis.GetCurrentPosition | src/encoder_axis.cpp:112-116 | returns the angle in tenths of a degree, truncated toward zero |
| EncoderAxis.Axis.SetCurrentPosition | src/encoder_axis.cpp:118-125 | the fields become EncoderMotor.SetCurrentPosition of the old fields |
| EncoderAxis.Axis.Update | src/encoder_axis.cpp:127-156 | the fields become EncoderMotor.Update of the old fields |
| EncoderAxis.Axis.MotorRequestState | src/encoder_axis.cpp:158-204 | the fields become EncoderMotor.Request of the old fields |
| EncoderAxis.Axis.MotorSetState | src/encoder_axis.cpp:206-241 | the fields become EncoderMotor.SetState of the old fields |
| EncoderAxis.Axis.DoHomingProcedure | src/encoder_axis.cpp:243-258 | homing always ends with the position 0; it ends with the axis stopped or after the 60 s timeout, within one 500 ms check of it; stop-at-setpoint is cleared, the setpoint is untouched and the relays keep following the state; encoder interrupts fire within each 500 ms delay |
| EncoderAxis.Axis.IsStopped | src/encoder_axis.cpp:260-263 | true exactly in Stopped |
| LegacyMotor.Initial | encoder_axis.cpp:18-31 | the constructor leaves the axis Stopped with Stopped requested, the encoder level unknown, angle and setpoint 0, stop-at-setpoint set |
| LegacyMotor.Begin | axis.cpp:31-38 | begin writes both relays to the off level of the polarity (low for encoder_axis.cpp, high for axis.cpp) |
| LegacyMotor.SetState | encoder_axis.cpp:154-185 | motor_set_state enters the state; a running state rebases the dead-time clock to now; Stopped changes only the state, writing no relay; along a diagram edge the relays keep following the state; request, due time, angles and encoder level are untouched |
| LegacyMotor.Request | encoder_axis.cpp:187-219 | every request is remembered; from Stopped only a running request takes effect; a running motor enters its Stopping state on a Stopped or reversal request with due time now+500; a Stopping motor only remembers the request |
| LegacyMotor.Update | axis.cpp:119-150 | Stopped does nothing; a running axis enters its Stopping state iff stalled or at its setpoint; a stall or setpoint stop remembers Stopped with due time now+500, and a run that does not stop is left as it was; a Stopping motor keeps its request and due time, and enters the remembered request iff now > due time, being left as it was before |
| LegacyMotor.EncInterrupt | encoder_axis.cpp:42-59 | the same level changes nothing; a level change records the level and now; the angle moves, by the state's increment, only on a level change at least 1 ms after the previous one |
| LegacyMotor.SetCurrentPosition | axis.cpp:108-117 | get_current_position after set_current_position(p) returns p, and only the angle changes |
| LegacyMotor.DirectionTo | encoder_axis.cpp:68-78 | the request is RunningPos iff the target is above the angle, RunningNeg iff below, Stopped on it |
| LegacyMotor.MoveToPosition | encoder_axis.cpp:68-78 | the setpoint becomes 1000·p with stop-at-setpoint set and read back as p; the request made is the direction to it, with no hysteresis; from Stopped the axis runs toward it; a run keeps going iff the target is still ahead and otherwise coasts out with due time now+500; a coasting axis keeps its state and due time |
| LegacyMotor.MovePositive | encoder_axis.cpp:80-84 | clears stop-at-setpoint and remembers RunningPos; from Stopped the axis runs positive, a negative run coasts out with due time now+500, and a positive run or a coasting axis changes in nothing else |
| LegacyMotor.MoveNegative | encoder_axis.cpp:86-90 | clears stop-at-setpoint and remembers RunningNeg; from Stopped the axis runs negative, a positive run coasts out with due time now+500, and a negative run or a coasting axis changes in nothing else |
| LegacyMotor.StopMoving | encoder_axis.cpp:92-95 | leaves stop-at-setpoint as it was and remembers Stopped; a running axis coasts out with due time now+500, and any other axis changes in nothing else |
| LegacyMotor.HomingFinish | encoder_axis.cpp:232-234 | after homing settles, the position reads −100 tenths, the setpoint 0 with stop-at-setpoint set, and RunningPos is requested |
| LegacyMotor.Step | axis.cpp:185-217 | every operation keeps the remembered request one of the three commands |
| LegacyMotor.Run | axis.cpp:185-217 | any run of operations keeps the remembered request one of the three commands |
| LegacyMotor.StepRemembersRequest | axis.cpp:185-189 | every request overwrites the remembered request whatever the state; operations that make no request leave it |
| LegacyMotor.StepKeepsCoasting | encoder_axis.cpp:213-218 | no operation at or before the due time moves a Stopping motor or its due time |
| LegacyMotor.CoastOut | encoder_axis.cpp:143-148 | any run up to the due time leaves a Stopping motor in that state, and the first tick after the due time enters the request remembered last |
| LegacyMotor.RunKeepsRelays | axis.cpp:152-183 | once the relays follow the state, they do so after every run, for either polarity |
| LegacyAxis.Axis.constructor | axis.cpp:16-29 | the new object's state is LegacyMotor.Initial, with the chosen polarity |
| LegacyAxis.Axis.Begin | axis.cpp:31-38 | the fields become LegacyMotor.Begin of the old fields |
| LegacyAxis.Axis.EncInterrupt | axis.cpp:40-57 | the fields become LegacyMotor.EncInterrupt of the old fields |
| LegacyAxis.Axis.EncReset | axis.cpp:59-64 | only the last-change time changes, to now |
| LegacyAxis.Axis.MoveToPosition | axis.cpp:66-76 | the fields become LegacyMotor.MoveToPosition of the old fields |
| LegacyAxis.Axis.MovePositive | axis.cpp:78-82 | the fields become LegacyMotor.MovePositive of the old fields |
| LegacyAxis.Axis.MoveNegative | axis.cpp:84-88 | the fields become LegacyMotor.MoveNegative of the old fields |
| LegacyAxis.Axis.StopMoving | axis.cpp:90-93 | the fields become LegacyMotor.StopMoving of the old fields |
| LegacyAxis.Axis.GetPositionSetpoint | axis.cpp:95-98 | returns the setpoint in tenths of a degree, truncated toward zero |
| LegacyAxis.Axis.GetCurrentPosition | axis.cpp:100-106 | returns the angle in tenths of a degree, truncated toward zero |
| LegacyAxis.Axis.SetCurrentPosition | axis.cpp:108-117 | the fields become LegacyMotor.SetCurrentPosition of the old fields |
| LegacyAxis.Axis.Update | axis.cpp:119-150 | the fields become LegacyMotor.Update of the old fields |
| LegacyAxis.Axis.MotorSetState | axis.cpp:152-183 | the fields become LegacyMotor.SetState of the old fields |
| LegacyAxis.Axis.MotorRequestState | axis.cpp:185-217 | the fields become LegacyMotor.Request of the old fields |
| LegacyAxis.Axis.DoHomingProcedure | encoder_axis.cpp:221-235 | homing takes at least one 500 ms sample and ends at most one sample after the encoder edges stop; it then leaves the position reading −100 tenths, the setpoint 0 with stop-at-setpoint set and RunningPos requested; the relays keep following the state |
| CText.StrNLen | src/easycomm_handler.cpp:114 | strnlen: at most max, no NUL before it, and a NUL at it unless max or the end was reached |
| CText.ScanFrom | src/easycomm_handler.cpp:114 | the scan from i stops at max, at the end or at the first NUL, with no NUL before it |
| CText.StrNLenIs | src/easycomm_handler.cpp:145 | a length with those three properties is strnlen's result |
| CText.CStrNLen | src/easycomm_handler.cpp:83 | the loop over the array returns strnlen of the text from start |
| CText.ValueBound | src/easycomm_handler.cpp:134 | a string of k digits is worth less than 10^k |
| CText.SpacesEnd | src/easycomm_handler.cpp:134 | atol skips white space up to the first other character |
| CText.DigitsEnd | src/easycomm_handler.cpp:134 | atol reads digits up to the first non-digit |
| CText.Atol | src/easycomm_handler.cpp:134 | atol of an n-character string is less than 10^n in magnitude |
| CText.Digits | src/easycomm_handler.cpp:143 | the decimal digits of n have value n and no leading zero |
| CText.DigitsOfValue | src/easycomm_handler.cpp:143 | a digit string without leading zero is the digits of its own value |
| CText.DigitsAppend | src/easycomm_handler.cpp:143 | appending a digit to a number's text gives the text of ten times the number plus the digit |
| CText.DigitsBounds | src/easycomm_handler.cpp:143 | a number with k digits lies in [10^(k−1), 10^k) |
| CText.DigitsLength | src/easycomm_handler.cpp:143 | n has at most k digits iff n < 10^k |
| CText.Render | easycomm_handler.cpp:164 | "%ld" starts with '-' exactly for negative numbers |
| CText.Render02 | src/easycomm_handler.cpp:143 | "%02ld" has at least two characters and is the "%ld" text when it has more |
| CText.Snprintf | src/easycomm_handler.cpp:143 | snprintf leaves at most size bytes ending with a NUL |
| CText.AtolRender | easycomm_handler.cpp:164 | atol reads back the number "%ld" wrote |
| CText.AtolRender02 | src/easycomm_handler.cpp:143 | atol reads back the number "%02ld" wrote |
| CText.InsertDot | src/easycomm_handler.cpp:154-157 | inserting the dot before the last character adds one character, a dot in the second-to-last place |
| CText.DropDot | src/easycomm_handler.cpp:130-132 | removing the character before the last shortens the text by one |
| CText.DropInsert | src/easycomm_handler.cpp:130-157 | removing an inserted dot restores the text |
| CText.InsertDrop | src/easycomm_handler.cpp:130-157 | inserting the dot back into a text that had one restores it |
| CText.ParseDecimal | src/easycomm_handler.cpp:112-139 | string_to_number on a text accepts it iff it is 2 to max−1 characters long with a dot second to last; the result is below 10^(max−2) in magnitude |
| CText.FormatDecimal | src/easycomm_handler.cpp:141-163 | number_to_string's text fits max bytes with its NUL and has a dot second to last |
| CText.PrintedText | easycomm_handler.cpp:164-173 | snprintf into size bytes read with strnlen(size−1) is below size−1 exactly when the text was not cut, and is then the text |
| CText.RenderCharacters | src/easycomm_handler.cpp:143 | "%ld" and "%02ld" write only digits and minus signs |
| CText.FormatCharacters | src/easycomm_handler.cpp:154-157 | a formatted number has only digits, minus and dot, and no NUL |
| CText.FormatParse | src/easycomm_handler.cpp:112-163 | parsing what number_to_string wrote gives the number back |
| CText.FormatRange | src/easycomm_handler.cpp:141-163 | number_to_string succeeds iff −10^(max−3) < n < 10^(max−2) |
| CText.RangeNegative | easycomm_handler.cpp:164-173 | a negative rendering fits iff n > −10^(max−3) |
| CText.RangePadded | src/easycomm_handler.cpp:143 | a one-digit number is within the accepted range |
| CText.RangeUnpadded | easycomm_handler.cpp:164-173 | a non-negative rendering fits iff n < 10^(max−2) |
| CText.AtolOfDigits | src/easycomm_handler.cpp:134 | atol of a digit string is its value |
| CText.AtolOfNegative | src/easycomm_handler.cpp:134 | atol of a minus and digits is minus their value |
| CText.ValueAppend | src/easycomm_handler.cpp:134 | appending a digit multiplies the value by ten and adds the digit |
| CText.NoLeadingZeroPositive | src/easycomm_handler.cpp:134 | digits with no leading zero are worth at least 1 |
| CText.RenderUnsigned | src/easycomm_handler.cpp:143 | a digit string of length ≥ 2 with no leading zero is what both formats write for its value |
| CText.RenderNegative | src/easycomm_handler.cpp:143 | a minus and digits with no leading zero is what both formats write for its value |
| CText.RenderNegated | src/easycomm_handler.cpp:143 | both formats write a negative number as minus and its digits |
| CText.DigitRoundTrip | src/easycomm_handler.cpp:134 | a digit's value written back is the digit |
| CText.RenderOneDigit | easycomm_handler.cpp:164 | "%ld" of a digit's value is the digit, and atol reads it back |
| CText.RenderPaddedDigit | src/easycomm_handler.cpp:143 | "%02ld" of a digit's value is '0' and the digit, and atol reads it back |
| CText.RenderCanonical | src/easycomm_handler.cpp:112-163 | a canonical text without its dot is what the format writes for the number atol reads from it |
| CText.ParseFormat | src/easycomm_handler.cpp:112-163 | for canonical one-decimal texts within the bound, formatting the parsed number gives the text back |
| CText.TextAt | src/easycomm_handler.cpp:103 | the C string at an offset has at most max characters and no NUL |
| CText.StrNLenOfText | src/easycomm_handler.cpp:145 | strnlen of a buffer holding a text and a NUL is the text's length |
| CText.TextAtIs | src/easycomm_handler.cpp:103 | a buffer holding a text and a NUL at an offset holds that C string there |
| CText.DotInserted | src/easycomm_handler.cpp:155-157 | the three writes of number_to_string leave the dotted text |
| CText.DottedText | src/easycomm_handler.cpp:154-157 | after the three writes the buffer holds the dotted text as a C string |
| CText.WriteDot | src/easycomm_handler.cpp:155-157 | the array is the old one with the last character moved up, the dot before it and a NUL after it |
| CText.SqueezedBuffer | src/easycomm_handler.cpp:131-132 | the two writes of string_to_number move the last character over the dot and end the text after it |
| CText.SqueezedText | src/easycomm_handler.cpp:130-134 | after the two writes the C string at the offset is the text without its dot |
| CText.DotTestOnText | src/easycomm_handler.cpp:124 | when the two characters before the offset are not dots, the test of string[len−2] is the test of the text's second-to-last character |
| CText.StringToNumber | src/easycomm_handler.cpp:112-139 | the buffer keeps its size and a refusal leaves it unchanged; when the two characters before the text are not dots, the result is exactly ParseDecimal of the C string there; on success the dot is squeezed out in place |
| CText.ParseOfSqueezed | src/easycomm_handler.cpp:130-134 | atol of the squeezed text is ParseDecimal's number |
| CText.StringToNumberReads | src/easycomm_handler.cpp:134 | on success the number is atol of the squeezed text |
| CText.AtolBound | src/easycomm_handler.cpp:134 | atol of at most k characters stays below 10^k |
| CText.SqueezedLength | src/easycomm_handler.cpp:130-132 | the squeezed text has at most max−2 characters |
| CText.StringToNumberText | src/easycomm_handler.cpp:134 | a successful parse is atol of a text of at most max−2 characters |
| CText.StringToNumberBound | src/easycomm_handler.cpp:117-134 | a parsed number is below 10^(max−2) in magnitude |
| EasyComm.Receive | src/easycomm_handler.h:22-44 | the write index stays within [0,126] and every stored character stays inside the 128-byte buffer |
| EasyComm.ReceiveCompletes | src/easycomm_handler.h:34-41 | a command is complete iff the last character read is a terminator after at least one other character; the index is then 0 |
| EasyComm.ReceiveStep | src/easycomm_handler.h:24-43 | one iteration: a full buffer resets the index and stops; a terminator stores itself and the NUL and completes only if it > 1; other characters are stored and the loop goes on |
| EasyComm.ReceiveOneCommand | src/easycomm_handler.h:34-43 | the loop reads no terminator before its last character, so at most one command per call |
| EasyComm.ReceiveAdvance | src/easycomm_handler.h:31-32 | storing a non-terminator keeps the loop's relation to the whole read |
| EasyComm.ReceiveStores | src/easycomm_handler.h:31-38 | the characters read follow the partial command in the buffer, then the NUL if complete, and the rest is unchanged |
| EasyComm.ReceiveKeeps | src/easycomm_handler.h:31-38 | the buffer beyond the characters read is unchanged, except the NUL after a complete command |
| EasyComm.ReceiveStops | src/easycomm_handler.h:22-43 | an incomplete read ended with the input, with a full buffer (index reset), or with a lone terminator that is discarded |
| EasyComm.FirstStored | src/easycomm_handler.h:32 | storing one character extends the prefix by it |
| EasyComm.NumberToStringAsWritten | src/easycomm_handler.cpp:141-157 | the code as written writes the rendering, capped at five characters, plus a dot and a NUL, never refusing |
| EasyComm.NumberToString | src/easycomm_handler.cpp:141-163 | the corrected number_to_string succeeds iff −1000 < n < 10000, and its text fits the six bytes with its NUL |
| EasyComm.NumberToStringParses | src/easycomm_handler.cpp:112-163 | string_to_number reads back what number_to_string wrote |
| EasyComm.NumberToStringGuardIsDead | src/easycomm_handler.cpp:143-152 | after snprintf into six bytes, strnlen(s, 6) is always below 6, so the length test never fires |
| EasyComm.NumberToStringOverrun | src/easycomm_handler.cpp:143-157 | outside −1000 < n < 10000 the code as written writes seven bytes into the six-byte num_string |
| EasyComm.NumberToStringOverrunExample | src/easycomm_handler.cpp:88-157 | for −1000 it writes "-100.0" and a NUL: seven bytes |
| EasyComm.NumberToStringAgrees | src/easycomm_handler.cpp:141-163 | where the corrected version succeeds, the code as written writes the same text |
| EasyComm.WrittenText | src/easycomm_handler.cpp:143-157 | for a text that fits, the writes leave the dotted text and a NUL |
| EasyComm.Respond | src/easycomm_handler.cpp:19-92 | the response holds the reply and a NUL; the rest of the buffer is untouched |
| EasyComm.RespondAfterClear | src/easycomm_handler.cpp:19 | clearing response[0] first makes no difference once a reply is written |
| EasyComm.QueryReplyParses | src/easycomm_handler.cpp:85-95 | the query reply is empty iff the position is outside −1000 < pos < 10000; otherwise it is the two opcode letters, a number text that parses back to the position, and the command's terminator |
| EasyComm.Enclose | src/easycomm_handler.cpp:92 | "%c%c%s%c": two characters, the text, one character |
| EasyComm.ParseSetpoint | src/easycomm_handler.cpp:96-108 | the setpoint parse is ParseDecimal of the text after the opcode with its terminator replaced by NUL; a parsed setpoint lies within ±9999 tenths and fits the internal range |
| EasyComm.HandleAzEl | src/easycomm_handler.cpp:81-110 | a three-character command changes nothing and replies with the query reply; a longer one replies nothing and moves the axis to the parsed setpoint, or leaves it if parsing fails |
| EasyComm.JogAzimuth | src/easycomm_handler.cpp:39-50 | only ML and MR touch the azimuth axis |
| EasyComm.JogElevation | src/easycomm_handler.cpp:51-62 | only MU and MD touch the elevation axis |
| EasyComm.HandleCommand | src/easycomm_handler.cpp:16-79 | AZ goes to azimuth, EL to elevation, ML/MR/MU/MD jog, SA/SE stop; at most one axis moves; any other command, VE and two-letter codes such as AX or EZ included, touches no axis, buffer or reply |
| EasyComm.ReplyHasNoNul | src/easycomm_handler.cpp:16-95 | a reply contains no NUL, so client.write sends all of it |
| EasyComm.QueryReplyHasNoNul | src/easycomm_handler.cpp:85-95 | the query reply contains no NUL |
| EasyComm.EnclosedNoNul | src/easycomm_handler.cpp:92 | enclosing a text without NUL in non-NUL characters gives no NUL |
| EasyComm.ReceiveMessage | src/easycomm_handler.h:22-44 | a message of 2 to 126 characters ending in its only terminator is received complete, stored and NUL-terminated |
| EasyComm.SetpointCommandMovesAxis | src/easycomm_handler.cpp:96-108 | receiving "AZ", number_to_string of p and a terminator moves the azimuth axis to p and leaves elevation |
| EasyComm.NumberToStringCharacters | src/easycomm_handler.cpp:143-157 | a formatted number contains only digits, minus and dot |
| EasyComm.SetpointMessage | src/easycomm_handler.cpp:96-108 | any received "AZ" + number text + terminator whose text parses to p moves azimuth to p |
| EasyComm.ReceiveSetpoint | src/easycomm_handler.h:31-39 | receiving "AZ" + number text + terminator leaves a complete AZ command whose setpoint text is the number text |
| EasyComm.SetpointOfMessage | src/easycomm_handler.cpp:83-103 | a buffer holding "AZ", a text, the terminator and a NUL has that text as its setpoint |
| EasyComm.MessageText | src/easycomm_handler.cpp:102-103 | the text after the opcode in the message is the number text |
| EasyComm.TerminatorOverwritten | src/easycomm_handler.cpp:102-103 | with the terminator replaced by NUL, the C string at index 2 is the number text |
| EasyComm.AzimuthSetpoint | src/easycomm_handler.cpp:24-108 | an AZ setpoint that parses to p moves azimuth exactly as move_to_position(p) and leaves elevation |
| EasyComm.QueryReportsPosition | src/easycomm_handler.cpp:83-95 | receiving "AZ" and a terminator replies "AZ", the position text and the same terminator, and moves nothing |
| EasyComm.ReceiveQuery | src/easycomm_handler.h:31-39 | receiving "AZ" and a terminator leaves a complete three-character command |
| EasyComm.AzimuthQuery | src/easycomm_handler.cpp:83-95 | an AZ query in range replies "AZ", the position text and the terminator |
| EasyCommHandler.RespondIs | src/easycomm_handler.cpp:92 | a buffer holding the reply and a NUL and otherwise the old bytes is the response |
| EasyCommHandler.PrintedNumber | src/easycomm_handler.cpp:143-148 | the strnlen after "%02ld" is between 2 and 5, below 5 exactly when the corrected number_to_string succeeds, and then reads the rendering |
| EasyCommHandler.PrefixOfPrefix | src/easycomm_handler.cpp:143 | snprintf's output in the array gives the text and its NUL |
| EasyCommHandler.NumberTextIs | src/easycomm_handler.cpp:141-163 | the corrected number_to_string succeeds iff the rendering is at most four characters, and is then the rendering with the dot inserted |
| EasyCommHandler.Handler.constructor | src/easycomm_handler.cpp:10-14 | begin binds the two axes; the static buffers start zeroed and the index at 0 |
| EasyCommHandler.Handler.HandleCommands | src/easycomm_handler.h:13-51 | the buffer, index and characters read follow EasyComm.Receive; a complete command leaves buffer, axes and response as EasyComm.HandleCommand says and writes its reply; otherwise nothing is handled or written |
| EasyCommHandler.Handler.ReadCommand | src/easycomm_handler.h:20-44 | the read loop leaves buffer, index, count and completion exactly as EasyComm.Receive says |
| EasyCommHandler.Handler.SentText | src/easycomm_handler.h:49 | client.write sends the reply stored before the NUL |
| EasyCommHandler.Handler.HandleCommand | src/easycomm_handler.cpp:16-79 | buffer, axes and response become what EasyComm.HandleCommand says |
| EasyCommHandler.Handler.Jog | src/easycomm_handler.cpp:37-63 | the axes become what EasyComm.JogAzimuth and EasyComm.JogElevation say |
| EasyCommHandler.Handler.Stop | src/easycomm_handler.cpp:64-78 | SA stops azimuth, SE stops elevation, nothing else moves |
| EasyCommHandler.Handler.HandleAzElCommand | src/easycomm_handler.cpp:81-110 | buffer, axis and response become what EasyComm.HandleAzEl says |
| EasyCommHandler.Handler.ReportPosition | src/easycomm_handler.cpp:85-95 | the response becomes the query reply for the axis position |
| EasyCommHandler.Handler.MoveToSetpoint | src/easycomm_handler.cpp:96-109 | the buffer becomes the parse's buffer and the axis moves to the parsed setpoint only if it parsed |
| EasyCommHandler.Handler.WriteReply | src/easycomm_handler.cpp:92 | the response holds the two letters, the number string and the terminator, then a NUL |
| EasyCommHandler.Handler.StringToNumber | src/easycomm_handler.cpp:112-139 | buffer, success and number are what CText.StringToNumber says |
| EasyCommHandler.Handler.PrintNumber | src/easycomm_handler.cpp:143 | the array holds snprintf's output for "%02ld" |
| EasyCommHandler.Handler.NumberToString | src/easycomm_handler.cpp:141-163 | succeeds exactly when the corrected number_to_string does, leaving its text as a C string in the six bytes |
| LegacyEasyComm.Receive | easycomm_handler.cpp:26-43 | the index stays below 64; a terminator stop leaves the index on the stored terminator |
| LegacyEasyComm.ReceiveEnds | easycomm_handler.cpp:26-43 | the loop ends when the input runs out (no terminator last), when the byte stored in the last place resets the index, or at a terminator stored at the index left |
| LegacyEasyComm.ReceiveStep | easycomm_handler.cpp:28-42 | one iteration: store the byte, then the full check, then the terminator check, then advance |
| LegacyEasyComm.ReceiveOneCommand | easycomm_handler.cpp:35-41 | no terminator is read before the last byte, so at most one command per call |
| LegacyEasyComm.ReceiveAdvance | easycomm_handler.cpp:28-42 | storing a non-terminator keeps the loop's relation to the whole read |
| LegacyEasyComm.ReceiveStores | easycomm_handler.cpp:28 | the bytes read follow the partial command in the buffer and the rest is unchanged |
| LegacyEasyComm.ReceiveKeeps | easycomm_handler.cpp:28 | the buffer beyond the bytes read is unchanged |
| LegacyEasyComm.TerminatorInLastPlaceDropped | easycomm_handler.cpp:28-35 | a byte landing in the last place ends the read with a full buffer even when it is a terminator |
| LegacyEasyComm.NumberToString | easycomm_handler.cpp:162-184 | number_to_string succeeds iff −1000 < n < 10000, and its text fits the six bytes with its NUL |
| LegacyEasyComm.NumberToStringParses | easycomm_handler.cpp:133-184 | string_to_number reads back what number_to_string wrote |
| LegacyEasyComm.NumberToStringOfDigit | easycomm_handler.cpp:164-178 | 5 is written ".5", with no zero padding |
| LegacyEasyComm.NumberToStringOfNegativeDigit | easycomm_handler.cpp:164-178 | −5 is written "-.5" |
| LegacyEasyComm.NumberToStringOfThreeDigits | easycomm_handler.cpp:164-178 | 123 is written "12.3" |
| LegacyEasyComm.QueryReplyParses | easycomm_handler.cpp:103-116 | the query reply is empty iff the position is out of range; otherwise it is the opcode, a text parsing back to the position, and the terminator |
| LegacyEasyComm.ParseSetpoint | easycomm_handler.cpp:120-129 | the setpoint parse is ParseDecimal of the text after the opcode with the terminator replaced by NUL; a parsed setpoint fits the internal range |
| LegacyEasyComm.HandleAzEl | easycomm_handler.cpp:101-131 | index 2 is a query that changes nothing and replies; otherwise nothing is replied and the axis moves only to a setpoint that parses |
| LegacyEasyComm.JogAzimuth | easycomm_handler.cpp:64-73 | only ML and MR touch the azimuth axis |
| LegacyEasyComm.JogElevation | easycomm_handler.cpp:74-84 | only MU and MD touch the elevation axis |
| LegacyEasyComm.HandleCommand | easycomm_handler.cpp:47-99 | the same opcode table as the later handler; at most one axis moves; any other command, AX or EZ included, touches no axis, buffer or reply |
| LegacyEasyComm.Update | easycomm_handler.cpp:20-45 | a terminator hands the command to handle_command and resets the index; otherwise nothing is handled; no terminator precedes the last byte read |
| LegacyEasyComm.LoneTerminatorDoesNothing | easycomm_handler.cpp:35-41 | a lone terminator is handled as an unknown command: nothing moves or replies |
| LegacyEasyComm.QueryReportsPosition | easycomm_handler.cpp:103-116 | "AZ" and a terminator reply the opcode, the position text and the same terminator, and move nothing |
| LegacyEasyComm.AzimuthQuery | easycomm_handler.cpp:103-116 | an AZ command at index 2 replies with the position and moves nothing |
| LegacyEasyComm.SetpointCommandMovesAxis | easycomm_handler.cpp:118-130 | "AZ", number_to_string of p and a terminator move azimuth to p and leave elevation |
| LegacyEasyComm.ReceiveSetpoint | easycomm_handler.cpp:26-43 | receiving "AZ" + number text + terminator stops at the terminator with the number text as setpoint |
| LegacyEasyComm.ReceiveMessage | easycomm_handler.cpp:26-43 | a message under 64 bytes ending in its only terminator is stored and stops at that terminator |
| LegacyEasyComm.SetpointOfMessage | easycomm_handler.cpp:124-125 | a buffer holding "AZ", a text and a terminator has that text as its setpoint |
| LegacyEasyComm.SetpointInPlace | easycomm_handler.cpp:124-125 | with the terminator replaced by NUL, the text at index 2 is the number text |
| LegacyEasyComm.AzimuthSetpoint | easycomm_handler.cpp:118-130 | an AZ setpoint parsing to p moves azimuth exactly as move_to_position(p) and leaves elevation |
| LegacyEasyCommHandler.PrintedNumber | easycomm_handler.cpp:164-173 | strnlen(s, 5) after "%ld" into six bytes is below 5 exactly when number_to_string succeeds, and then reads the rendering |
| LegacyEasyCommHandler.NumberTextIs | easycomm_handler.cpp:162-184 | number_to_string succeeds iff the rendering is at most four characters, and is then the rendering with the dot inserted |
| LegacyEasyCommHandler.Handler.constructor | easycomm_handler.cpp:12-18 | begin binds the axes and sets the index to 0 |
| LegacyEasyCommHandler.Handler.Update | easycomm_handler.cpp:20-45 | buffer, index, count, axes and reply become what LegacyEasyComm.Update says |
| LegacyEasyCommHandler.Handler.ReadCommand | easycomm_handler.cpp:26-43 | the read loop leaves buffer, index, count and stop reason exactly as LegacyEasyComm.Receive says |
| LegacyEasyCommHandler.Handler.HandleCommand | easycomm_handler.cpp:47-99 | buffer, axes and reply become what LegacyEasyComm.HandleCommand says |
| LegacyEasyCommHandler.Handler.Jog | easycomm_handler.cpp:62-85 | the axes become what LegacyEasyComm.JogAzimuth and JogElevation say |
| LegacyEasyCommHandler.Handler.Stop | easycomm_handler.cpp:86-98 | SA stops azimuth, SE stops elevation, nothing else moves |
| LegacyEasyCommHandler.Handler.HandleAzElCommand | easycomm_handler.cpp:101-131 | buffer, axis and reply become what LegacyEasyComm.HandleAzEl says |
| LegacyEasyCommHandler.Handler.ReportPosition | easycomm_handler.cpp:103-116 | the reply written is the query reply for the axis position |
| LegacyEasyCommHandler.Handler.ReplyOf | easycomm_handler.cpp:110-115 | the four writes send the two letters, the number string and the terminator |
| LegacyEasyCommHandler.Handler.MoveToSetpoint | easycomm_handler.cpp:118-130 | the buffer becomes the parse's buffer and the axis moves only to a setpoint that parsed |
| LegacyEasyCommHandler.Handler.StringToNumber | easycomm_handler.cpp:133-160 | buffer, success and number are what CText.StringToNumber says |
| LegacyEasyCommHandler.Handler.PrintNumber | easycomm_handler.cpp:164 | the array holds snprintf's output for "%ld" |
| LegacyEasyCommHandler.Handler.NumberToString | easycomm_handler.cpp:162-184 | succeeds exactly when number_to_string does, leaving its text as a C string in the six bytes |
| NumberParseTest.Parse | tests/test_number_parse.c:9-33 | the buffer keeps its size and a refusal leaves it unchanged; when the two characters before the text are not dots, the result is ParseDecimal of the text (under ten characters, dot second to last) times ten; a result always fits an int32; on success the dot is squeezed out in place |
| NumberParseTest.Format | tests/test_number_parse.c:35-55 | succeeds iff −10^7 < n/10 (truncated toward zero) < 10^8; the text then fits the ten-byte buffer with its NUL and parses back to n/10 |
| NumberParseTest.ParseOfFormat | tests/test_number_parse.c:27-51 | parsing a formatted n gives n truncated to a multiple of ten |
| NumberParseTest.FormatOfParse | tests/test_number_parse.c:27-51 | formatting a parsed canonical one-decimal text gives the text back |
| NumberParseTest.StoredText | tests/test_number_parse.c:11 | a text and a NUL in the buffer are what strnlen reads |
| NumberParseTest.CanonicalHasNoNul | tests/test_number_parse.c:9-33 | a canonical number text contains no NUL |
| NumberParseTest.ParseExample | tests/test_number_parse.c:60-63 | parsing "AZ-238.0" from index 2 gives −23800 and leaves "AZ-2380" |
| NumberParseTest.SetpointText | tests/test_number_parse.c:60 | the initial buffer holds "-238.0" from index 2 |
| NumberParseTest.FormattedSetpoint | tests/test_number_parse.c:35-55 | −23800 formats as "-238.0" |
| NumberParseTest.SqueezedExample | tests/test_number_parse.c:27-28 | after the squeeze the buffer reads "AZ-2380" |
| NumberParseTest.FormatExample | tests/test_number_parse.c:66-68 | −35000 formats as "-350.0" |
| NumberParseTest.StringToNumber | tests/test_number_parse.c:9-33 | the in-place method leaves the array, success and number that Parse gives |
| NumberParseTest.PrintNumber | tests/test_number_parse.c:38 | the array holds snprintf's "%ld" output and the old bytes after it |
| NumberParseTest.FormatText | tests/test_number_parse.c:37-51 | Format refuses iff the rendering of n/10 has nine or more characters, and otherwise inserts the dot |
| NumberParseTest.IsStored | tests/test_number_parse.c:49-51 | a buffer with a text, a NUL and old bytes after it is the stored text |
| NumberParseTest.NumberToString | tests/test_number_parse.c:35-55 | success iff Format succeeds; then the array holds the text and a NUL over the old bytes, otherwise snprintf's output |
| NumberParseTest.DotStored | tests/test_number_parse.c:49-51 | the three writes after snprintf store the dotted text |
| NumberParseTest.ParseRun | tests/test_number_parse.c:60-63 | main's first half leaves "AZ-2380" and −23800 |
| NumberParseTest.FormatRun | tests/test_number_parse.c:65-68 | main's second half leaves "-350.0" whatever the buffer held |
| NumberParseTest.RunMain | tests/test_number_parse.c:57-70 | main prints "AZ-2380", −23800 and "-350.0" |

## Left out

- Serial and client output other than the reply is not modelled: the "ERR …", "DBG …" and "Got command" texts, the "Moving …" lines and the version string of VE. The VE command is modelled as changing nothing.
- `printf`/`std::cout` in tests/test_number_parse.c: `main` returns the strings it would print instead.
- Hardware I/O is replaced by values. `digitalRead` is a `high` argument, `digitalWrite` records the level last written to each relay, and `pinMode`, `Serial.begin` and the baud rate are left out.
- `millis()` is an unbounded `now` argument, read once per call. uint32 wrap-around is not modelled, including `millis() - ENC_DEAD_TIME` in src/encoder_axis.cpp:67, which needs `now >= 2`.
- `noInterrupts()`/`interrupts()` and `volatile`: an encoder interrupt is an atomic call between operations. Torn reads are not modelled.
- int32 overflow of the angle fields is not modelled. Positions are required to satisfy `1000·p` within int32 (`ExtFits`), and encoder counting is unbounded.
- EncoderAxis.Axis.DoHomingProcedure: the encoder interrupts during each 500 ms delay are an input sequence, as offsets of at most 500 ms into each delay, rather than motor physics. The 60 s timeout is exact.
- LegacyAxis.Axis.DoHomingProcedure: as above, and the run ends at the first sample after the input sequence at the latest, because no interrupt fires after it. It is modelled for encoder_axis.cpp only, as axis.cpp has no homing routine.
- `snprintf`, `atol` and `strnlen` are specified as functions on character sequences, for the formats and inputs the handlers use. This is not a general libc model.
- CText.StringToNumber: a text shorter than two characters makes `string[len-2]` read before `&command[2]`, i.e. the opcode letters. The model reads those buffer places, which is what the code does on the target, and requires the read to stay inside the buffer (`Readable`).
- The handlers' `CEncoderAxis` references may not be NULL, and azimuth and elevation must be distinct objects. `begin` must have been called before the first command, which the constructors model.
- EasyComm.QueryReply, EasyComm.HandleAzEl and EasyCommHandler.Handler.ReportPosition use the corrected number_to_string (see Findings). The code as written answers a query at ≤ −1000 or ≥ 10000 tenths with a seven-byte write into six bytes, and reports a rendering of six or more characters cut to five, e.g. 123456 as "1234.5".
- src/rotator.cpp and rotator.cpp, the Arduino setup/loop glue, are not part of this model, and neither is tests/test_network.py.

## Findings

| source | as written | input that shows it | evidently intended | confidence | as-written member | corrected member |
|---|---|---|---|---|---|---|
| src/easycomm_handler.cpp:141-157 | `snprintf(string, 6, "%02ld", n)` caps the text at five characters, so `strnlen(string, 6) >= 6` can never hold. A five-character rendering then gets the dot at `string[4]`, the last digit at `string[5]` and the NUL at `string[6]`, past the six-byte `num_string` of line 88. A rendering of six or more characters is cut to five, so 123456 is reported as "1234.5" | a position of −1000 (−100.0°) or 10000 (1000.0°): "-1000" becomes "-100.0" plus NUL, seven bytes | refuse a rendering that leaves no room for the dot and the NUL (length ≥ 5, as easycomm_handler.cpp:166-169 does), so every accepted text fits the six bytes and parses back | high; not executed | EasyComm.NumberToStringAsWritten, EasyComm.NumberToStringOverrun, EasyComm.NumberToStringOverrunExample, EasyComm.NumberToStringGuardIsDead | EasyComm.NumberToString, EasyComm.NumberToStringParses, EasyCommHandler.Handler.NumberToString |
