/** Types and constants shared by every iteration of the axis engine. */
module AxisCommon {

  /** EMotorState: the five states of the relay-driven gearmotor. */
  datatype MotorState = Stopped | RunningPos | StoppingPos | RunningNeg | StoppingNeg {
    predicate IsRunning() { RunningPos? || RunningNeg? }
    predicate IsStopping() { StoppingPos? || StoppingNeg? }
    /** The states a caller may ask for: the three that `motor_request_state` acts on. */
    predicate IsCommand() { Stopped? || RunningPos? || RunningNeg? }
  }

  datatype Option<T> = None | Some(value: T)

  /** The level last written to a relay output; `Undriven` until the first digitalWrite. */
  datatype Pin = Undriven | Driven(high: bool)

  /** Encoder increment per accepted transition, in 1e-4 degree. */
  const INCR_PER_COUNT: int := 375
  /** Coast-out time after cutting motor power, in ms; also the stall threshold. */
  const STOPPING_TIME: nat := 500
  /** External unit (1e-1 degree) to internal unit (1e-4 degree). */
  const EXT_TO_INT_FACTOR: int := 1000

  const INT32_MIN: int := -0x8000_0000
  const INT32_MAX: int := 0x7fff_ffff

  predicate IsInt32(x: int) { INT32_MIN <= x <= INT32_MAX }

  /** An external position whose internal value still fits the int32 angle fields. */
  predicate ExtFits(p: int) { IsInt32(p * EXT_TO_INT_FACTOR) }

  function Abs(x: int): nat { if x < 0 then -x else x }

  /** Division that truncates toward zero, as C does and as a cast from double to int32 does:
      the magnitude is the floored quotient of the magnitudes and the sign is the dividend's. */
  function TruncDiv(a: int, b: int): (q: int)
    requires b > 0
    ensures Abs(q) == Abs(a) / b
    ensures q > 0 ==> a > 0
    ensures q < 0 ==> a < 0
  {
    if a >= 0 then a / b else -((-a) / b)
  }

  /** Signed encoder increment that the motor state gives an accepted transition. */
  function EncoderDelta(st: MotorState): (d: int)
    ensures d > 0 <==> st.RunningPos? || st.StoppingPos?
    ensures d < 0 <==> st.RunningNeg? || st.StoppingNeg?
    ensures d == 0 || d == INCR_PER_COUNT || d == -INCR_PER_COUNT
  {
    match st
    case RunningPos | StoppingPos => INCR_PER_COUNT
    case RunningNeg | StoppingNeg => -INCR_PER_COUNT
    case Stopped => 0
  }

  /** Internal angle to external position: the double division and int32 cast. */
  function ToExternal(angle: int): int
  {
    TruncDiv(angle, EXT_TO_INT_FACTOR)
  }

  /** Scaling an external position to internal units and back loses nothing. */
  lemma ExternalRoundTrip(p: int)
    ensures ToExternal(p * EXT_TO_INT_FACTOR) == p
  {
    if p >= 0 {
      assert (p * 1000) / 1000 == p;
    } else {
      assert (-(p * 1000)) / 1000 == -p by {
        assert -(p * 1000) == (-p) * 1000;
      }
    }
  }
}
