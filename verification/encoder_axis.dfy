/** CEncoderAxis of src/encoder_axis.cpp: the axis object whose methods update its
    fields in place. Every method is proved to move the object's state exactly as the
    corresponding function of module EncoderMotor does. */
module EncoderAxis {
  import opened AxisCommon
  import M = EncoderMotor

  /** Interval between position checks while homing, in ms. */
  const HOMING_CHECK_TIME: nat := 500
  /** Longest time homing waits for the axis to stop, in ms. */
  const HOMING_TIMEOUT: nat := 60 * 1000
  /** Position given to the end stop after homing, in tenths of a degree. */
  const HOMING_POSITION: int := 0

  class Axis {
    var cur: MotorState
    var req: MotorState
    var lastChange: nat
    var angleAct: int
    var angleSet: int
    var dueTime: nat
    var stopAtSetpoint: bool
    var posRelay: Pin
    var negRelay: Pin

    /** The object's fields as a value of the specification's state type. */
    function State(): M.AxisState
      reads this
    {
      M.AxisState(cur, req, lastChange, angleAct, angleSet, dueTime, stopAtSetpoint, posRelay, negRelay)
    }

    constructor ()
      ensures State() == M.Initial()
    {
      cur, req := Stopped, Stopped;
      lastChange, angleAct, angleSet, dueTime := 0, 0, 0, 0;
      stopAtSetpoint := true;
      posRelay, negRelay := Undriven, Undriven;
    }

    method Begin()
      modifies this
      ensures State() == M.Begin(old(State()))
    {
      posRelay := Driven(M.RELAY_OFF);
      negRelay := Driven(M.RELAY_OFF);
    }

    method EncInterrupt(now: nat)
      modifies this
      ensures State() == M.EncInterrupt(old(State()), now)
    {
      if now > lastChange + M.ENC_DEAD_TIME {
        if cur == RunningPos || cur == StoppingPos {
          angleAct := angleAct + INCR_PER_COUNT;
        }
        if cur == RunningNeg || cur == StoppingNeg {
          angleAct := angleAct - INCR_PER_COUNT;
        }
        lastChange := now;
      }
    }

    method EncReset(now: nat)
      requires now >= M.ENC_DEAD_TIME
      modifies this
      ensures State() == old(State()).(lastChange := now - M.ENC_DEAD_TIME)
    {
      lastChange := now - M.ENC_DEAD_TIME;
    }

    method MoveToPosition(setpoint: int, now: nat)
      requires ExtFits(setpoint) && now >= M.ENC_DEAD_TIME
      modifies this
      ensures State() == M.MoveToPosition(old(State()), setpoint, now)
    {
      stopAtSetpoint := true;
      angleSet := setpoint * EXT_TO_INT_FACTOR;
      if angleSet > angleAct + M.ANGLE_HYSTERESIS {
        MotorRequestState(RunningPos, now);
      } else if angleSet < angleAct - M.ANGLE_HYSTERESIS {
        MotorRequestState(RunningNeg, now);
      } else {
        MotorRequestState(Stopped, now);
      }
    }

    method MovePositive(now: nat)
      requires now >= M.ENC_DEAD_TIME
      modifies this
      ensures State() == M.MovePositive(old(State()), now)
    {
      stopAtSetpoint := false;
      MotorRequestState(RunningPos, now);
    }

    method MoveNegative(now: nat)
      requires now >= M.ENC_DEAD_TIME
      modifies this
      ensures State() == M.MoveNegative(old(State()), now)
    {
      stopAtSetpoint := false;
      MotorRequestState(RunningNeg, now);
    }

    method StopMoving(now: nat)
      requires now >= M.ENC_DEAD_TIME
      modifies this
      ensures State() == M.StopMoving(old(State()), now)
    {
      stopAtSetpoint := true;
      MotorRequestState(Stopped, now);
    }

    method GetPositionSetpoint() returns (p: int)
      ensures p == M.GetPositionSetpoint(State())
    {
      p := TruncDiv(angleSet, EXT_TO_INT_FACTOR);
    }

    method GetCurrentPosition() returns (p: int)
      ensures p == M.GetCurrentPosition(State())
    {
      p := TruncDiv(angleAct, EXT_TO_INT_FACTOR);
    }

    method SetCurrentPosition(position: int)
      requires ExtFits(position)
      modifies this
      ensures State() == M.SetCurrentPosition(old(State()), position)
    {
      angleAct := position * EXT_TO_INT_FACTOR;
    }

    method Update(now: nat)
      requires now >= M.ENC_DEAD_TIME
      modifies this
      ensures State() == M.Update(old(State()), now)
    {
      var encAngle := angleAct;
      var encLastChange := lastChange;
      var notMoving := now > encLastChange + STOPPING_TIME;
      match cur
      case Stopped =>
      case RunningPos =>
        if notMoving || (stopAtSetpoint && encAngle >= angleSet) {
          MotorRequestState(Stopped, now);
        }
      case RunningNeg =>
        if notMoving || (stopAtSetpoint && encAngle <= angleSet) {
          MotorRequestState(Stopped, now);
        }
      case StoppingNeg | StoppingPos =>
        MotorRequestState(req, now);
    }

    method MotorRequestState(reqState: MotorState, now: nat)
      requires now >= M.ENC_DEAD_TIME
      modifies this
      ensures State() == M.Request(old(State()), reqState, now)
    {
      var curTime := now;
      match cur
      case Stopped =>
        if reqState == RunningPos || reqState == RunningNeg {
          MotorSetState(reqState, now);
        }
      case RunningPos =>
        if reqState == RunningNeg || reqState == Stopped {
          MotorSetState(StoppingPos, now);
          dueTime := curTime + STOPPING_TIME;
          req := reqState;
        }
      case RunningNeg =>
        if reqState == RunningPos || reqState == Stopped {
          MotorSetState(StoppingNeg, now);
          dueTime := curTime + STOPPING_TIME;
          req := reqState;
        }
      case StoppingPos | StoppingNeg =>
        if reqState == RunningPos || reqState == RunningNeg || reqState == Stopped {
          if curTime > dueTime {
            MotorSetState(reqState, now);
          }
        }
    }

    method MotorSetState(st: MotorState, now: nat)
      requires now >= M.ENC_DEAD_TIME
      modifies this
      ensures State() == M.SetState(old(State()), st, now)
    {
      cur := st;
      match st
      case RunningPos =>
        EncReset(now);
        posRelay := Driven(M.RELAY_ON);
      case RunningNeg =>
        EncReset(now);
        negRelay := Driven(M.RELAY_ON);
      case StoppingPos =>
        posRelay := Driven(M.RELAY_OFF);
      case StoppingNeg =>
        negRelay := Driven(M.RELAY_OFF);
      case Stopped =>
        posRelay := Driven(M.RELAY_OFF);
        negRelay := Driven(M.RELAY_OFF);
    }

    /** do_homing_procedure(): jog negative, tick the state machine every 500 ms until the
        axis has stopped or 60 s have passed, then call the current angle the home
        position. `start` is the clock when homing begins; `edges[k]` holds the offsets,
        from the start of the k-th 500 ms delay, of the encoder interrupts that fire
        during it. Returns the clock when homing ends. */
    method DoHomingProcedure(start: nat, edges: seq<seq<nat>>) returns (finish: nat)
      requires start >= M.ENC_DEAD_TIME
      requires forall k, j :: 0 <= k < |edges| && 0 <= j < |edges[k]| ==> edges[k][j] <= HOMING_CHECK_TIME
      modifies this
      ensures M.GetCurrentPosition(State()) == HOMING_POSITION
      ensures angleAct == HOMING_POSITION * EXT_TO_INT_FACTOR
      ensures cur == Stopped || finish >= start + HOMING_TIMEOUT
      ensures start <= finish < start + HOMING_TIMEOUT + HOMING_CHECK_TIME
      ensures !stopAtSetpoint && angleSet == old(angleSet)
      ensures M.RelaysFollowState(old(State())) ==> M.RelaysFollowState(State())
    {
      MoveNegative(start);
      var timeout := start + HOMING_TIMEOUT;
      var now := start;
      var k := 0;
      var stopped := IsStopped();
      while !stopped && now < timeout
        invariant start <= now < timeout + HOMING_CHECK_TIME
        invariant stopped == (cur == Stopped)
        invariant !stopAtSetpoint && angleSet == old(angleSet)
        invariant M.RelaysFollowState(old(State())) ==> M.RelaysFollowState(State())
        decreases timeout - now
      {
        Update(now);
        if k < |edges| {
          var batch := edges[k];
          var j := 0;
          while j < |batch|
            invariant 0 <= j <= |batch|
            invariant !stopAtSetpoint && angleSet == old(angleSet)
            invariant M.RelaysFollowState(old(State())) ==> M.RelaysFollowState(State())
          {
            EncInterrupt(now + batch[j]);
            j := j + 1;
          }
        }
        now := now + HOMING_CHECK_TIME;
        k := k + 1;
        stopped := IsStopped();
      }
      SetCurrentPosition(HOMING_POSITION);
      ExternalRoundTrip(HOMING_POSITION);
      finish := now;
    }

    method IsStopped() returns (stopped: bool)
      ensures stopped == M.IsStopped(State())
    {
      stopped := cur == Stopped;
    }
  }
}
