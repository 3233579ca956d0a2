/** The axis object of the two earlier iterations: CEncoderAxis of encoder_axis.cpp
    (relays switched on by a high level) and CAxis of axis.cpp (relays switched on by a
    low level). Both classes hold the same fields and run the same method bodies, so one
    class carries the relay polarity as a constant. Every method is proved to move the
    object's state exactly as the corresponding function of module LegacyMotor does. */
module LegacyAxis {
  import opened AxisCommon
  import M = LegacyMotor

  /** Interval between position checks while homing, in ms. */
  const HOMING_CHECK_TIME: nat := 500

  /** An encoder interrupt during a homing delay: the level read and the ms into the delay. */
  datatype Reading = Reading(high: bool, offset: nat)

  class Axis {
    const pol: M.Polarity
    var cur: MotorState
    var req: MotorState
    var encState: M.EncState
    var lastChange: nat
    var angleAct: int
    var angleSet: int
    var dueTime: nat
    var stopAtSetpoint: bool
    var posRelay: Pin
    var negRelay: Pin

    function State(): M.AxisState
      reads this
    {
      M.AxisState(cur, req, encState, lastChange, angleAct, angleSet, dueTime, stopAtSetpoint, posRelay, negRelay)
    }

    /** CEncoderAxis(...) with `ActiveHigh`, CAxis(...) with `ActiveLow`. */
    constructor (polarity: M.Polarity)
      ensures State() == M.Initial() && pol == polarity
    {
      pol := polarity;
      cur, req, encState := Stopped, Stopped, M.Unknown;
      lastChange, angleAct, angleSet, dueTime := 0, 0, 0, 0;
      stopAtSetpoint := true;
      posRelay, negRelay := Undriven, Undriven;
    }

    method Begin()
      modifies this
      ensures State() == M.Begin(old(State()), pol)
    {
      posRelay := Driven(M.OffLevel(pol));
      negRelay := Driven(M.OffLevel(pol));
    }

    /** enc_interrupt(): `high` is the level digitalRead returns, `now` the clock. */
    method EncInterrupt(high: bool, now: nat)
      modifies this
      ensures State() == M.EncInterrupt(old(State()), high, now)
    {
      var newState := M.Level(high);
      if encState != newState {
        if now - lastChange >= M.ENC_DEAD_TIME {
          if cur == RunningPos || cur == StoppingPos {
            angleAct := angleAct + INCR_PER_COUNT;
          }
          if cur == RunningNeg || cur == StoppingNeg {
            angleAct := angleAct - INCR_PER_COUNT;
          }
        }
        lastChange := now;
        encState := newState;
      }
    }

    method EncReset(now: nat)
      modifies this
      ensures State() == old(State()).(lastChange := now)
    {
      lastChange := now;
    }

    method MoveToPosition(setpoint: int, now: nat)
      requires ExtFits(setpoint) && req.IsCommand()
      modifies this
      ensures State() == M.MoveToPosition(old(State()), setpoint, now, pol)
    {
      stopAtSetpoint := true;
      angleSet := setpoint * EXT_TO_INT_FACTOR;
      if angleSet > angleAct {
        MotorRequestState(RunningPos, now);
      } else if angleSet < angleAct {
        MotorRequestState(RunningNeg, now);
      } else {
        MotorRequestState(Stopped, now);
      }
    }

    method MovePositive(now: nat)
      modifies this
      ensures State() == M.MovePositive(old(State()), now, pol)
    {
      stopAtSetpoint := false;
      MotorRequestState(RunningPos, now);
    }

    method MoveNegative(now: nat)
      modifies this
      ensures State() == M.MoveNegative(old(State()), now, pol)
    {
      stopAtSetpoint := false;
      MotorRequestState(RunningNeg, now);
    }

    method StopMoving(now: nat)
      modifies this
      ensures State() == M.StopMoving(old(State()), now, pol)
    {
      MotorRequestState(Stopped, now);
    }

    method GetPositionSetpoint() returns (p: int)
      ensures p == M.GetPositionSetpoint(State())
    {
      p := TruncDiv(angleSet, EXT_TO_INT_FACTOR);
    }

    method GetCurrentPosition() returns (p: int)
      ensures p == M.GetCurrentPosition(State())
    {
      p := TruncDiv(angleAct, EXT_TO_INT_FACTOR);
    }

    method SetCurrentPosition(position: int)
      requires ExtFits(position)
      modifies this
      ensures State() == M.SetCurrentPosition(old(State()), position)
    {
      angleAct := position * EXT_TO_INT_FACTOR;
    }

    method Update(now: nat)
      requires req.IsCommand()
      modifies this
      ensures State() == M.Update(old(State()), now, pol)
    {
      var encAngle := angleAct;
      var encLastChange := lastChange;
      var notMoving := now > encLastChange + STOPPING_TIME;
      match cur
      case Stopped =>
      case RunningPos =>
        if notMoving || (stopAtSetpoint && encAngle >= angleSet) {
          MotorRequestState(Stopped, now);
        }
      case RunningNeg =>
        if notMoving || (stopAtSetpoint && encAngle <= angleSet) {
          MotorRequestState(Stopped, now);
        }
      case StoppingNeg | StoppingPos =>
        if now > dueTime {
          MotorSetState(req, now);
        }
    }

    method MotorSetState(st: MotorState, now: nat)
      modifies this
      ensures State() == M.SetState(old(State()), st, now, pol)
    {
      cur := st;
      match st
      case RunningPos =>
        EncReset(now);
        posRelay := Driven(M.OnLevel(pol));
      case RunningNeg =>
        EncReset(now);
        negRelay := Driven(M.OnLevel(pol));
      case StoppingPos =>
        posRelay := Driven(M.OffLevel(pol));
      case StoppingNeg =>
        negRelay := Driven(M.OffLevel(pol));
      case Stopped =>
    }

    method MotorRequestState(reqState: MotorState, now: nat)
      requires reqState.IsCommand()
      modifies this
      ensures State() == M.Request(old(State()), reqState, now, pol)
    {
      req := reqState;
      match cur
      case Stopped =>
        if req == RunningPos || req == RunningNeg {
          MotorSetState(req, now);
        }
      case RunningPos =>
        if req == RunningNeg || req == Stopped {
          MotorSetState(StoppingPos, now);
          dueTime := now + STOPPING_TIME;
        }
      case RunningNeg =>
        if req == RunningPos || req == Stopped {
          MotorSetState(StoppingNeg, now);
          dueTime := now + STOPPING_TIME;
        }
      case StoppingPos | StoppingNeg =>
    }

    /** do_homing_procedure() of CEncoderAxis: jog negative, read the position after each
        500 ms delay until two reads agree, then call the angle HOMING_OFFSET and move to 0.
        The state machine is not ticked while homing. `start` is the clock when homing
        begins; `edges[k]` lists the encoder interrupts during the k-th delay, and no
        interrupt fires after the last batch. Returns the clock when homing ends. */
    method DoHomingProcedure(start: nat, edges: seq<seq<Reading>>) returns (finish: nat)
      requires pol.ActiveHigh? && req.IsCommand()
      requires forall k, j :: 0 <= k < |edges| && 0 <= j < |edges[k]| ==> edges[k][j].offset <= HOMING_CHECK_TIME
      modifies this
      ensures M.GetCurrentPosition(State()) == M.HOMING_OFFSET && M.GetPositionSetpoint(State()) == 0
      ensures stopAtSetpoint && req == RunningPos
      ensures start + HOMING_CHECK_TIME <= finish <= start + HOMING_CHECK_TIME * (|edges| + 2)
      ensures M.RelaysFollowState(old(State()), pol) ==> M.RelaysFollowState(State(), pol)
    {
      var prevPos := -1;
      var curPos := 0;
      MoveNegative(start);
      var now := start;
      var k := 0;
      while prevPos != curPos
        invariant 0 <= k <= |edges| + 2
        invariant now == start + HOMING_CHECK_TIME * k
        invariant k >= 1 ==> curPos == M.GetCurrentPosition(State())
        invariant k >= 2 && k > |edges| ==> prevPos == curPos
        invariant k == 0 ==> prevPos != curPos
        invariant req.IsCommand()
        invariant M.RelaysFollowState(old(State()), pol) ==> M.RelaysFollowState(State(), pol)
        decreases |edges| + 2 - k
      {
        prevPos := curPos;
        if k < |edges| {
          var batch := edges[k];
          var j := 0;
          while j < |batch|
            invariant 0 <= j <= |batch|
            invariant req.IsCommand()
            invariant M.RelaysFollowState(old(State()), pol) ==> M.RelaysFollowState(State(), pol)
          {
            EncInterrupt(batch[j].high, now + batch[j].offset);
            j := j + 1;
          }
        }
        now := now + HOMING_CHECK_TIME;
        k := k + 1;
        curPos := GetCurrentPosition();
      }
      StopMoving(now);
      SetCurrentPosition(M.HOMING_OFFSET);
      MoveToPosition(0, now);
      finish := now;
    }
  }
}
