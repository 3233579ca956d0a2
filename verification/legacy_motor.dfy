/** The motor state machine, encoder counter and targeting rules of the two earlier axis
    iterations, encoder_axis.cpp (CEncoderAxis) and axis.cpp (CAxis), as functions on
    the axis's state. The two classes run the same logic and differ only in the level
    that switches a relay on, so the functions take that polarity as a parameter.
    Compared with src/encoder_axis.cpp: every request is remembered, a coasting motor
    is finished by update() alone, the encoder counts level changes with a 1 ms dead
    time, and move_to_position has no hysteresis band. */
module LegacyMotor {
  import opened AxisCommon

  /** Minimum time between counted encoder transitions, in ms. */
  const ENC_DEAD_TIME: int := 1
  /** Offset of the end stop from zero, in tenths of a degree (encoder_axis.cpp homing). */
  const HOMING_OFFSET: int := -100

  /** Which output level switches a relay on: high in encoder_axis.cpp, low in axis.cpp. */
  datatype Polarity = ActiveHigh | ActiveLow

  function OnLevel(pol: Polarity): bool { pol.ActiveHigh? }
  function OffLevel(pol: Polarity): bool { !pol.ActiveHigh? }

  /** EEncState: the last encoder level seen, Unknown before the first interrupt. */
  datatype EncState = Down | Up | Unknown

  datatype AxisState = AxisState(
    cur: MotorState,        // mMotCurState
    req: MotorState,        // mMotReqState
    encState: EncState,     // mEncCurState
    lastChange: nat,        // mEncLastChange
    angleAct: int,          // mEncAngleAct, 1e-4 degree
    angleSet: int,          // mEncAngleSet, 1e-4 degree
    dueTime: nat,           // mTransitionDueTime
    stopAtSetpoint: bool,   // mStopAtSetpoint
    posRelay: Pin,
    negRelay: Pin)

  function Initial(): (s: AxisState)
    ensures s.cur.Stopped? && s.req.Stopped? && s.encState.Unknown?
    ensures s.angleAct == 0 && s.angleSet == 0 && s.stopAtSetpoint
    ensures s.posRelay.Undriven? && s.negRelay.Undriven?
  {
    AxisState(Stopped, Stopped, Unknown, 0, 0, 0, 0, true, Undriven, Undriven)
  }

  /** Each relay is on exactly in the running state of its own direction. */
  predicate RelaysFollowState(s: AxisState, pol: Polarity)
  {
    && s.posRelay == Driven(if s.cur.RunningPos? then OnLevel(pol) else OffLevel(pol))
    && s.negRelay == Driven(if s.cur.RunningNeg? then OnLevel(pol) else OffLevel(pol))
  }

  /** The transitions motor_set_state is called for: a running state is entered from a
      halted one, a Stopping state from the running state of its direction. */
  predicate DiagramEdge(from: MotorState, to: MotorState)
  {
    match to
    case RunningPos | RunningNeg | Stopped => !from.IsRunning()
    case StoppingPos => from.RunningPos?
    case StoppingNeg => from.RunningNeg?
  }

  /** begin(): both relay outputs are written off. */
  function Begin(s: AxisState, pol: Polarity): (r: AxisState)
    ensures r.posRelay == Driven(OffLevel(pol)) && r.negRelay == Driven(OffLevel(pol))
    ensures !s.cur.IsRunning() ==> RelaysFollowState(r, pol)
    ensures r.cur == s.cur && r.angleAct == s.angleAct
  {
    s.(posRelay := Driven(OffLevel(pol)), negRelay := Driven(OffLevel(pol)))
  }

  /** motor_set_state: enter `st`; a running state drives its relay on and rebases the
      encoder dead time, a Stopping state drives its relay off, Stopped writes nothing. */
  function SetState(s: AxisState, st: MotorState, now: nat, pol: Polarity): (r: AxisState)
    ensures r.cur == st
    ensures st.IsRunning() ==> r.lastChange == now
    ensures !st.IsRunning() ==> r.lastChange == s.lastChange
    ensures st.Stopped? ==> r == s.(cur := Stopped)
    ensures RelaysFollowState(s, pol) && DiagramEdge(s.cur, st) ==> RelaysFollowState(r, pol)
    ensures r.req == s.req && r.dueTime == s.dueTime && r.angleAct == s.angleAct
    ensures r.angleSet == s.angleSet && r.stopAtSetpoint == s.stopAtSetpoint && r.encState == s.encState
  {
    var s1 := s.(cur := st);
    match st
    case RunningPos => s1.(lastChange := now, posRelay := Driven(OnLevel(pol)))
    case RunningNeg => s1.(lastChange := now, negRelay := Driven(OnLevel(pol)))
    case StoppingPos => s1.(posRelay := Driven(OffLevel(pol)))
    case StoppingNeg => s1.(negRelay := Driven(OffLevel(pol)))
    case Stopped => s1
  }

  /** motor_request_state: remember the request, then act on it where the state allows. */
  function Request(s: AxisState, req: MotorState, now: nat, pol: Polarity): (r: AxisState)
    requires req.IsCommand()
    ensures r.req == req
    ensures r.angleAct == s.angleAct && r.angleSet == s.angleSet && r.stopAtSetpoint == s.stopAtSetpoint
    ensures RelaysFollowState(s, pol) ==> RelaysFollowState(r, pol)
    ensures s.cur.Stopped? ==> r.cur == (if req.IsRunning() then req else Stopped)
    ensures s.cur.RunningPos? ==>
      if req.Stopped? || req.RunningNeg?
      then r.cur.StoppingPos? && r.dueTime == now + STOPPING_TIME
      else r == s.(req := req)
    ensures s.cur.RunningNeg? ==>
      if req.Stopped? || req.RunningPos?
      then r.cur.StoppingNeg? && r.dueTime == now + STOPPING_TIME
      else r == s.(req := req)
    // a coasting motor keeps its state and due time: it only remembers the request
    ensures s.cur.IsStopping() ==> r == s.(req := req)
  {
    var s1 := s.(req := req);
    match s.cur
    case Stopped =>
      if req.RunningPos? || req.RunningNeg? then SetState(s1, req, now, pol) else s1
    case RunningPos =>
      if req.RunningNeg? || req.Stopped?
      then SetState(s1, StoppingPos, now, pol).(dueTime := now + STOPPING_TIME)
      else s1
    case RunningNeg =>
      if req.RunningPos? || req.Stopped?
      then SetState(s1, StoppingNeg, now, pol).(dueTime := now + STOPPING_TIME)
      else s1
    case StoppingPos | StoppingNeg => s1
  }

  predicate Stalled(s: AxisState, now: nat)
  {
    now > s.lastChange + STOPPING_TIME
  }

  /** update(): stop a running axis on a stall or at its setpoint; once the due time has
      passed, switch a coasting motor to the remembered request. */
  function Update(s: AxisState, now: nat, pol: Polarity): (r: AxisState)
    requires s.req.IsCommand()
    ensures r.req.IsCommand()
    ensures r.angleAct == s.angleAct && r.angleSet == s.angleSet && r.stopAtSetpoint == s.stopAtSetpoint
    ensures RelaysFollowState(s, pol) ==> RelaysFollowState(r, pol)
    ensures s.cur.Stopped? ==> r == s
    ensures s.cur.RunningPos? ==>
      (r.cur.StoppingPos? <==> Stalled(s, now) || (s.stopAtSetpoint && s.angleAct >= s.angleSet))
      && (r.cur.RunningPos? || r.cur.StoppingPos?)
    ensures s.cur.RunningNeg? ==>
      (r.cur.StoppingNeg? <==> Stalled(s, now) || (s.stopAtSetpoint && s.angleAct <= s.angleSet))
      && (r.cur.RunningNeg? || r.cur.StoppingNeg?)
    ensures s.cur.IsStopping() ==> r.req == s.req && r.dueTime == s.dueTime
    ensures s.cur.IsStopping() ==> if now > s.dueTime then r.cur == s.req else r == s
    // a stall or setpoint stop is motor_request_state(Stopped); a run that goes on is untouched
    ensures s.cur.IsRunning() && r.cur.IsStopping() ==> r.req.Stopped? && r.dueTime == now + STOPPING_TIME
    ensures s.cur.IsRunning() && r.cur == s.cur ==> r == s
  {
    match s.cur
    case Stopped => s
    case RunningPos =>
      if Stalled(s, now) || (s.stopAtSetpoint && s.angleAct >= s.angleSet)
      then Request(s, Stopped, now, pol) else s
    case RunningNeg =>
      if Stalled(s, now) || (s.stopAtSetpoint && s.angleAct <= s.angleSet)
      then Request(s, Stopped, now, pol) else s
    case StoppingNeg | StoppingPos =>
      if now > s.dueTime then SetState(s, s.req, now, pol) else s
  }

  /** The level an encoder read yields. */
  function Level(high: bool): EncState
  {
    if high then Up else Down
  }

  /** enc_interrupt(): the encoder pin reads `high` at time `now`. A change of level is
      recorded together with its time; it moves the angle only when at least the dead
      time has passed since the previous change. */
  function EncInterrupt(s: AxisState, high: bool, now: nat): (r: AxisState)
    ensures r.cur == s.cur && r.req == s.req && r.dueTime == s.dueTime && r.angleSet == s.angleSet
    ensures r.stopAtSetpoint == s.stopAtSetpoint && r.posRelay == s.posRelay && r.negRelay == s.negRelay
    ensures s.encState == Level(high) ==> r == s
    ensures s.encState != Level(high) ==> r.encState == Level(high) && r.lastChange == now
    ensures r.angleAct != s.angleAct ==> s.encState != Level(high) && now - s.lastChange >= ENC_DEAD_TIME
    ensures s.encState != Level(high) && now - s.lastChange >= ENC_DEAD_TIME ==>
      r.angleAct - s.angleAct == EncoderDelta(s.cur)
  {
    var level := Level(high);
    if s.encState != level then
      var s1 := if now - s.lastChange >= ENC_DEAD_TIME
                then s.(angleAct := s.angleAct + EncoderDelta(s.cur)) else s;
      s1.(lastChange := now, encState := level)
    else s
  }

  function GetCurrentPosition(s: AxisState): int
  {
    ToExternal(s.angleAct)
  }

  function GetPositionSetpoint(s: AxisState): int
  {
    ToExternal(s.angleSet)
  }

  /** set_current_position(): rebase the angle; reading it back gives the same position. */
  function SetCurrentPosition(s: AxisState, p: int): (r: AxisState)
    requires ExtFits(p)
    ensures GetCurrentPosition(r) == p
    ensures r == s.(angleAct := r.angleAct)
  {
    ExternalRoundTrip(p);
    s.(angleAct := p * EXT_TO_INT_FACTOR)
  }

  /** The request move_to_position makes: toward the target, Stopped on it exactly. */
  function DirectionTo(target: int, angle: int): (d: MotorState)
    ensures d.IsCommand()
    ensures d.RunningPos? <==> target > angle
    ensures d.RunningNeg? <==> target < angle
  {
    if target > angle then RunningPos
    else if target < angle then RunningNeg
    else Stopped
  }

  /** move_to_position(): set the target and request the direction toward it. */
  function MoveToPosition(s: AxisState, p: int, now: nat, pol: Polarity): (r: AxisState)
    requires ExtFits(p)
    ensures r.angleSet == p * EXT_TO_INT_FACTOR && r.stopAtSetpoint && r.angleAct == s.angleAct
    ensures GetPositionSetpoint(r) == p
    ensures r.req == DirectionTo(p * EXT_TO_INT_FACTOR, s.angleAct)
    ensures RelaysFollowState(s, pol) ==> RelaysFollowState(r, pol)
    ensures s.cur.Stopped? ==>
      && (r.cur.RunningPos? <==> p * EXT_TO_INT_FACTOR > s.angleAct)
      && (r.cur.RunningNeg? <==> p * EXT_TO_INT_FACTOR < s.angleAct)
    // a run keeps going only toward a target still ahead, and otherwise coasts out
    ensures s.cur.RunningPos? ==>
      && (r.cur.RunningPos? <==> p * EXT_TO_INT_FACTOR > s.angleAct)
      && (r.cur.StoppingPos? <==> p * EXT_TO_INT_FACTOR <= s.angleAct)
    ensures s.cur.RunningNeg? ==>
      && (r.cur.RunningNeg? <==> p * EXT_TO_INT_FACTOR < s.angleAct)
      && (r.cur.StoppingNeg? <==> p * EXT_TO_INT_FACTOR >= s.angleAct)
    ensures s.cur.IsRunning() && r.cur.IsStopping() ==> r.dueTime == now + STOPPING_TIME
    // a coasting axis keeps its state and due time; only the request is remembered
    ensures s.cur.IsStopping() ==> r.cur == s.cur && r.dueTime == s.dueTime
  {
    ExternalRoundTrip(p);
    var s1 := s.(stopAtSetpoint := true, angleSet := p * EXT_TO_INT_FACTOR);
    Request(s1, DirectionTo(s1.angleSet, s1.angleAct), now, pol)
  }

  /** move_positive(): jog positive, with no stop at the setpoint. */
  function MovePositive(s: AxisState, now: nat, pol: Polarity): (r: AxisState)
    ensures !r.stopAtSetpoint && r.req.RunningPos? && r.angleAct == s.angleAct
    ensures s.cur.Stopped? ==> r.cur.RunningPos?
    ensures s.cur.RunningNeg? ==> r.cur.StoppingNeg? && r.dueTime == now + STOPPING_TIME
    // a coasting or already positive axis only remembers the request
    ensures s.cur.IsStopping() || s.cur.RunningPos? ==> r == s.(stopAtSetpoint := false, req := RunningPos)
  {
    Request(s.(stopAtSetpoint := false), RunningPos, now, pol)
  }

  /** move_negative(): jog negative, with no stop at the setpoint. */
  function MoveNegative(s: AxisState, now: nat, pol: Polarity): (r: AxisState)
    ensures !r.stopAtSetpoint && r.req.RunningNeg? && r.angleAct == s.angleAct
    ensures s.cur.Stopped? ==> r.cur.RunningNeg?
    ensures s.cur.RunningPos? ==> r.cur.StoppingPos? && r.dueTime == now + STOPPING_TIME
    // a coasting or already negative axis only remembers the request
    ensures s.cur.IsStopping() || s.cur.RunningNeg? ==> r == s.(stopAtSetpoint := false, req := RunningNeg)
  {
    Request(s.(stopAtSetpoint := false), RunningNeg, now, pol)
  }

  /** stop_moving(): request Stopped; unlike the later iteration it leaves
      stopAtSetpoint as it was. */
  function StopMoving(s: AxisState, now: nat, pol: Polarity): (r: AxisState)
    ensures r.stopAtSetpoint == s.stopAtSetpoint && r.req.Stopped? && r.angleAct == s.angleAct
    ensures s.cur.IsRunning() ==> r.cur.IsStopping() && r.dueTime == now + STOPPING_TIME
    ensures !s.cur.IsRunning() ==> r == s.(req := Stopped)
  {
    Request(s, Stopped, now, pol)
  }

  /** The tail of do_homing_procedure in encoder_axis.cpp, once the position has settled:
      stop, call the end stop HOMING_OFFSET and head for position 0. */
  function HomingFinish(s: AxisState, now: nat, pol: Polarity): (r: AxisState)
    ensures GetCurrentPosition(r) == HOMING_OFFSET && GetPositionSetpoint(r) == 0
    ensures r.stopAtSetpoint && r.req.RunningPos?
    ensures s.cur.RunningNeg? ==> r.cur.StoppingNeg? && r.dueTime == now + STOPPING_TIME
    ensures s.cur.Stopped? ==> r.cur.RunningPos?
    ensures RelaysFollowState(s, pol) ==> RelaysFollowState(r, pol)
  {
    var s1 := StopMoving(s, now, pol);
    var s2 := SetCurrentPosition(s1, HOMING_OFFSET);
    MoveToPosition(s2, 0, now, pol)
  }

  // ---------------------------------------------------------------------------
  // Runs: any interleaving of the axis's operations and encoder interrupts.

  datatype Event =
    | Edge(high: bool, t: nat)
    | Tick(t: nat)
    | MoveTo(p: int, t: nat)
    | JogPos(t: nat)
    | JogNeg(t: nat)
    | Halt(t: nat)
    | Rebase(p: int)

  predicate EventOk(e: Event)
  {
    (e.MoveTo? || e.Rebase?) ==> ExtFits(e.p)
  }

  predicate NotAfter(e: Event, deadline: nat)
  {
    e.Rebase? || e.t <= deadline
  }

  function Step(s: AxisState, e: Event, pol: Polarity): (r: AxisState)
    requires EventOk(e) && s.req.IsCommand()
    ensures r.req.IsCommand()
  {
    match e
    case Edge(high, t) => EncInterrupt(s, high, t)
    case Tick(t) => Update(s, t, pol)
    case MoveTo(p, t) => MoveToPosition(s, p, t, pol)
    case JogPos(t) => MovePositive(s, t, pol)
    case JogNeg(t) => MoveNegative(s, t, pol)
    case Halt(t) => StopMoving(s, t, pol)
    case Rebase(p) => SetCurrentPosition(s, p)
  }

  function Run(s: AxisState, evs: seq<Event>, pol: Polarity): (r: AxisState)
    requires forall i :: 0 <= i < |evs| ==> EventOk(evs[i])
    requires s.req.IsCommand()
    ensures r.req.IsCommand()
    decreases |evs|
  {
    if evs == [] then s else Run(Step(s, evs[0], pol), evs[1..], pol)
  }

  /** The state an event hands to motor_request_state, if it makes a request. */
  function Requested(s: AxisState, e: Event): Option<MotorState>
    requires EventOk(e)
  {
    match e
    case MoveTo(p, t) => Some(DirectionTo(p * EXT_TO_INT_FACTOR, s.angleAct))
    case JogPos(t) => Some(RunningPos)
    case JogNeg(t) => Some(RunningNeg)
    case Halt(t) => Some(Stopped)
    case Tick(t) =>
      if (s.cur.RunningPos? && (Stalled(s, t) || (s.stopAtSetpoint && s.angleAct >= s.angleSet)))
         || (s.cur.RunningNeg? && (Stalled(s, t) || (s.stopAtSetpoint && s.angleAct <= s.angleSet)))
      then Some(Stopped) else None
    case Edge(_, _) => None
    case Rebase(_) => None
  }

  /** Every request overwrites the remembered request, whatever the motor state, and an
      event that makes no request leaves it alone. */
  lemma StepRemembersRequest(s: AxisState, e: Event, pol: Polarity)
    requires EventOk(e) && s.req.IsCommand()
    ensures Step(s, e, pol).req == (if Requested(s, e).Some? then Requested(s, e).value else s.req)
  {
    match e
    case Edge(high, t) =>
    case Tick(t) =>
    case MoveTo(p, t) =>
    case JogPos(t) =>
    case JogNeg(t) =>
    case Halt(t) =>
    case Rebase(p) =>
  }

  /** A coasting motor keeps its state and due time through every event up to the due time. */
  lemma StepKeepsCoasting(s: AxisState, e: Event, pol: Polarity)
    requires EventOk(e) && s.req.IsCommand() && s.cur.IsStopping() && NotAfter(e, s.dueTime)
    ensures Step(s, e, pol).cur == s.cur && Step(s, e, pol).dueTime == s.dueTime
  {
    match e
    case Edge(high, t) =>
    case Tick(t) =>
    case MoveTo(p, t) =>
    case JogPos(t) =>
    case JogNeg(t) =>
    case Halt(t) =>
    case Rebase(p) =>
  }

  /** Coast-out: up to the due time the motor stays in its Stopping state whatever arrives;
      the first tick after the due time enters the request remembered last. */
  lemma {:induction false} CoastOut(s: AxisState, evs: seq<Event>, pol: Polarity)
    requires forall i :: 0 <= i < |evs| ==> EventOk(evs[i])
    requires s.req.IsCommand() && s.cur.IsStopping()
    requires forall i :: 0 <= i < |evs| ==> NotAfter(evs[i], s.dueTime)
    ensures Run(s, evs, pol).cur == s.cur && Run(s, evs, pol).dueTime == s.dueTime
    ensures forall t :: t > s.dueTime ==> Update(Run(s, evs, pol), t, pol).cur == Run(s, evs, pol).req
    decreases |evs|
  {
    if evs != [] {
      StepKeepsCoasting(s, evs[0], pol);
      var s1 := Step(s, evs[0], pol);
      assert forall i :: 0 <= i < |evs[1..]| ==> NotAfter(evs[1..][i], s1.dueTime) by {
        forall i | 0 <= i < |evs[1..]| ensures NotAfter(evs[1..][i], s1.dueTime) {
          assert evs[1..][i] == evs[i + 1];
        }
      }
      CoastOut(s1, evs[1..], pol);
    }
  }

  /** Once begin() has driven the relays, they follow the motor state through every run. */
  lemma {:induction false} RunKeepsRelays(s: AxisState, evs: seq<Event>, pol: Polarity)
    requires forall i :: 0 <= i < |evs| ==> EventOk(evs[i])
    requires s.req.IsCommand() && RelaysFollowState(s, pol)
    ensures RelaysFollowState(Run(s, evs, pol), pol)
    decreases |evs|
  {
    if evs != [] {
      var s1 := Step(s, evs[0], pol);
      assert RelaysFollowState(s1, pol) by {
        match evs[0]
        case Edge(high, t) =>
        case Tick(t) =>
        case MoveTo(p, t) =>
        case JogPos(t) =>
        case JogNeg(t) =>
        case Halt(t) =>
        case Rebase(p) =>
      }
      RunKeepsRelays(s1, evs[1..], pol);
    }
  }
}
