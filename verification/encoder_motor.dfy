/** The motor state machine, encoder counter and targeting rules of the axis in
    src/encoder_axis.cpp (the iteration with a hysteresis band and a 2 ms dead time),
    as functions on the axis's state. The class in module EncoderAxis is proved to
    follow these functions call by call. */
module EncoderMotor {
  import opened AxisCommon

  /** Minimum time between accepted encoder transitions, in ms. */
  const ENC_DEAD_TIME: nat := 2
  /** Half-width of the band around the setpoint inside which the axis does not start, in 1e-4 degree. */
  const ANGLE_HYSTERESIS: int := 5000
  /** ERelayState: in this iteration a relay is on when its output is high. */
  const RELAY_OFF: bool := false
  const RELAY_ON: bool := true

  /** The fields of CEncoderAxis that its operations read and write. Times are millis()
      values in ms; angles are in 1e-4 degree. */
  datatype AxisState = AxisState(
    cur: MotorState,        // mMotCurState
    req: MotorState,        // mMotReqState
    lastChange: nat,        // mEncLastChange
    angleAct: int,          // mEncAngleAct
    angleSet: int,          // mEncAngleSet
    dueTime: nat,           // mTransitionDueTime
    stopAtSetpoint: bool,   // mStopAtSetpoint
    posRelay: Pin,          // level last written to the positive relay
    negRelay: Pin)          // level last written to the negative relay

  /** The state the constructor leaves: stopped, at zero, relays not yet driven. */
  function Initial(): (s: AxisState)
    ensures s.cur.Stopped? && s.req.Stopped? && s.angleAct == 0 && s.angleSet == 0
    ensures s.stopAtSetpoint && s.posRelay.Undriven? && s.negRelay.Undriven?
  {
    AxisState(Stopped, Stopped, 0, 0, 0, 0, true, Undriven, Undriven)
  }

  /** Each relay is on exactly in the running state of its own direction. */
  predicate RelaysFollowState(s: AxisState)
  {
    && s.posRelay == Driven(if s.cur.RunningPos? then RELAY_ON else RELAY_OFF)
    && s.negRelay == Driven(if s.cur.RunningNeg? then RELAY_ON else RELAY_OFF)
  }

  /** The edges of the state diagram that `_motor_set_state` is meant to follow. */
  predicate DiagramEdge(from: MotorState, to: MotorState)
  {
    match from
    case Stopped => to.IsRunning()
    case RunningPos => to.StoppingPos?
    case RunningNeg => to.StoppingNeg?
    case StoppingPos | StoppingNeg => to.IsCommand()
  }

  /** begin(): both relay outputs are written off. */
  function Begin(s: AxisState): (r: AxisState)
    ensures r.posRelay == Driven(RELAY_OFF) && r.negRelay == Driven(RELAY_OFF)
    ensures !s.cur.IsRunning() ==> RelaysFollowState(r)
    ensures r.cur == s.cur && r.angleAct == s.angleAct && r.angleSet == s.angleSet
  {
    s.(posRelay := Driven(RELAY_OFF), negRelay := Driven(RELAY_OFF))
  }

  /** _motor_set_state: enter `st` and drive the relays for it; entering a running
      state also rebases the encoder dead time (enc_reset). */
  function SetState(s: AxisState, st: MotorState, now: nat): (r: AxisState)
    requires now >= ENC_DEAD_TIME
    ensures r.cur == st
    ensures RelaysFollowState(s) && DiagramEdge(s.cur, st) ==> RelaysFollowState(r)
    ensures st.IsRunning() ==> r.lastChange == now - ENC_DEAD_TIME
    ensures !st.IsRunning() ==> r.lastChange == s.lastChange
    ensures r.req == s.req && r.dueTime == s.dueTime && r.angleAct == s.angleAct
    ensures r.angleSet == s.angleSet && r.stopAtSetpoint == s.stopAtSetpoint
  {
    var s1 := s.(cur := st);
    match st
    case RunningPos => s1.(lastChange := now - ENC_DEAD_TIME, posRelay := Driven(RELAY_ON))
    case RunningNeg => s1.(lastChange := now - ENC_DEAD_TIME, negRelay := Driven(RELAY_ON))
    case StoppingPos => s1.(posRelay := Driven(RELAY_OFF))
    case StoppingNeg => s1.(negRelay := Driven(RELAY_OFF))
    case Stopped => s1.(posRelay := Driven(RELAY_OFF), negRelay := Driven(RELAY_OFF))
  }

  /** motor_request_state: the transition function of the motor state machine. */
  function Request(s: AxisState, req: MotorState, now: nat): (r: AxisState)
    requires now >= ENC_DEAD_TIME
    // only the motor fields move, and only along the diagram, keeping the relays in step
    ensures r.angleAct == s.angleAct && r.angleSet == s.angleSet && r.stopAtSetpoint == s.stopAtSetpoint
    ensures r.cur != s.cur ==> DiagramEdge(s.cur, r.cur)
    ensures RelaysFollowState(s) ==> RelaysFollowState(r)
    ensures s.req.IsCommand() ==> r.req.IsCommand()
    // from Stopped only a running request has an effect, and it is entered directly
    ensures s.cur.Stopped? ==> r.cur == (if req.IsRunning() then req else Stopped)
    ensures s.cur.Stopped? && !req.IsRunning() ==> r == s
    // a running motor coasts out on a stop or reversal request, remembering it
    ensures s.cur.RunningPos? ==>
      if req.Stopped? || req.RunningNeg?
      then r.cur.StoppingPos? && r.dueTime == now + STOPPING_TIME && r.req == req
      else r == s
    ensures s.cur.RunningNeg? ==>
      if req.Stopped? || req.RunningPos?
      then r.cur.StoppingNeg? && r.dueTime == now + STOPPING_TIME && r.req == req
      else r == s
    // a coasting motor ignores every request until its due time has passed
    ensures s.cur.IsStopping() ==> r.req == s.req && r.dueTime == s.dueTime
    ensures s.cur.IsStopping() && now <= s.dueTime ==> r == s
    ensures s.cur.IsStopping() ==> (r.cur != s.cur <==> now > s.dueTime && req.IsCommand())
    ensures s.cur.IsStopping() && r.cur != s.cur ==> r.cur == req
  {
    match s.cur
    case Stopped =>
      if req.RunningPos? || req.RunningNeg? then SetState(s, req, now) else s
    case RunningPos =>
      if req.RunningNeg? || req.Stopped?
      then SetState(s, StoppingPos, now).(dueTime := now + STOPPING_TIME, req := req)
      else s
    case RunningNeg =>
      if req.RunningPos? || req.Stopped?
      then SetState(s, StoppingNeg, now).(dueTime := now + STOPPING_TIME, req := req)
      else s
    case StoppingPos | StoppingNeg =>
      if (req.RunningPos? || req.RunningNeg? || req.Stopped?) && now > s.dueTime
      then SetState(s, req, now)
      else s
  }

  /** No encoder transition for longer than the coast-out time while running: a stall. */
  predicate Stalled(s: AxisState, now: nat)
  {
    now > s.lastChange + STOPPING_TIME
  }

  /** update(): stop a running axis on a stall or on reaching its setpoint, and finish a
      pending coast-out by requesting the remembered state. */
  function Update(s: AxisState, now: nat): (r: AxisState)
    requires now >= ENC_DEAD_TIME
    ensures r.angleAct == s.angleAct && r.angleSet == s.angleSet && r.stopAtSetpoint == s.stopAtSetpoint
    ensures RelaysFollowState(s) ==> RelaysFollowState(r)
    ensures s.cur.Stopped? ==> r == s
    ensures s.cur.RunningPos? ==>
      (r.cur.StoppingPos? <==> Stalled(s, now) || (s.stopAtSetpoint && s.angleAct >= s.angleSet))
      && (r.cur.RunningPos? || r.cur.StoppingPos?)
    ensures s.cur.RunningNeg? ==>
      (r.cur.StoppingNeg? <==> Stalled(s, now) || (s.stopAtSetpoint && s.angleAct <= s.angleSet))
      && (r.cur.RunningNeg? || r.cur.StoppingNeg?)
    ensures s.cur.IsRunning() && r.cur.IsStopping() ==> r.req.Stopped? && r.dueTime == now + STOPPING_TIME
    ensures s.cur.IsStopping() ==>
      (r.cur != s.cur <==> now > s.dueTime && s.req.IsCommand()) && (r.cur != s.cur ==> r.cur == s.req)
    // what update() leaves alone: a run that goes on, and a coast-out before its due time
    ensures s.cur.IsRunning() && r.cur == s.cur ==> r == s
    ensures s.cur.IsStopping() ==> r.req == s.req && r.dueTime == s.dueTime
    ensures s.cur.IsStopping() && now <= s.dueTime ==> r == s
  {
    match s.cur
    case Stopped => s
    case RunningPos =>
      if Stalled(s, now) || (s.stopAtSetpoint && s.angleAct >= s.angleSet)
      then Request(s, Stopped, now) else s
    case RunningNeg =>
      if Stalled(s, now) || (s.stopAtSetpoint && s.angleAct <= s.angleSet)
      then Request(s, Stopped, now) else s
    case StoppingNeg | StoppingPos => Request(s, s.req, now)
  }

  /** enc_interrupt(): one encoder edge at time `now`. */
  function EncInterrupt(s: AxisState, now: nat): (r: AxisState)
    // an edge touches only the angle and the time of the last accepted edge
    ensures r.cur == s.cur && r.req == s.req && r.dueTime == s.dueTime && r.angleSet == s.angleSet
    ensures r.stopAtSetpoint == s.stopAtSetpoint && r.posRelay == s.posRelay && r.negRelay == s.negRelay
    // an edge inside the dead time changes nothing
    ensures now <= s.lastChange + ENC_DEAD_TIME ==> r == s
    // an accepted edge moves the angle one count in the direction of the motor state
    ensures now > s.lastChange + ENC_DEAD_TIME ==>
      r.lastChange == now && r.angleAct - s.angleAct == EncoderDelta(s.cur)
  {
    if now > s.lastChange + ENC_DEAD_TIME
    then s.(angleAct := s.angleAct + EncoderDelta(s.cur), lastChange := now)
    else s
  }

  /** get_current_position(): the angle in tenths of a degree. */
  function GetCurrentPosition(s: AxisState): int
  {
    ToExternal(s.angleAct)
  }

  /** get_position_setpoint(): the setpoint in tenths of a degree. */
  function GetPositionSetpoint(s: AxisState): int
  {
    ToExternal(s.angleSet)
  }

  /** set_current_position(): rebase the angle; reading it back gives the same position. */
  function SetCurrentPosition(s: AxisState, p: int): (r: AxisState)
    requires ExtFits(p)
    ensures GetCurrentPosition(r) == p
    ensures r == s.(angleAct := r.angleAct)
  {
    ExternalRoundTrip(p);
    s.(angleAct := p * EXT_TO_INT_FACTOR)
  }

  /** The request move_to_position() makes: a direction only when the target lies
      outside the hysteresis band around the angle, Stopped inside it. */
  function HysteresisDirection(target: int, angle: int): (d: MotorState)
    ensures d.IsCommand()
    ensures d.RunningPos? <==> target > angle + ANGLE_HYSTERESIS
    ensures d.RunningNeg? <==> target < angle - ANGLE_HYSTERESIS
  {
    if target > angle + ANGLE_HYSTERESIS then RunningPos
    else if target < angle - ANGLE_HYSTERESIS then RunningNeg
    else Stopped
  }

  /** move_to_position(): set the target, then request the hysteresis direction toward
      it; what the request does depends on the state, as Request says. */
  function MoveToPosition(s: AxisState, p: int, now: nat): (r: AxisState)
    requires ExtFits(p) && now >= ENC_DEAD_TIME
    ensures r.angleSet == p * EXT_TO_INT_FACTOR && r.stopAtSetpoint && r.angleAct == s.angleAct
    ensures GetPositionSetpoint(r) == p
    ensures r == Request(s.(stopAtSetpoint := true, angleSet := p * EXT_TO_INT_FACTOR),
                         HysteresisDirection(p * EXT_TO_INT_FACTOR, s.angleAct), now)
    ensures RelaysFollowState(s) ==> RelaysFollowState(r)
    ensures s.cur.Stopped? ==>
      && (r.cur.RunningPos? <==> p * EXT_TO_INT_FACTOR > s.angleAct + ANGLE_HYSTERESIS)
      && (r.cur.RunningNeg? <==> p * EXT_TO_INT_FACTOR < s.angleAct - ANGLE_HYSTERESIS)
    ensures s.cur.RunningPos? ==>
      (r.cur.RunningPos? <==> p * EXT_TO_INT_FACTOR > s.angleAct + ANGLE_HYSTERESIS)
    ensures s.cur.RunningNeg? ==>
      (r.cur.RunningNeg? <==> p * EXT_TO_INT_FACTOR < s.angleAct - ANGLE_HYSTERESIS)
    // a run that has to stop remembers where to go after the coast-out: the opposite
    // direction when the target lies beyond the band on that side, otherwise Stopped
    ensures s.cur.IsRunning() && r.cur.IsStopping() ==>
      r.req == HysteresisDirection(p * EXT_TO_INT_FACTOR, s.angleAct) && r.dueTime == now + STOPPING_TIME
    // a coasting axis keeps its remembered request until the due time, then enters the
    // hysteresis direction
    ensures s.cur.IsStopping() && now <= s.dueTime ==> r.cur == s.cur && r.req == s.req
    ensures s.cur.IsStopping() && now > s.dueTime ==>
      r.cur == HysteresisDirection(p * EXT_TO_INT_FACTOR, s.angleAct)
  {
    var target := p * EXT_TO_INT_FACTOR;
    ExternalRoundTrip(p);
    Request(s.(stopAtSetpoint := true, angleSet := target), HysteresisDirection(target, s.angleAct), now)
  }

  /** move_positive(): jog without a setpoint stop. */
  function MovePositive(s: AxisState, now: nat): (r: AxisState)
    requires now >= ENC_DEAD_TIME
    ensures !r.stopAtSetpoint && r.angleAct == s.angleAct && r.angleSet == s.angleSet
    ensures s.cur.Stopped? ==> r.cur.RunningPos?
    ensures s.cur.RunningNeg? ==> r.cur.StoppingNeg? && r.req.RunningPos? && r.dueTime == now + STOPPING_TIME
    ensures s.cur.RunningPos? ==> r == s.(stopAtSetpoint := false)
    // a coasting axis is untouched until its due time, and then runs positive
    ensures s.cur.IsStopping() ==>
      if now > s.dueTime then r.cur.RunningPos? else r == s.(stopAtSetpoint := false)
  {
    Request(s.(stopAtSetpoint := false), RunningPos, now)
  }

  /** move_negative(): jog without a setpoint stop. */
  function MoveNegative(s: AxisState, now: nat): (r: AxisState)
    requires now >= ENC_DEAD_TIME
    ensures !r.stopAtSetpoint && r.angleAct == s.angleAct && r.angleSet == s.angleSet
    ensures s.cur.Stopped? ==> r.cur.RunningNeg?
    ensures s.cur.RunningPos? ==> r.cur.StoppingPos? && r.req.RunningNeg? && r.dueTime == now + STOPPING_TIME
    ensures s.cur.RunningNeg? ==> r == s.(stopAtSetpoint := false)
    // a coasting axis is untouched until its due time, and then runs negative
    ensures s.cur.IsStopping() ==>
      if now > s.dueTime then r.cur.RunningNeg? else r == s.(stopAtSetpoint := false)
  {
    Request(s.(stopAtSetpoint := false), RunningNeg, now)
  }

  /** stop_moving(): a running axis starts coasting out toward Stopped. */
  function StopMoving(s: AxisState, now: nat): (r: AxisState)
    requires now >= ENC_DEAD_TIME
    ensures r.stopAtSetpoint && r.angleAct == s.angleAct && r.angleSet == s.angleSet
    ensures s.cur.IsRunning() ==> r.cur.IsStopping() && r.req.Stopped? && r.dueTime == now + STOPPING_TIME
    ensures s.cur.Stopped? ==> r == s.(stopAtSetpoint := true)
    // a coasting axis is untouched until its due time, and then stops
    ensures s.cur.IsStopping() ==>
      if now > s.dueTime then r.cur.Stopped? else r == s.(stopAtSetpoint := true)
  {
    Request(s.(stopAtSetpoint := true), Stopped, now)
  }

  /** is_stopped(). */
  predicate IsStopped(s: AxisState)
  {
    s.cur.Stopped?
  }

  // ---------------------------------------------------------------------------
  // Runs: any interleaving of the axis's operations and encoder interrupts.

  /** One call into the axis: an encoder interrupt, an update tick or a command. */
  datatype Event =
    | Edge(t: nat)
    | Tick(t: nat)
    | MoveTo(p: int, t: nat)
    | JogPos(t: nat)
    | JogNeg(t: nat)
    | Halt(t: nat)
    | Rebase(p: int)

  /** The event's arguments meet the operation's requirements. */
  predicate EventOk(e: Event)
  {
    match e
    case Edge(_) => true
    case Rebase(p) => ExtFits(p)
    case MoveTo(p, t) => ExtFits(p) && t >= ENC_DEAD_TIME
    case Tick(t) => t >= ENC_DEAD_TIME
    case JogPos(t) => t >= ENC_DEAD_TIME
    case JogNeg(t) => t >= ENC_DEAD_TIME
    case Halt(t) => t >= ENC_DEAD_TIME
  }

  /** The event happens no later than `deadline` (set_current_position reads no clock). */
  predicate NotAfter(e: Event, deadline: nat)
  {
    e.Rebase? || e.t <= deadline
  }

  function Step(s: AxisState, e: Event): AxisState
    requires EventOk(e)
  {
    match e
    case Edge(t) => EncInterrupt(s, t)
    case Tick(t) => Update(s, t)
    case MoveTo(p, t) => MoveToPosition(s, p, t)
    case JogPos(t) => MovePositive(s, t)
    case JogNeg(t) => MoveNegative(s, t)
    case Halt(t) => StopMoving(s, t)
    case Rebase(p) => SetCurrentPosition(s, p)
  }

  function Run(s: AxisState, evs: seq<Event>): AxisState
    requires forall i :: 0 <= i < |evs| ==> EventOk(evs[i])
    decreases |evs|
  {
    if evs == [] then s else Run(Step(s, evs[0]), evs[1..])
  }

  /** No event at or before the due time takes a coasting motor out of its Stopping state. */
  lemma StepKeepsCoasting(s: AxisState, e: Event)
    requires EventOk(e) && s.cur.IsStopping() && NotAfter(e, s.dueTime)
    ensures Step(s, e).cur == s.cur && Step(s, e).dueTime == s.dueTime && Step(s, e).req == s.req
  {
    match e
    case Edge(t) =>
    case Tick(t) =>
    case MoveTo(p, t) =>
    case JogPos(t) =>
    case JogNeg(t) =>
    case Halt(t) =>
    case Rebase(p) =>
  }

  /** Coast-out: whatever sequence of commands, ticks and encoder edges arrives up to
      the due time, the motor stays in its Stopping state and no direction is engaged;
      the requests made meanwhile are dropped, so the one remembered when the coast-out
      began is the one entered afterwards. */
  lemma {:induction false} CoastOut(s: AxisState, evs: seq<Event>)
    requires forall i :: 0 <= i < |evs| ==> EventOk(evs[i])
    requires s.cur.IsStopping()
    requires forall i :: 0 <= i < |evs| ==> NotAfter(evs[i], s.dueTime)
    ensures Run(s, evs).cur == s.cur && Run(s, evs).dueTime == s.dueTime && Run(s, evs).req == s.req
    decreases |evs|
  {
    if evs != [] {
      StepKeepsCoasting(s, evs[0]);
      var s1 := Step(s, evs[0]);
      assert forall i :: 0 <= i < |evs[1..]| ==> NotAfter(evs[1..][i], s1.dueTime) by {
        forall i | 0 <= i < |evs[1..]| ensures NotAfter(evs[1..][i], s1.dueTime) {
          assert evs[1..][i] == evs[i + 1];
        }
      }
      CoastOut(s1, evs[1..]);
    }
  }

  /** Leaving a running state at time t arms the due time t + 500. */
  lemma LeavingRunArmsTimer(s: AxisState, e: Event)
    requires EventOk(e) && s.cur.IsRunning() && Step(s, e).cur.IsStopping()
    ensures !e.Rebase? && Step(s, e).dueTime == e.t + STOPPING_TIME
  {
  }

  /** No direction is engaged within 500 ms of leaving a running state: after the event
      that starts the coast-out, every run of events up to 500 ms later keeps the motor
      coasting. */
  lemma NoReengageWithinCoastOut(s: AxisState, e: Event, evs: seq<Event>)
    requires EventOk(e) && forall i :: 0 <= i < |evs| ==> EventOk(evs[i])
    requires s.cur.IsRunning() && Step(s, e).cur.IsStopping()
    requires !e.Rebase? && forall i :: 0 <= i < |evs| ==> NotAfter(evs[i], e.t + STOPPING_TIME)
    ensures Run(Step(s, e), evs).cur == Step(s, e).cur
  {
    LeavingRunArmsTimer(s, e);
    CoastOut(Step(s, e), evs);
  }

  /** Once begin() has driven the relays, they follow the motor state through every run. */
  lemma {:induction false} RunKeepsRelays(s: AxisState, evs: seq<Event>)
    requires forall i :: 0 <= i < |evs| ==> EventOk(evs[i])
    requires RelaysFollowState(s)
    ensures RelaysFollowState(Run(s, evs))
    decreases |evs|
  {
    if evs != [] {
      var s1 := Step(s, evs[0]);
      assert RelaysFollowState(s1) by {
        match evs[0]
        case Edge(t) =>
        case Tick(t) =>
        case MoveTo(p, t) =>
        case JogPos(t) =>
        case JogNeg(t) =>
        case Halt(t) =>
        case Rebase(p) =>
      }
      RunKeepsRelays(s1, evs[1..]);
    }
  }

  /** After construction and begin(), the relays follow the state (both off). */
  lemma BeginEstablishesRelays()
    ensures RelaysFollowState(Begin(Initial()))
  {
  }
}
