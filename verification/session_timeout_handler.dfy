/** The server-side inactivity-timeout state machine of one view. Its timer
    lives in the view's client and may be stale: every expiry is only a hint
    to re-read the shared registry, which decides whether the session really
    timed out or the timer is re-armed for the true remaining time. */
module SessionTimeoutHandler {
  import opened Outcomes
  import opened LastActionRegistry
  import opened Channel

  /** The configured window in seconds (below 1 means "track actions, never
      expire"), the running flag, and the application's timeout listeners. */
  datatype Handler = Handler(timeoutSeconds: int, running: bool, timeoutListeners: set<nat>)

  /** A new handler: stopped, with no listeners and Java's default timeout 0. */
  function Create(): (h: Handler)
    ensures !h.running && h.timeoutListeners == {} && h.timeoutSeconds == 0
  {
    Handler(0, false, {})
  }

  function AddTimeoutListener(h: Handler, listener: nat): (r: Handler)
    ensures listener in r.timeoutListeners
    ensures forall l :: l != listener ==> (l in r.timeoutListeners <==> l in h.timeoutListeners)
    ensures r.timeoutSeconds == h.timeoutSeconds && r.running == h.running
  {
    h.(timeoutListeners := h.timeoutListeners + {listener})
  }

  function RemoveTimeoutListener(h: Handler, listener: nat): (r: Handler)
    ensures listener !in r.timeoutListeners
    ensures forall l :: l != listener ==> (l in r.timeoutListeners <==> l in h.timeoutListeners)
    ensures r.timeoutSeconds == h.timeoutSeconds && r.running == h.running
  {
    h.(timeoutListeners := h.timeoutListeners - {listener})
  }

  /** An action re-opens the whole window: read at the same instant, the
      full timeout is left, and the client timer is re-armed for it when it
      is positive. */
  function OnUserAction(h: Handler, reg: Registry, now: int): (s: Step<Handler>)
    ensures s.state == h
    ensures s.registry.Registered? && s.registry.lastActionMs == now
    ensures RemainingSeconds(s.registry, h.timeoutSeconds, now) == h.timeoutSeconds
    ensures h.timeoutSeconds > 0 ==> s.effects == [Schedule(h.timeoutSeconds)]
    ensures h.timeoutSeconds <= 0 ==> s.effects == []
  {
    var registered := RegisterLastActionTime(reg, now);
    if h.timeoutSeconds > 0 then Step(h, registered, [Schedule(h.timeoutSeconds)])
    else Step(h, registered, [])
  }

  /** Stores the timeout, subscribes both internal listeners, sets running
      and treats the start as an action. */
  function Start(h: Handler, reg: Registry, timeoutSeconds: int, now: int): (s: Step<Handler>)
    ensures s.state.running && s.state.timeoutSeconds == timeoutSeconds
    ensures s.state.timeoutListeners == h.timeoutListeners
    ensures s.registry.Registered? && s.registry.lastActionMs == now
    ensures |s.effects| >= 2
    ensures s.effects[..2] == [SubscribeAction(HandlerListener), SubscribeTimeout(HandlerListener)]
    ensures timeoutSeconds > 0 ==> s.effects[2..] == [Schedule(timeoutSeconds)]
    ensures timeoutSeconds <= 0 ==> |s.effects| == 2
  {
    var started := h.(timeoutSeconds := timeoutSeconds, running := true);
    var action := OnUserAction(started, reg, now);
    Step(started, action.registry,
         [SubscribeAction(HandlerListener), SubscribeTimeout(HandlerListener)] + action.effects)
  }

  /** Unsubscribes both internal listeners, cancels the client timer and
      clears running; the registry and the configuration are untouched. */
  function Stop(h: Handler, reg: Registry): (s: Step<Handler>)
    ensures !s.state.running
    ensures s.state.timeoutSeconds == h.timeoutSeconds && s.state.timeoutListeners == h.timeoutListeners
    ensures s.registry == reg
    ensures s.effects == [UnsubscribeAction(HandlerListener), UnsubscribeTimeout(HandlerListener), Schedule(0)]
  {
    Step(h.(running := false), reg,
         [UnsubscribeAction(HandlerListener), UnsubscribeTimeout(HandlerListener), Schedule(0)])
  }

  /** Seconds left of the configured window, read from the shared registry.
      Usable at any time, but fails before any action was registered. */
  function GetRemainingSeconds(h: Handler, reg: Registry, now: int): (r: Result<int>)
    ensures r.Failure? <==> reg.Unregistered?
    ensures r.Failure? ==> r.error == MissingLastActionTime
    ensures r.Success? ==> reg.Registered? && (h.timeoutSeconds - r.value) * 1000 - 500 <= now - reg.lastActionMs
    ensures r.Success? ==> reg.Registered? && now - reg.lastActionMs < (h.timeoutSeconds - r.value) * 1000 + 500
  {
    match reg
    case Unregistered => Failure(MissingLastActionTime)
    case Registered(_) => Success(RemainingSeconds(reg, h.timeoutSeconds, now))
  }

  /** The client timer elapsed. With a timeout below 1 nothing happens.
      Otherwise the shared registry decides: when the window has run out the
      timeout listeners are fired and nothing is re-armed; when another view
      kept the session alive the timer is re-armed, without firing, for the
      true remaining seconds. */
  function OnInactivityTimeout(h: Handler, reg: Registry, now: int): (r: Result<Step<Handler>>)
    ensures r.Failure? <==> h.timeoutSeconds >= 1 && reg.Unregistered?
    ensures r.Failure? ==> r.error == MissingLastActionTime
    ensures r.Success? ==> r.value.state == h && r.value.registry == reg
    ensures r.Success? && h.timeoutSeconds < 1 ==> r.value.effects == []
    ensures r.Success? && h.timeoutSeconds >= 1 && reg.Registered? && Expired(reg, h.timeoutSeconds, now)
            ==> r.value.effects == [FireTimeout(h.timeoutListeners)]
    ensures r.Success? && h.timeoutSeconds >= 1 && reg.Registered? && !Expired(reg, h.timeoutSeconds, now)
            ==> && r.value.effects == [Schedule(RemainingSeconds(reg, h.timeoutSeconds, now))]
                && RemainingSeconds(reg, h.timeoutSeconds, now) >= 1
                && ArmsForDeadline(reg, h.timeoutSeconds, now, RemainingSeconds(reg, h.timeoutSeconds, now))
  {
    if h.timeoutSeconds < 1 then Success(Step(h, reg, []))
    else
      match GetRemainingSeconds(h, reg, now)
      case Failure(e) => Failure(e)
      case Success(remaining) =>
        NoSecondLeftIffExpired(reg, h.timeoutSeconds, now);
        RemainingTargetsDeadline(reg, h.timeoutSeconds, now);
        if remaining < 1 then Success(Step(h, reg, [FireTimeout(h.timeoutListeners)]))
        else Success(Step(h, reg, [Schedule(remaining)]))
  }

  /** Re-evaluates now instead of waiting for the client timer. Rejected
      while stopped; never fires the timeout: once the window has run out it
      arms a one-second timer, so the firing is left to the next expiry. */
  function Reschedule(h: Handler, reg: Registry, now: int): (r: Result<Step<Handler>>)
    ensures !h.running ==> r == Failure(InvalidState("Not running"))
    ensures h.running && h.timeoutSeconds < 1 ==> r == Success(Step(h, reg, []))
    ensures h.running && h.timeoutSeconds >= 1 && reg.Unregistered? ==> r == Failure(MissingLastActionTime)
    ensures r.Success? ==> r.value.state == h && r.value.registry == reg && !FiresTimeout(r.value.effects)
    ensures h.running && h.timeoutSeconds >= 1 && reg.Registered? && Expired(reg, h.timeoutSeconds, now)
            ==> r == Success(Step(h, reg, [Schedule(1)]))
    ensures h.running && h.timeoutSeconds >= 1 && reg.Registered? && !Expired(reg, h.timeoutSeconds, now)
            ==> && r == Success(Step(h, reg, [Schedule(RemainingSeconds(reg, h.timeoutSeconds, now))]))
                && ArmsForDeadline(reg, h.timeoutSeconds, now, RemainingSeconds(reg, h.timeoutSeconds, now))
  {
    if !h.running then Failure(InvalidState("Not running"))
    else if h.timeoutSeconds < 1 then Success(Step(h, reg, []))
    else
      match GetRemainingSeconds(h, reg, now)
      case Failure(e) => Failure(e)
      case Success(remaining) =>
        NoSecondLeftIffExpired(reg, h.timeoutSeconds, now);
        RemainingTargetsDeadline(reg, h.timeoutSeconds, now);
        var seconds := if remaining < 1 then 1 else remaining;
        Success(Step(h, reg, [Schedule(seconds)]))
  }

  /** Timeout listeners form a set: a second add changes nothing, a removed
      listener is not called when the timeout fires, and an added one is. */
  lemma TimeoutListenersAreASet(h: Handler, listener: nat, reg: Registry, now: int)
    requires h.timeoutSeconds >= 1 && reg.Registered? && Expired(reg, h.timeoutSeconds, now)
    ensures AddTimeoutListener(AddTimeoutListener(h, listener), listener) == AddTimeoutListener(h, listener)
    ensures listener in FiredListeners(OnInactivityTimeout(AddTimeoutListener(h, listener), reg, now).value.effects)
    ensures listener !in FiredListeners(OnInactivityTimeout(RemoveTimeoutListener(h, listener), reg, now).value.effects)
  {
  }

  /** Right after `start(d)`, and for the next half second, exactly `d`
      seconds are left. */
  lemma StartLeavesWholeTimeout(h: Handler, reg: Registry, timeoutSeconds: int, startedAt: int, now: int)
    requires startedAt <= now < startedAt + 500
    ensures var s := Start(h, reg, timeoutSeconds, startedAt);
            GetRemainingSeconds(s.state, s.registry, now) == Success(timeoutSeconds)
  {
  }

  /** A second stop yields the same handler and makes the same calls as the
      first. */
  lemma StopIsIdempotent(h: Handler, reg: Registry)
    ensures Stop(Stop(h, reg).state, reg) == Stop(h, reg)
  {
  }

  /** With a timeout below 1 the handler only tracks actions: started, it
      arms no timer, and neither an expiry nor a reschedule ever fires. */
  lemma NonPositiveTimeoutNeverFires(h: Handler, reg: Registry, timeoutSeconds: int, startedAt: int, now: int)
    requires timeoutSeconds < 1
    ensures var s := Start(h, reg, timeoutSeconds, startedAt);
            && (forall i :: 0 <= i < |s.effects| ==> !s.effects[i].Schedule?)
            && OnInactivityTimeout(s.state, s.registry, now) == Success(Step(s.state, s.registry, []))
            && Reschedule(s.state, s.registry, now) == Success(Step(s.state, s.registry, []))
  {
  }

  /** Cross-view reconciliation: two handlers share one registry. When the
      first records an action, the second's stale timer, elapsing while at
      least one second of the refreshed window is left, re-arms for exactly
      that remainder and fires nothing. */
  lemma ActionInOtherViewDefersTimeout(a: Handler, b: Handler, reg: Registry, actionAt: int, now: int)
    requires b.timeoutSeconds >= 1
    requires RemainingSeconds(Registered(actionAt), b.timeoutSeconds, now) >= 1
    ensures var shared := OnUserAction(a, reg, actionAt).registry;
            OnInactivityTimeout(b, shared, now)
              == Success(Step(b, shared, [Schedule(RemainingSeconds(Registered(actionAt), b.timeoutSeconds, now))]))
  {
  }
}
