/** The older handler variant: the timeout is fixed when it is built, there
    is no running flag, `reschedule` is a plain re-evaluation that is never
    rejected, and an expiry is evaluated whatever the timeout is. */
module SessionHandler {
  import opened Outcomes
  import opened LastActionRegistry
  import opened Channel

  datatype LegacyHandler = LegacyHandler(timeoutSeconds: int, timeoutListeners: set<nat>)

  /** An action records `now` and re-arms the whole window when it is
      positive. */
  function OnUserAction(h: LegacyHandler, reg: Registry, now: int): (s: Step<LegacyHandler>)
    ensures s.state == h
    ensures s.registry.Registered? && s.registry.lastActionMs == now
    ensures RemainingSeconds(s.registry, h.timeoutSeconds, now) == h.timeoutSeconds
    ensures h.timeoutSeconds > 0 ==> s.effects == [Schedule(h.timeoutSeconds)]
    ensures h.timeoutSeconds <= 0 ==> s.effects == []
  {
    var registered := RegisterLastActionTime(reg, now);
    if h.timeoutSeconds > 0 then Step(h, registered, [Schedule(h.timeoutSeconds)])
    else Step(h, registered, [])
  }

  /** Construction subscribes a timeout and an action listener and counts
      as an action. */
  function Construct(timeoutSeconds: int, reg: Registry, now: int): (s: Step<LegacyHandler>)
    ensures s.state.timeoutSeconds == timeoutSeconds && s.state.timeoutListeners == {}
    ensures s.registry.Registered? && s.registry.lastActionMs == now
    ensures |s.effects| >= 2
    ensures s.effects[..2] == [SubscribeTimeout(LegacyHandlerListener), SubscribeAction(LegacyHandlerListener)]
    ensures timeoutSeconds > 0 ==> s.effects[2..] == [Schedule(timeoutSeconds)]
    ensures timeoutSeconds <= 0 ==> |s.effects| == 2
  {
    var h := LegacyHandler(timeoutSeconds, {});
    var action := OnUserAction(h, reg, now);
    Step(h, action.registry,
         [SubscribeTimeout(LegacyHandlerListener), SubscribeAction(LegacyHandlerListener)] + action.effects)
  }

  function AddTimeoutListener(h: LegacyHandler, listener: nat): (r: LegacyHandler)
    ensures listener in r.timeoutListeners
    ensures forall l :: l != listener ==> (l in r.timeoutListeners <==> l in h.timeoutListeners)
    ensures r.timeoutSeconds == h.timeoutSeconds
  {
    h.(timeoutListeners := h.timeoutListeners + {listener})
  }

  function RemoveTimeoutListener(h: LegacyHandler, listener: nat): (r: LegacyHandler)
    ensures listener !in r.timeoutListeners
    ensures forall l :: l != listener ==> (l in r.timeoutListeners <==> l in h.timeoutListeners)
    ensures r.timeoutSeconds == h.timeoutSeconds
  {
    h.(timeoutListeners := h.timeoutListeners - {listener})
  }

  /** Seconds left of the fixed window; fails before any registration. */
  function GetSecondsLeft(h: LegacyHandler, reg: Registry, now: int): (r: Result<int>)
    ensures r.Failure? <==> reg.Unregistered?
    ensures r.Failure? ==> r.error == MissingLastActionTime
    ensures r.Success? ==> reg.Registered? && (h.timeoutSeconds - r.value) * 1000 - 500 <= now - reg.lastActionMs
    ensures r.Success? ==> reg.Registered? && now - reg.lastActionMs < (h.timeoutSeconds - r.value) * 1000 + 500
  {
    match reg
    case Unregistered => Failure(MissingLastActionTime)
    case Registered(_) => Success(RemainingSeconds(reg, h.timeoutSeconds, now))
  }

  /** An expiry fires every timeout listener once the window has run out,
      and otherwise re-arms for the seconds left without firing. */
  function OnInactivityTimeout(h: LegacyHandler, reg: Registry, now: int): (r: Result<Step<LegacyHandler>>)
    ensures r.Failure? <==> reg.Unregistered?
    ensures r.Failure? ==> r.error == MissingLastActionTime
    ensures r.Success? ==> r.value.state == h && r.value.registry == reg
    ensures r.Success? && reg.Registered? && Expired(reg, h.timeoutSeconds, now)
            ==> r.value.effects == [FireTimeout(h.timeoutListeners)]
    ensures r.Success? && reg.Registered? && !Expired(reg, h.timeoutSeconds, now)
            ==> && r.value.effects == [Schedule(RemainingSeconds(reg, h.timeoutSeconds, now))]
                && RemainingSeconds(reg, h.timeoutSeconds, now) >= 1
                && ArmsForDeadline(reg, h.timeoutSeconds, now, RemainingSeconds(reg, h.timeoutSeconds, now))
  {
    match GetSecondsLeft(h, reg, now)
    case Failure(e) => Failure(e)
    case Success(remaining) =>
      NoSecondLeftIffExpired(reg, h.timeoutSeconds, now);
      RemainingTargetsDeadline(reg, h.timeoutSeconds, now);
      if remaining < 1 then Success(Step(h, reg, [FireTimeout(h.timeoutListeners)]))
      else Success(Step(h, reg, [Schedule(remaining)]))
  }

  /** `reschedule` is the expiry handling itself: no state check, no error
      of its own, no clamping. */
  function Reschedule(h: LegacyHandler, reg: Registry, now: int): (r: Result<Step<LegacyHandler>>)
    ensures r == OnInactivityTimeout(h, reg, now)
    ensures r.Failure? ==> r.error == MissingLastActionTime
  {
    OnInactivityTimeout(h, reg, now)
  }

  /** The timeout chosen at construction is the one every later step keeps. */
  lemma TimeoutIsFixed(timeoutSeconds: int, reg: Registry, createdAt: int, listener: nat, reg': Registry, now: int)
    ensures var h := Construct(timeoutSeconds, reg, createdAt).state;
            && h.timeoutSeconds == timeoutSeconds
            && AddTimeoutListener(h, listener).timeoutSeconds == timeoutSeconds
            && RemoveTimeoutListener(h, listener).timeoutSeconds == timeoutSeconds
            && OnUserAction(h, reg', now).state.timeoutSeconds == timeoutSeconds
            && (OnInactivityTimeout(h, reg', now).Success? ==>
                  OnInactivityTimeout(h, reg', now).value.state.timeoutSeconds == timeoutSeconds)
  {
  }

  /** Where the variants differ: with a timeout of 0 or less the older
      handler's construction arms no client timer, yet its reschedule fires
      the timeout at once and calls every listener added meanwhile (the
      newer handler does nothing). */
  lemma NonPositiveTimeoutFiresOnReschedule(timeoutSeconds: int, reg: Registry, createdAt: int, listener: nat, now: int)
    requires timeoutSeconds <= 0
    requires now >= createdAt - 500
    ensures var s := Construct(timeoutSeconds, reg, createdAt);
            var h := AddTimeoutListener(s.state, listener);
            && (forall i :: 0 <= i < |s.effects| ==> !s.effects[i].Schedule?)
            && Reschedule(h, s.registry, now) == Success(Step(h, s.registry, [FireTimeout({listener})]))
  {
    var h := AddTimeoutListener(Construct(timeoutSeconds, reg, createdAt).state, listener);
    assert h.timeoutListeners == {listener};
  }
}
