/** The session-wide store of the time of the last user action, shared by
    every view of one session, and the remaining-seconds formula read from
    it. The two functions below are the two operations of the registry
    contract: record an action now, and compute the seconds left. */
module LastActionRegistry {
  import opened Rounding

  /** The stored timestamp in epoch milliseconds; `Unregistered` until the
      first action is recorded (the session attribute is absent). */
  datatype Registry = Unregistered | Registered(lastActionMs: int)

  /** Records an action at `now`, replacing whatever was stored. */
  function RegisterLastActionTime(reg: Registry, now: int): (r: Registry)
    ensures r.Registered? && r.lastActionMs == now
  {
    Registered(now)
  }

  /** Seconds left of a `timeoutSeconds` window opened by the last action:
      the timeout minus the elapsed time rounded half-up to whole seconds.
      Reading before any registration fails in the source, hence the
      precondition. */
  function RemainingSeconds(reg: Registry, timeoutSeconds: int, now: int): (remaining: int)
    requires reg.Registered?
    ensures (timeoutSeconds - remaining) * MillisPerSecond - 500 <= now - reg.lastActionMs
    ensures now - reg.lastActionMs < (timeoutSeconds - remaining) * MillisPerSecond + 500
  {
    timeoutSeconds - RoundMillisToSeconds(now - reg.lastActionMs)
  }

  /** The window has run out: at least `timeoutSeconds` seconds, rounded,
      have passed since the last action. */
  predicate Expired(reg: Registry, timeoutSeconds: int, now: int)
    requires reg.Registered?
  {
    now - reg.lastActionMs >= timeoutSeconds * MillisPerSecond - 500
  }

  /** A timer armed at `now` for `seconds` elapses within half a second of
      the true end of the window, `lastActionMs + timeoutSeconds * 1000`. */
  predicate ArmsForDeadline(reg: Registry, timeoutSeconds: int, now: int, seconds: int)
    requires reg.Registered?
  {
    var deadline := reg.lastActionMs + timeoutSeconds * MillisPerSecond;
    deadline - 500 <= now + seconds * MillisPerSecond < deadline + 500
  }

  /** "Less than one second left" is exactly "the window has run out". */
  lemma NoSecondLeftIffExpired(reg: Registry, timeoutSeconds: int, now: int)
    requires reg.Registered?
    ensures RemainingSeconds(reg, timeoutSeconds, now) < 1 <==> Expired(reg, timeoutSeconds, now)
  {
  }

  /** Re-arming for the remaining seconds aims at the true deadline. */
  lemma RemainingTargetsDeadline(reg: Registry, timeoutSeconds: int, now: int)
    requires reg.Registered?
    ensures ArmsForDeadline(reg, timeoutSeconds, now, RemainingSeconds(reg, timeoutSeconds, now))
  {
  }

  /** Read within half a second of the registration, the whole timeout is
      left. */
  lemma RemainingRightAfterRegistration(reg: Registry, timeoutSeconds: int, registeredAt: int, now: int)
    requires registeredAt <= now < registeredAt + 500
    ensures RemainingSeconds(RegisterLastActionTime(reg, registeredAt), timeoutSeconds, now) == timeoutSeconds
  {
  }

  /** Elapsed 499 ms counts as no second; elapsed 500 ms counts as one. */
  lemma RemainingAtHalfSecond(timeoutSeconds: int, lastActionMs: int)
    ensures RemainingSeconds(Registered(lastActionMs), timeoutSeconds, lastActionMs + 499) == timeoutSeconds
    ensures RemainingSeconds(Registered(lastActionMs), timeoutSeconds, lastActionMs + 500) == timeoutSeconds - 1
  {
  }

  /** For a fixed timestamp, the seconds left never grow as time passes. */
  lemma RemainingIsNonIncreasing(reg: Registry, timeoutSeconds: int, now1: int, now2: int)
    requires reg.Registered?
    requires now1 <= now2
    ensures RemainingSeconds(reg, timeoutSeconds, now2) <= RemainingSeconds(reg, timeoutSeconds, now1)
  {
  }

  /** Registering again at a later time never shortens what is left. */
  lemma LaterRegistrationNeverDecreasesRemaining(reg: Registry, timeoutSeconds: int, t1: int, t2: int, now: int)
    requires t1 <= t2
    ensures RemainingSeconds(RegisterLastActionTime(reg, t1), timeoutSeconds, now)
         <= RemainingSeconds(RegisterLastActionTime(reg, t2), timeoutSeconds, now)
  {
  }
}
