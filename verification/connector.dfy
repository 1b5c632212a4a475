/** The client side of one view: a single-shot inactivity timer and the
    flag saying whether the next request to the server carries a user
    action. Driven by native input events, request start, timer expiry and
    application stop, and by the server's `scheduleTimeout` command. */
module UserInactivityConnector {
  import opened Outcomes
  import Channel

  /** Native input as the preview handler sees it. */
  datatype NativeEvent = KeyDown | MouseDown | TouchStart | OtherEvent(typeName: string)

  /** The armed delay of the timer in milliseconds (`None`: not armed) and
      the user-initiated-request flag. */
  datatype Connector = Connector(timerMs: Option<int>, userInitiatedRequest: bool)

  /** The connector after an event, and the server RPCs it sent, in order. */
  datatype ClientStep = ClientStep(connector: Connector, calls: seq<Channel.ServerRpc>)

  function Initial(): (c: Connector)
    ensures c.timerMs.None? && !c.userInitiatedRequest
  {
    Connector(None, false)
  }

  /** Arms the timer for `timeoutSeconds` seconds, replacing any armed one,
      or cancels it when `timeoutSeconds <= 0`. */
  function Schedule(c: Connector, timeoutSeconds: int): (r: Connector)
    ensures timeoutSeconds > 0 ==> r.timerMs == Some(timeoutSeconds * 1000) && r.timerMs.value > 0
    ensures timeoutSeconds <= 0 ==> r.timerMs.None?
    ensures r.userInitiatedRequest == c.userInitiatedRequest
  {
    if timeoutSeconds > 0 then c.(timerMs := Some(timeoutSeconds * 1000))
    else c.(timerMs := None)
  }

  const Int32Modulus: int := 0x1_0000_0000

  /** Java `int` arithmetic: the value congruent to `x` modulo 2^32 in
      [-2^31, 2^31). */
  function Int32Wrap(x: int): (r: int)
    ensures -0x8000_0000 <= r < 0x8000_0000
    ensures (x - r) % Int32Modulus == 0
  {
    (x + 0x8000_0000) % Int32Modulus - 0x8000_0000
  }

  /** `schedule` as the source computes the delay: `timeoutSeconds * 1000`
      is an `int` product and wraps. */
  function ScheduleAsWritten(c: Connector, timeoutSeconds: int): (r: Connector)
    requires -0x8000_0000 <= timeoutSeconds < 0x8000_0000
    ensures timeoutSeconds > 0 ==> r.timerMs == Some(Int32Wrap(timeoutSeconds * 1000))
    ensures timeoutSeconds <= 0 ==> r.timerMs.None?
    ensures r.userInitiatedRequest == c.userInitiatedRequest
  {
    if timeoutSeconds > 0 then c.(timerMs := Some(Int32Wrap(timeoutSeconds * 1000)))
    else c.(timerMs := None)
  }

  /** Up to 2147483 seconds the 32-bit product is exact and the two
      definitions agree. */
  lemma ScheduleAsWrittenAgreesBelowOverflow(c: Connector, timeoutSeconds: int)
    requires -0x8000_0000 <= timeoutSeconds <= 2147483
    ensures ScheduleAsWritten(c, timeoutSeconds) == Schedule(c, timeoutSeconds)
  {
  }

  /** From 2147484 seconds on the product overflows: a positive timeout
      hands the timer a negative delay. */
  lemma ScheduleAsWrittenOverflows()
    ensures ScheduleAsWritten(Initial(), 2147484).timerMs == Some(-2147483296)
    ensures Schedule(Initial(), 2147484).timerMs == Some(2147484000)
  {
  }

  /** Key-down, mouse-down and touch-start are user input. */
  predicate IsUserInput(ev: NativeEvent)
  {
    ev.KeyDown? || ev.MouseDown? || ev.TouchStart?
  }

  /** Sends `action(mark)` and remembers whether the next request is the
      user's doing. */
  function MarkNextRequestAsUserAction(c: Connector, mark: bool): (s: ClientStep)
    ensures s.calls == [Channel.ActionRpc(mark)]
    ensures s.connector.userInitiatedRequest == mark && s.connector.timerMs == c.timerMs
  {
    ClientStep(c.(userInitiatedRequest := mark), [Channel.ActionRpc(mark)])
  }

  /** User input reports an action and marks the next request as the
      user's; any other event changes nothing and sends nothing. */
  function OnPreviewNativeEvent(c: Connector, ev: NativeEvent): (s: ClientStep)
    ensures IsUserInput(ev) ==> s.calls == [Channel.ActionRpc(true)]
    ensures IsUserInput(ev) ==> s.connector.userInitiatedRequest && s.connector.timerMs == c.timerMs
    ensures !IsUserInput(ev) ==> s == ClientStep(c, [])
  {
    if IsUserInput(ev) then MarkNextRequestAsUserAction(c, true) else ClientStep(c, [])
  }

  /** A request to the server starts: a request caused by the user cancels
      the local timer (the server re-arms it); the flag is reset either
      way. */
  function OnRequestStarting(c: Connector): (r: Connector)
    ensures c.userInitiatedRequest ==> r.timerMs.None?
    ensures !c.userInitiatedRequest ==> r.timerMs == c.timerMs
    ensures !r.userInitiatedRequest
  {
    if c.userInitiatedRequest then Connector(None, false) else c.(userInitiatedRequest := false)
  }

  /** The timer elapsed: reports the timeout, then `action(false)` so the
      request it triggers is not taken for user activity. The timer is
      single-shot, so nothing is armed afterwards. */
  function OnInactivityTimeout(c: Connector): (s: ClientStep)
    ensures s.calls == [Channel.TimeoutRpc, Channel.ActionRpc(false)]
    ensures !s.connector.userInitiatedRequest && s.connector.timerMs.None?
  {
    var marked := MarkNextRequestAsUserAction(c.(timerMs := None), false);
    ClientStep(marked.connector, [Channel.TimeoutRpc] + marked.calls)
  }

  /** The application stopped: the timer is cancelled. */
  function OnApplicationStopped(c: Connector): (r: Connector)
    ensures r.timerMs.None? && r.userInitiatedRequest == c.userInitiatedRequest
  {
    c.(timerMs := None)
  }

  /** The request caused by an expiry does not cancel a timer the server
      armed meanwhile, whereas the one caused by user input does. */
  lemma OnlyUserRequestsCancelTheTimer(c: Connector, ev: NativeEvent, seconds: int)
    requires seconds > 0
    ensures OnRequestStarting(Schedule(OnInactivityTimeout(c).connector, seconds)).timerMs == Some(seconds * 1000)
    ensures IsUserInput(ev) ==> OnRequestStarting(Schedule(OnPreviewNativeEvent(c, ev).connector, seconds)).timerMs.None?
  {
  }
}
