/** One view wired end to end: the server side (extension plus its
    SessionTimeoutHandler) handles the client's RPCs against the registry
    shared by all views of the session, and the client connector applies
    the server's commands in the order sent. */
module Session {
  import opened Outcomes
  import opened LastActionRegistry
  import opened Channel
  import H = SessionTimeoutHandler
  import X = UserInactivityExtension
  import C = UserInactivityConnector

  /** The server side after handling one call: the extension (holding the
      handler), the shared registry, the commands for the client, the
      session timeout listeners fired, and the application listeners on the
      extension that were notified. */
  datatype ServerStep = ServerStep(
    ext: X.Extension,
    registry: Registry,
    toClient: seq<ClientRpc>,
    fired: set<nat>,
    notified: set<nat>)

  function AppListenerIds(listeners: set<Listener>): (ids: set<nat>)
    ensures forall id :: id in ids <==> AppListener(id) in listeners
  {
    set l | l in listeners && l.AppListener? :: l.id
  }

  /** Carries out a handler step on its extension and stores the handler's
      new state back. */
  function Serve(ext: X.Extension, step: Step<H.Handler>, notified: set<nat>): (r: ServerStep)
    ensures r.registry == step.registry && r.fired == FiredListeners(step.effects)
    ensures r.ext.sessionTimeoutHandler == Some(step.state)
  {
    var applied := X.ApplyEffects(ext, step.effects);
    ServerStep(applied.0.(sessionTimeoutHandler := Some(step.state)), step.registry,
               applied.1, FiredListeners(step.effects), notified)
  }

  /** Dispatches one client RPC at server time `now`. The handler reacts
      only while its internal listener is subscribed. */
  function HandleServerRpc(ext: X.Extension, reg: Registry, now: int, call: ServerRpc): (r: Result<ServerStep>)
    ensures r.Success? && call.ActionRpc? && !call.fire ==> r.value == ServerStep(ext, reg, [], {}, {})
    ensures r.Success? && r.value.fired != {} ==> call.TimeoutRpc?
  {
    match call
    case TimeoutRpc =>
      var listeners := X.TimeoutRpcListeners(ext);
      if HandlerListener in listeners && ext.sessionTimeoutHandler.Some? then
        match H.OnInactivityTimeout(ext.sessionTimeoutHandler.value, reg, now)
        case Failure(e) => Failure(e)
        case Success(step) => Success(Serve(ext, step, AppListenerIds(listeners)))
      else Success(ServerStep(ext, reg, [], {}, AppListenerIds(listeners)))
    case ActionRpc(fire) =>
      var listeners := X.ActionRpcListeners(ext, fire);
      if HandlerListener in listeners && ext.sessionTimeoutHandler.Some? then
        var step := H.OnUserAction(ext.sessionTimeoutHandler.value, reg, now);
        assert FiredListeners(step.effects) == {} by {
          assert forall i :: 0 <= i < |step.effects| ==> step.effects[i].Schedule?;
        }
        Success(Serve(ext, step, AppListenerIds(listeners)))
      else Success(ServerStep(ext, reg, [], {}, AppListenerIds(listeners)))
  }

  /** Dispatches the RPCs of one request in order. */
  function HandleServerRpcs(ext: X.Extension, reg: Registry, now: int, calls: seq<ServerRpc>): (r: Result<ServerStep>)
    decreases |calls|
  {
    if |calls| == 0 then Success(ServerStep(ext, reg, [], {}, {}))
    else
      match HandleServerRpc(ext, reg, now, calls[0])
      case Failure(e) => Failure(e)
      case Success(first) =>
        match HandleServerRpcs(first.ext, first.registry, now, calls[1..])
        case Failure(e) => Failure(e)
        case Success(rest) =>
          Success(ServerStep(rest.ext, rest.registry, first.toClient + rest.toClient,
                             first.fired + rest.fired, first.notified + rest.notified))
  }

  /** The application starts the view's handler. */
  function StartHandler(ext: X.Extension, reg: Registry, timeoutSeconds: int, now: int): ServerStep
    requires ext.sessionTimeoutHandler.Some?
  {
    Serve(ext, H.Start(ext.sessionTimeoutHandler.value, reg, timeoutSeconds, now), {})
  }

  /** The application stops the view's handler. */
  function StopHandler(ext: X.Extension, reg: Registry): ServerStep
    requires ext.sessionTimeoutHandler.Some?
  {
    Serve(ext, H.Stop(ext.sessionTimeoutHandler.value, reg), {})
  }

  /** The handler's running flag and its subscription agree: its internal
      listener is on both of the extension's listener sets exactly while it
      runs. */
  predicate Consistent(ext: X.Extension)
  {
    && ext.sessionTimeoutHandler.Some?
    && (ext.sessionTimeoutHandler.value.running <==> HandlerListener in ext.actionListeners)
    && (ext.sessionTimeoutHandler.value.running <==> HandlerListener in ext.timeoutListeners)
  }

  /** A freshly initialised handler is stopped and not subscribed. */
  lemma InitIsConsistent(ext: X.Extension)
    requires HandlerListener !in ext.actionListeners && HandlerListener !in ext.timeoutListeners
    requires ext.sessionTimeoutHandler.None?
    ensures Consistent(X.InitSessionTimeoutHandler(ext).value)
  {
  }

  /** `start` establishes the agreement from any state: running and
      subscribed to both events. */
  lemma StartIsConsistent(ext: X.Extension, reg: Registry, timeoutSeconds: int, now: int)
    requires ext.sessionTimeoutHandler.Some?
    ensures Consistent(StartHandler(ext, reg, timeoutSeconds, now).ext)
  {
  }

  /** `stop` establishes the agreement from any state: stopped and
      subscribed to neither event. */
  lemma StopIsConsistent(ext: X.Extension, reg: Registry)
    requires ext.sessionTimeoutHandler.Some?
    ensures Consistent(StopHandler(ext, reg).ext)
  {
  }

  /** The getter hands out the stored handler itself: after `start` it
      returns the started handler, with its timeout, running flag and
      listeners, and after `stop` the stopped one. */
  lemma GetterReturnsStoredHandler(ext: X.Extension, reg: Registry, timeoutSeconds: int, now: int)
    requires ext.sessionTimeoutHandler.Some?
    ensures X.GetSessionTimeoutHandler(StartHandler(ext, reg, timeoutSeconds, now).ext)
            == Some(H.Start(ext.sessionTimeoutHandler.value, reg, timeoutSeconds, now).state)
    ensures X.GetSessionTimeoutHandler(StopHandler(ext, reg).ext)
            == Some(H.Stop(ext.sessionTimeoutHandler.value, reg).state)
  {
  }

  /** Client RPCs never subscribe or unsubscribe anything and leave the
      handler's state alone, so they keep the agreement. */
  lemma HandleServerRpcIsConsistent(ext: X.Extension, reg: Registry, now: int, call: ServerRpc)
    requires Consistent(ext)
    ensures var r := HandleServerRpc(ext, reg, now, call);
            r.Success? ==> Consistent(r.value.ext) && r.value.ext.sessionTimeoutHandler == ext.sessionTimeoutHandler
  {
  }

  /** A stopped view is inert: whatever the client sends, the registry,
      the extension and the client are untouched and no timeout fires;
      only the application's own listeners hear of it. */
  lemma StoppedViewIsInert(ext: X.Extension, reg: Registry, now: int, call: ServerRpc)
    requires Consistent(ext) && !ext.sessionTimeoutHandler.value.running
    ensures var r := HandleServerRpc(ext, reg, now, call);
            && r.Success?
            && r.value.ext == ext && r.value.registry == reg
            && r.value.toClient == [] && r.value.fired == {}
  {
  }

  /** A running view hands each client RPC to its handler: `action(true)`
      registers exactly as the handler's user action does, and `timeout()`
      fails, succeeds and fires exactly as the handler's expiry does,
      without writing the registry. This is the step a session run in
      `Reconciliation` takes for one event. */
  lemma RunningViewFollowsHandler(ext: X.Extension, reg: Registry, now: int)
    requires Consistent(ext) && ext.sessionTimeoutHandler.value.running
    ensures var h := ext.sessionTimeoutHandler.value;
            var a := HandleServerRpc(ext, reg, now, ActionRpc(true));
            && a.Success?
            && a.value.registry == H.OnUserAction(h, reg, now).registry
            && a.value.fired == {}
    ensures var h := ext.sessionTimeoutHandler.value;
            var t := HandleServerRpc(ext, reg, now, TimeoutRpc);
            var o := H.OnInactivityTimeout(h, reg, now);
            && (t.Success? <==> o.Success?)
            && (t.Success? ==> t.value.registry == reg && t.value.fired == FiredListeners(o.value.effects))
  {
  }

  /** The client applies the server's commands in the order sent; the last
      one decides the timer. */
  function Deliver(c: C.Connector, rpcs: seq<ClientRpc>): (r: C.Connector)
    ensures |rpcs| == 0 ==> r == c
    ensures |rpcs| > 0 ==> r.timerMs == C.Schedule(c, rpcs[|rpcs| - 1].seconds).timerMs
    ensures r.userInitiatedRequest == c.userInitiatedRequest
    decreases |rpcs|
  {
    if |rpcs| == 0 then c
    else Deliver(C.Schedule(c, rpcs[0].seconds), rpcs[1..])
  }

  /** `cancel()` leaves the client with no timer, whatever was armed. */
  lemma CancelDisarmsClient(c: C.Connector)
    ensures Deliver(c, [X.Cancel()]).timerMs.None?
  {
  }

  /** `start(d)` subscribes the handler to both events, leaves it running,
      and arms the client timer for exactly `d` seconds when `d > 0`; with
      `d <= 0` it sends no command, so the client timer stays as it was. */
  lemma StartArmsClientTimer(ext: X.Extension, reg: Registry, timeoutSeconds: int, now: int, c: C.Connector)
    requires ext.sessionTimeoutHandler.Some?
    ensures var s := StartHandler(ext, reg, timeoutSeconds, now);
            && HandlerListener in s.ext.actionListeners
            && HandlerListener in s.ext.timeoutListeners
            && s.ext.sessionTimeoutHandler.value.running
            && s.fired == {}
            && (timeoutSeconds > 0 ==> Deliver(c, s.toClient).timerMs == Some(timeoutSeconds * 1000))
            && (timeoutSeconds <= 0 ==> s.toClient == [] && Deliver(c, s.toClient) == c)
  {
    var eff := H.Start(ext.sessionTimeoutHandler.value, reg, timeoutSeconds, now).effects;
    assert eff[0] == SubscribeAction(HandlerListener) && eff[1] == SubscribeTimeout(HandlerListener) by {
      assert eff[..2][0] == eff[0] && eff[..2][1] == eff[1];
    }
    assert forall k :: 2 <= k < |eff| ==> eff[k] == eff[2..][k - 2];
    assert forall k :: 0 <= k < |eff| ==> !eff[k].FireTimeout? && !eff[k].UnsubscribeAction? && !eff[k].UnsubscribeTimeout?;
    assert SubscribedAfter(HandlerListener in ext.actionListeners, eff,
                           SubscribeAction(HandlerListener), UnsubscribeAction(HandlerListener));
    assert SubscribedAfter(HandlerListener in ext.timeoutListeners, eff,
                           SubscribeTimeout(HandlerListener), UnsubscribeTimeout(HandlerListener));
    assert eff[1..][1..] == eff[2..];
    assert SchedulesOf(eff) == SchedulesOf(eff[2..]);
    if timeoutSeconds > 0 {
      assert SchedulesOf(eff[2..]) == [ScheduleTimeoutRpc(timeoutSeconds)] by {
        assert eff[2..][1..] == [];
      }
    }
  }

  /** `stop()` unsubscribes the handler, clears running and cancels the
      client timer; stopping again yields the same extension and the same
      client state. */
  lemma StopIsIdempotentEndToEnd(ext: X.Extension, reg: Registry, c: C.Connector)
    requires ext.sessionTimeoutHandler.Some?
    ensures var once := StopHandler(ext, reg);
            var twice := StopHandler(once.ext, reg);
            && HandlerListener !in once.ext.actionListeners
            && HandlerListener !in once.ext.timeoutListeners
            && !once.ext.sessionTimeoutHandler.value.running
            && Deliver(c, once.toClient).timerMs.None?
            && twice.ext == once.ext
            && Deliver(Deliver(c, once.toClient), twice.toClient) == Deliver(c, once.toClient)
  {
  }

  /** The RPCs of a client timer expiry, `timeout()` then `action(false)`,
      have exactly the effect of `timeout()` alone. */
  lemma ExpiryCallsActAsTimeoutAlone(ext: X.Extension, reg: Registry, now: int, c: C.Connector)
    ensures HandleServerRpcs(ext, reg, now, C.OnInactivityTimeout(c).calls)
         == HandleServerRpc(ext, reg, now, TimeoutRpc)
  {
    var calls := C.OnInactivityTimeout(c).calls;
    assert calls[1..] == [ActionRpc(false)];
    assert calls[1..][1..] == [];
    match HandleServerRpc(ext, reg, now, TimeoutRpc)
    case Failure(_) =>
    case Success(first) =>
      var second := HandleServerRpc(first.ext, first.registry, now, ActionRpc(false));
      assert second == Success(ServerStep(first.ext, first.registry, [], {}, {}));
      HandleSingleServerRpc(first.ext, first.registry, now, ActionRpc(false));
      assert HandleServerRpcs(first.ext, first.registry, now, calls[1..]) == second;
      assert HandleServerRpcs(ext, reg, now, calls)
          == Success(ServerStep(first.ext, first.registry, first.toClient + [], first.fired + {}, first.notified + {}));
      assert first.toClient + [] == first.toClient;
      assert first.fired + {} == first.fired;
      assert first.notified + {} == first.notified;
  }

  /** A user's key press round trip: the client reports the action and its
      request cancels the local timer; the server records the action and
      re-arms the client for the whole timeout, so a running view ends with
      its timer armed for exactly `d` seconds and a fresh window. */
  lemma UserInputRoundTrip(ext: X.Extension, reg: Registry, c: C.Connector, ev: C.NativeEvent, now: int)
    requires C.IsUserInput(ev)
    requires ext.sessionTimeoutHandler.Some? && ext.sessionTimeoutHandler.value.timeoutSeconds > 0
    requires HandlerListener in ext.actionListeners
    ensures var client := C.OnPreviewNativeEvent(c, ev);
            var sending := C.OnRequestStarting(client.connector);
            var served := HandleServerRpcs(ext, reg, now, client.calls);
            var d := ext.sessionTimeoutHandler.value.timeoutSeconds;
            && sending.timerMs.None?
            && served.Success?
            && served.value.registry == Registered(now)
            && served.value.fired == {}
            && Deliver(sending, served.value.toClient) == C.Connector(Some(d * 1000), false)
  {
  }

  /** Cross-view reconciliation end to end: view A reports an action; when
      view B's stale timer later elapses with at least a second of the
      refreshed window left, B's client is re-armed for exactly that
      remainder and no timeout listener fires. */
  lemma ActionInOtherViewDefersTimeout(a: X.Extension, b: X.Extension, reg: Registry, actionAt: int, now: int, cb: C.Connector)
    requires a.sessionTimeoutHandler.Some? && HandlerListener in a.actionListeners
    requires b.sessionTimeoutHandler.Some? && HandlerListener in b.timeoutListeners
    requires b.sessionTimeoutHandler.value.timeoutSeconds >= 1
    requires RemainingSeconds(Registered(actionAt), b.sessionTimeoutHandler.value.timeoutSeconds, now) >= 1
    ensures var fromA := HandleServerRpc(a, reg, actionAt, ActionRpc(true));
            && fromA.Success?
            && var atB := HandleServerRpc(b, fromA.value.registry, now, TimeoutRpc);
            var remaining := RemainingSeconds(Registered(actionAt), b.sessionTimeoutHandler.value.timeoutSeconds, now);
            && atB.Success?
            && atB.value.fired == {}
            && atB.value.toClient == [ScheduleTimeoutRpc(remaining)]
            && Deliver(cb, atB.value.toClient).timerMs == Some(remaining * 1000)
  {
    var hb := b.sessionTimeoutHandler.value;
    var fromA := HandleServerRpc(a, reg, actionAt, ActionRpc(true));
    assert fromA.value.registry == Registered(actionAt);
    NoSecondLeftIffExpired(Registered(actionAt), hb.timeoutSeconds, now);
    var remaining := RemainingSeconds(Registered(actionAt), hb.timeoutSeconds, now);
    var step := H.OnInactivityTimeout(hb, Registered(actionAt), now).value;
    assert step.effects == [Schedule(remaining)];
    ApplyEffectsSingle(b, Schedule(remaining));
    assert FiredListeners(step.effects[1..]) == {};
  }

  lemma ApplyEffectsSingle(ext: X.Extension, e: Effect)
    ensures X.ApplyEffects(ext, [e]) == X.ApplyEffect(ext, e)
  {
    assert [e][1..] == [];
    assert X.ApplyEffect(ext, e).1 + [] == X.ApplyEffect(ext, e).1;
  }

  lemma HandleSingleServerRpc(ext: X.Extension, reg: Registry, now: int, call: ServerRpc)
    ensures HandleServerRpcs(ext, reg, now, [call]) == HandleServerRpc(ext, reg, now, call)
  {
    assert [call][1..] == [];
    match HandleServerRpc(ext, reg, now, call)
    case Failure(_) =>
    case Success(first) =>
      var rest := ServerStep(first.ext, first.registry, [], {}, {});
      assert HandleServerRpcs(first.ext, first.registry, now, [call][1..]) == Success(rest);
      assert first.toClient + [] == first.toClient;
      assert first.fired + {} == first.fired;
      assert first.notified + {} == first.notified;
  }
}
