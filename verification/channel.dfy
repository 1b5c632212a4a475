/** The vocabulary shared by the handlers, the per-view extension and the
    client connector: listener identities, the calls a handler makes on its
    extension (returned as effects), and the two wire protocols. */
module Channel {
  import opened LastActionRegistry

  /** Identity of a listener subscribed to a view's extension: the internal
      listener pair of the view's SessionTimeoutHandler, the one of the older
      SessionHandler, or a listener the application added itself. */
  datatype Listener = HandlerListener | LegacyHandlerListener | AppListener(id: nat)

  /** A call a handler makes while handling one step, in the order made. */
  datatype Effect =
    | SubscribeAction(listener: Listener)
    | SubscribeTimeout(listener: Listener)
    | UnsubscribeAction(listener: Listener)
    | UnsubscribeTimeout(listener: Listener)
    | Schedule(seconds: int)              // scheduleTimeout on the extension; 0 is cancel
    | FireTimeout(listeners: set<nat>)    // every session timeout listener is called

  /** A handler's new state, the shared registry after the step, and what
      the step did. */
  datatype Step<S> = Step(state: S, registry: Registry, effects: seq<Effect>)

  /** Server-to-client RPC: arm the client timer, or cancel it when `seconds <= 0`. */
  datatype ClientRpc = ScheduleTimeoutRpc(seconds: int)

  /** Client-to-server RPCs. Consecutive `ActionRpc`s are coalesced by the
      transport, so at most one arrives per round trip. */
  datatype ServerRpc = TimeoutRpc | ActionRpc(fire: bool)

  /** The step announced a timeout to the session timeout listeners. */
  predicate FiresTimeout(effects: seq<Effect>)
  {
    exists i :: 0 <= i < |effects| && effects[i].FireTimeout?
  }

  /** Every session timeout listener the effects call: exactly the union
      of the listener sets of the `FireTimeout` calls. */
  function FiredListeners(effects: seq<Effect>): (fired: set<nat>)
    ensures fired != {} ==> FiresTimeout(effects)
    ensures forall i :: 0 <= i < |effects| && effects[i].FireTimeout? ==> effects[i].listeners <= fired
    ensures forall l :: l in fired ==>
              exists i :: 0 <= i < |effects| && effects[i].FireTimeout? && l in effects[i].listeners
  {
    if |effects| == 0 then {}
    else
      var rest := FiredListeners(effects[1..]);
      assert forall i :: 1 <= i < |effects| ==> effects[1..][i - 1] == effects[i];
      (if effects[0].FireTimeout? then effects[0].listeners else {}) + rest
  }

  /** The client commands the `Schedule` calls among the effects send, in
      the order made: one per `Schedule`, carrying its seconds. */
  function SchedulesOf(effects: seq<Effect>): (rpcs: seq<ClientRpc>)
    ensures |rpcs| <= |effects|
    ensures forall rpc :: rpc in rpcs ==> Schedule(rpc.seconds) in effects
    ensures forall s :: Schedule(s) in effects ==> ScheduleTimeoutRpc(s) in rpcs
  {
    if |effects| == 0 then []
    else
      var rest := SchedulesOf(effects[1..]);
      assert forall e :: e in effects <==> e == effects[0] || e in effects[1..];
      (if effects[0].Schedule? then [ScheduleTimeoutRpc(effects[0].seconds)] else []) + rest
  }

  /** Whether a listener is subscribed after the effects, for one of the
      two listener sets (`sub`/`unsub` being its subscribe and unsubscribe
      calls): it was subscribed and never removed, or some call added it and
      no later call removed it. */
  predicate SubscribedAfter(initially: bool, effects: seq<Effect>, sub: Effect, unsub: Effect)
  {
    || (initially && forall k :: 0 <= k < |effects| ==> effects[k] != unsub)
    || exists i :: 0 <= i < |effects| && effects[i] == sub &&
         forall k :: i < k < |effects| ==> effects[k] != unsub
  }

  /** Peeling the first call off: its effect on the membership is carried
      into the initial state of the rest. */
  lemma SubscribedAfterFirst(initially: bool, effects: seq<Effect>, sub: Effect, unsub: Effect)
    requires |effects| > 0 && sub != unsub
    ensures var next := if effects[0] == sub then true else if effects[0] == unsub then false else initially;
            SubscribedAfter(initially, effects, sub, unsub) <==> SubscribedAfter(next, effects[1..], sub, unsub)
  {
  }
}
