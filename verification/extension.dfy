/** The per-view server-side channel: two listener sets, the commands sent
    to the client timer, the RPC entry points, the guard that lets a view
    own at most one SessionTimeoutHandler, and the attachment of the
    extension to a UI. */
module UserInactivityExtension {
  import opened Outcomes
  import opened Channel
  import SessionTimeoutHandler

  datatype Extension = Extension(
    timeoutListeners: set<Listener>,
    actionListeners: set<Listener>,
    sessionTimeoutHandler: Option<SessionTimeoutHandler.Handler>)

  /** A new extension: no listeners, no handler. */
  function Create(): (ext: Extension)
    ensures ext.timeoutListeners == {} && ext.actionListeners == {} && ext.sessionTimeoutHandler.None?
  {
    Extension({}, {}, None)
  }

  /** Subscribes a timeout listener; nothing else on the extension changes. */
  function AddTimeoutListener(ext: Extension, l: Listener): (r: Extension)
    ensures l in r.timeoutListeners
    ensures forall m :: m != l ==> (m in r.timeoutListeners <==> m in ext.timeoutListeners)
    ensures r.actionListeners == ext.actionListeners && r.sessionTimeoutHandler == ext.sessionTimeoutHandler
  {
    ext.(timeoutListeners := ext.timeoutListeners + {l})
  }

  /** Unsubscribes a timeout listener, if subscribed; nothing else changes. */
  function RemoveTimeoutListener(ext: Extension, l: Listener): (r: Extension)
    ensures l !in r.timeoutListeners
    ensures forall m :: m != l ==> (m in r.timeoutListeners <==> m in ext.timeoutListeners)
    ensures r.actionListeners == ext.actionListeners && r.sessionTimeoutHandler == ext.sessionTimeoutHandler
  {
    ext.(timeoutListeners := ext.timeoutListeners - {l})
  }

  /** Subscribes an action listener; nothing else on the extension changes. */
  function AddActionListener(ext: Extension, l: Listener): (r: Extension)
    ensures l in r.actionListeners
    ensures forall m :: m != l ==> (m in r.actionListeners <==> m in ext.actionListeners)
    ensures r.timeoutListeners == ext.timeoutListeners && r.sessionTimeoutHandler == ext.sessionTimeoutHandler
  {
    ext.(actionListeners := ext.actionListeners + {l})
  }

  /** Unsubscribes an action listener, if subscribed; nothing else changes. */
  function RemoveActionListener(ext: Extension, l: Listener): (r: Extension)
    ensures l !in r.actionListeners
    ensures forall m :: m != l ==> (m in r.actionListeners <==> m in ext.actionListeners)
    ensures r.timeoutListeners == ext.timeoutListeners && r.sessionTimeoutHandler == ext.sessionTimeoutHandler
  {
    ext.(actionListeners := ext.actionListeners - {l})
  }

  /** Listener sets: adding twice is adding once, removing an absent
      listener changes nothing, and the other set is never touched. */
  lemma ListenerSetsIgnoreDuplicates(ext: Extension, l: Listener)
    ensures AddTimeoutListener(AddTimeoutListener(ext, l), l) == AddTimeoutListener(ext, l)
    ensures AddActionListener(AddActionListener(ext, l), l) == AddActionListener(ext, l)
    ensures l !in ext.timeoutListeners ==> RemoveTimeoutListener(ext, l) == ext
    ensures l !in ext.actionListeners ==> RemoveActionListener(ext, l) == ext
    ensures AddTimeoutListener(ext, l).actionListeners == ext.actionListeners
    ensures AddActionListener(ext, l).timeoutListeners == ext.timeoutListeners
  {
  }

  /** The client command arming the view's timer; `seconds <= 0` cancels. */
  function ScheduleTimeout(timeoutSeconds: int): (rpc: ClientRpc)
    ensures rpc.seconds == timeoutSeconds
  {
    ScheduleTimeoutRpc(timeoutSeconds)
  }

  /** Cancelling is scheduling zero seconds. */
  function Cancel(): (rpc: ClientRpc)
    ensures rpc == ScheduleTimeout(0)
  {
    ScheduleTimeout(0)
  }

  /** RPC `timeout()`: every registered timeout listener is notified. */
  function TimeoutRpcListeners(ext: Extension): (notified: set<Listener>)
    ensures forall l :: l in notified <==> l in ext.timeoutListeners
  {
    ext.timeoutListeners
  }

  /** RPC `action(fire)`: the action listeners are notified only when `fire`
      is set; `action(false)` notifies nobody. */
  function ActionRpcListeners(ext: Extension, fire: bool): (notified: set<Listener>)
    ensures fire ==> notified == ext.actionListeners
    ensures !fire ==> notified == {}
  {
    if fire then ext.actionListeners else {}
  }

  /** Creates the view's handler, unless one exists already. */
  function InitSessionTimeoutHandler(ext: Extension): (r: Result<Extension>)
    ensures r.Success? <==> ext.sessionTimeoutHandler.None?
    ensures r.Success? ==> r.value == ext.(sessionTimeoutHandler := Some(SessionTimeoutHandler.Create()))
    ensures r.Failure? ==> r.error == InvalidState("SessionHandler already  inititalized.")
  {
    if ext.sessionTimeoutHandler.None? then
      Success(ext.(sessionTimeoutHandler := Some(SessionTimeoutHandler.Create())))
    else
      Failure(InvalidState("SessionHandler already  inititalized."))
  }

  /** The view's handler, or none before a successful initialisation:
      there is one exactly when initialising again would be rejected. */
  function GetSessionTimeoutHandler(ext: Extension): (r: Option<SessionTimeoutHandler.Handler>)
    ensures r.Some? <==> InitSessionTimeoutHandler(ext).Failure?
    ensures r.None? ==> InitSessionTimeoutHandler(ext).value.sessionTimeoutHandler == Some(SessionTimeoutHandler.Create())
  {
    ext.sessionTimeoutHandler
  }

  /** The first initialisation succeeds and is then what the getter
      returns; a second one is rejected. */
  lemma HandlerIsInitialisedOnlyOnce(ext: Extension)
    requires GetSessionTimeoutHandler(ext).None?
    ensures InitSessionTimeoutHandler(ext).Success?
    ensures GetSessionTimeoutHandler(InitSessionTimeoutHandler(ext).value) == Some(SessionTimeoutHandler.Create())
    ensures InitSessionTimeoutHandler(InitSessionTimeoutHandler(ext).value).Failure?
  {
  }

  /** Carries out one handler call on this extension; a `Schedule` becomes
      a client command, a `FireTimeout` concerns the handler's own
      listeners and leaves the extension alone. */
  function ApplyEffect(ext: Extension, e: Effect): (r: (Extension, seq<ClientRpc>))
    ensures r.0.sessionTimeoutHandler == ext.sessionTimeoutHandler
    ensures e.Schedule? ==> r == (ext, [ScheduleTimeout(e.seconds)])
    ensures !e.Schedule? ==> r.1 == []
  {
    match e
    case SubscribeAction(l) => (AddActionListener(ext, l), [])
    case SubscribeTimeout(l) => (AddTimeoutListener(ext, l), [])
    case UnsubscribeAction(l) => (RemoveActionListener(ext, l), [])
    case UnsubscribeTimeout(l) => (RemoveTimeoutListener(ext, l), [])
    case Schedule(seconds) => (ext, [ScheduleTimeout(seconds)])
    case FireTimeout(_) => (ext, [])
  }

  /** Carries out a handler's calls in order. The client receives one
      command per `Schedule` call, in the order made, so the last one
      decides its timer; a listener is subscribed afterwards exactly when
      the last subscribe or unsubscribe call for it (or, without one, its
      earlier state) says so. */
  function ApplyEffects(ext: Extension, effects: seq<Effect>): (r: (Extension, seq<ClientRpc>))
    ensures r.0.sessionTimeoutHandler == ext.sessionTimeoutHandler
    ensures r.1 == SchedulesOf(effects)
    ensures forall l :: l in r.0.timeoutListeners <==>
              SubscribedAfter(l in ext.timeoutListeners, effects, SubscribeTimeout(l), UnsubscribeTimeout(l))
    ensures forall l :: l in r.0.actionListeners <==>
              SubscribedAfter(l in ext.actionListeners, effects, SubscribeAction(l), UnsubscribeAction(l))
    decreases |effects|
  {
    if |effects| == 0 then (ext, [])
    else
      var first := ApplyEffect(ext, effects[0]);
      var rest := ApplyEffects(first.0, effects[1..]);
      assert forall l :: SubscribedAfter(l in ext.timeoutListeners, effects, SubscribeTimeout(l), UnsubscribeTimeout(l))
                     <==> SubscribedAfter(l in first.0.timeoutListeners, effects[1..], SubscribeTimeout(l), UnsubscribeTimeout(l)) by {
        forall l ensures SubscribedAfter(l in ext.timeoutListeners, effects, SubscribeTimeout(l), UnsubscribeTimeout(l))
                     <==> SubscribedAfter(l in first.0.timeoutListeners, effects[1..], SubscribeTimeout(l), UnsubscribeTimeout(l)) {
          SubscribedAfterFirst(l in ext.timeoutListeners, effects, SubscribeTimeout(l), UnsubscribeTimeout(l));
        }
      }
      assert forall l :: SubscribedAfter(l in ext.actionListeners, effects, SubscribeAction(l), UnsubscribeAction(l))
                     <==> SubscribedAfter(l in first.0.actionListeners, effects[1..], SubscribeAction(l), UnsubscribeAction(l)) by {
        forall l ensures SubscribedAfter(l in ext.actionListeners, effects, SubscribeAction(l), UnsubscribeAction(l))
                     <==> SubscribedAfter(l in first.0.actionListeners, effects[1..], SubscribeAction(l), UnsubscribeAction(l)) {
          SubscribedAfterFirst(l in ext.actionListeners, effects, SubscribeAction(l), UnsubscribeAction(l));
        }
      }
      (rest.0, first.1 + rest.1)
  }

  /** What a UI carries: this extension or some other one. */
  datatype UiExtension = Inactivity(extension: Extension) | OtherExtension(name: string)

  datatype UI = UI(extensions: seq<UiExtension>)

  /** How many instances of this extension a list of extensions holds. */
  function CountInactivity(xs: seq<UiExtension>): nat
  {
    if |xs| == 0 then 0
    else (if xs[0].Inactivity? then 1 else 0) + CountInactivity(xs[1..])
  }

  /** The first instance of this extension in a list of extensions. */
  function FirstInactivity(xs: seq<UiExtension>): (r: Option<Extension>)
    ensures r.None? <==> CountInactivity(xs) == 0
    ensures r.Some? ==> Inactivity(r.value) in xs
    ensures r.Some? ==> exists k :: 0 <= k < |xs| && xs[k] == Inactivity(r.value) &&
                                    forall m :: 0 <= m < k ==> !xs[m].Inactivity?
  {
    if |xs| == 0 then None
    else if xs[0].Inactivity? then Some(xs[0].extension)
    else FirstInactivity(xs[1..])
  }

  /** The UI's instance of this extension, if it has one. */
  function Get(ui: UI): (r: Option<Extension>)
    ensures r.None? <==> CountInactivity(ui.extensions) == 0
    ensures r.Some? ==> exists k :: 0 <= k < |ui.extensions| && ui.extensions[k] == Inactivity(r.value) &&
                                    forall m :: 0 <= m < k ==> !ui.extensions[m].Inactivity?
  {
    FirstInactivity(ui.extensions)
  }

  lemma {:induction false} CountInactivityAppend(xs: seq<UiExtension>, ys: seq<UiExtension>)
    ensures CountInactivity(xs + ys) == CountInactivity(xs) + CountInactivity(ys)
    decreases |xs|
  {
    if |xs| == 0 {
      assert xs + ys == ys;
    } else {
      assert (xs + ys)[1..] == xs[1..] + ys;
      CountInactivityAppend(xs[1..], ys);
    }
  }

  /** Attaches a new instance to a UI that has none; a UI that already
      carries one is rejected. On success the UI carries exactly one, it
      is the new instance, and the other extensions are kept in place. */
  function Init(ui: UI): (r: Result<(UI, Extension)>)
    ensures r.Failure? <==> Get(ui).Some?
    ensures r.Failure? ==> r.error == InvalidState("UI already extended.")
    ensures r.Success? ==> && CountInactivity(r.value.0.extensions) == 1
                           && Get(r.value.0) == Some(r.value.1)
                           && r.value.1 == Create()
                           && |r.value.0.extensions| == |ui.extensions| + 1
                           && r.value.0.extensions[..|ui.extensions|] == ui.extensions
  {
    if Get(ui).Some? then Failure(InvalidState("UI already extended."))
    else
      var instance := Create();
      var extended := UI(ui.extensions + [Inactivity(instance)]);
      CountInactivityAppend(ui.extensions, [Inactivity(instance)]);
      assert CountInactivity([Inactivity(instance)]) == 1;
      FirstInactivityAfterNone(ui.extensions, [Inactivity(instance)]);
      Success((extended, instance))
  }

  lemma {:induction false} FirstInactivityAfterNone(xs: seq<UiExtension>, ys: seq<UiExtension>)
    requires CountInactivity(xs) == 0
    ensures FirstInactivity(xs + ys) == FirstInactivity(ys)
    decreases |xs|
  {
    if |xs| == 0 {
      assert xs + ys == ys;
    } else {
      assert (xs + ys)[1..] == xs[1..] + ys;
      assert (xs + ys)[0] == xs[0];
      FirstInactivityAfterNone(xs[1..], ys);
    }
  }
}
