# Verified model of the Vaadin user-inactivity timeout core

This project models the inactivity-timeout core of the `userinactivity` Vaadin add-on and proves its properties in Dafny. Several views (browser tabs) of one session share a single "last action time". Each view has a client-side timer. When that timer elapses, the server-side handler re-reads the shared time. It then either fires the session timeout listeners or re-arms the timer for the seconds that are really left.

All state is immutable. Every operation is a pure step function that takes the current server time `now` (epoch milliseconds) as an argument. A step returns the new state and a list of effects: subscribe or unsubscribe a listener, schedule `n` seconds (`0` cancels), or fire the timeout listeners. The modules follow the source files:

- `Rounding`: computes `(int) Math.round((double) ms / 1000)` exactly as `(ms + 500) / 1000` with floor division.
- `LastActionRegistry`: the shared timestamp (`Unregistered | Registered(ms)`) and the remaining-seconds formula. These are the two operations of the registry contract.
- `Channel`: listener identities, handler effects, and the two wire protocols (`scheduleTimeout` to the client; `timeout()` and `action(fire)` to the server).
- `Notify`: the loop that calls every listener held in a `HashSet`. The other modules keep listeners as plain sets and fire a whole set as one effect; `Notify.NotifyAll` shows that such a firing calls each member of the set exactly once.
- `SessionTimeoutHandler`: the main state machine (start, stop, reschedule, expiry, action, remaining seconds, running flag, listener set).
- `SessionHandler`: the older variant. Its timeout is fixed at construction, it has no running flag, and its `reschedule` is the plain expiry handling.
- `UserInactivityExtension`: the per-view channel, i.e. its listener sets, RPC entry points, `scheduleTimeout`/`cancel`, the "handler only once" guard, and `init`/`get` on a UI.
- `UserInactivityConnector`: the client. It holds an optional armed delay and the `userInitiatedRequest` flag.
- `Session`: one view wired end to end. The extension dispatches client RPCs to its handler, applies the handler's effects, and the client applies the resulting commands in order. `Session.Consistent` ties the handler's running flag to the subscription of its internal listener, which is what lets `Reconciliation` describe a view by its running flag.
- `Reconciliation`: many views sharing one registry, with serialised events. It proves that no view fires a timeout prematurely.

Notes on how the model reads the code:

- **Rounding.** Java's `Math.round` is `floor(x + 0.5)`, so halves round towards positive infinity. The model follows this. Rounding "half away from zero" gives a different result only for a negative elapsed time (a clock that went backwards): -500 ms rounds to 0 here, not to -1.
- **Where the timestamp lives.** In this version of the code, `SessionTimeoutHandler` does not call `DefaultLastActionRegistry`. It reads and writes its own session attribute (`SessionTimeoutHandler.java:132-138`), using the same formula as the registry. The model represents that attribute with the same `Registry` value, one per session, shared by all views.
- **`reschedule()` does not fire.** In the newer handler, `reschedule()` is not a re-run of the expiry handling. It never fires. It clamps the re-armed delay to at least 1 second, so the firing is left to the next expiry (`SessionTimeoutHandler.java:74-86`). The model follows the code.
- **`start(d)` with `d <= 0`.** This arms nothing, and it does not cancel a timer that is already armed.
- **Reading before any registration.** This fails: the session attribute is missing, and unboxing it throws. The registry formula states this as a precondition. The handlers' public getters and expiry handling return `Failure(MissingLastActionTime)` instead, because those can be called before `start`.
- **Transport coalescing.** The transport coalesces `action` RPCs to at most one per round trip. The model takes this as given and does not model it.

## Model

| member | source | states |
|---|---|---|
| Rounding.RoundMillisToSeconds | userinactivity/src/main/java/com/wcs/vaadin/userinactivity/SessionTimeoutHandler.java:120 | the rounded seconds `s` are the unique integer with `ms` in `[s*1000 - 500, s*1000 + 500)`, i.e. Math.round of ms/1000 |
| Rounding.RoundingIsHalfUp | userinactivity/src/main/java/com/wcs/vaadin/userinactivity/DefaultLastActionRegistry.java:29 | 499 ms is 0 s, 500 ms is 1 s, 1500 ms is 2 s, -500 ms is 0 s, -501 ms is -1 s |
| LastActionRegistry.RegisterLastActionTime | userinactivity/src/main/java/com/wcs/vaadin/userinactivity/DefaultLastActionRegistry.java:17-21 | after registering, the store holds exactly `now` |
| LastActionRegistry.RemainingSeconds | userinactivity/src/main/java/com/wcs/vaadin/userinactivity/DefaultLastActionRegistry.java:23-31 | the elapsed time since the last action is within half a second of `timeout - result` seconds; reading requires a prior registration |
| LastActionRegistry.NoSecondLeftIffExpired | userinactivity/src/main/java/com/wcs/vaadin/userinactivity/DefaultLastActionRegistry.java:27-31 | fewer than 1 second left holds exactly when at least `timeout*1000 - 500` ms have passed |
| LastActionRegistry.RemainingTargetsDeadline | userinactivity/src/main/java/com/wcs/vaadin/userinactivity/DefaultLastActionRegistry.java:27-31 | a timer armed for the remaining seconds elapses within half a second of last action + timeout |
| LastActionRegistry.RemainingRightAfterRegistration | userinactivity/src/main/java/com/wcs/vaadin/userinactivity/DefaultLastActionRegistry.java:17-31 | read less than 500 ms after registering, the full timeout is left |
| LastActionRegistry.RemainingAtHalfSecond | userinactivity/src/main/java/com/wcs/vaadin/userinactivity/DefaultLastActionRegistry.java:29 | 499 ms after the action the full timeout is left; 500 ms after it, one second less |
| LastActionRegistry.RemainingIsNonIncreasing | userinactivity/src/main/java/com/wcs/vaadin/userinactivity/DefaultLastActionRegistry.java:28-30 | for a fixed timestamp, the remaining seconds never grow as `now` grows |
| LastActionRegistry.LaterRegistrationNeverDecreasesRemaining | userinactivity/src/main/java/com/wcs/vaadin/userinactivity/DefaultLastActionRegistry.java:17-30 | at a fixed `now`, a later registration never leaves fewer seconds |
| Notify.NotifyAll | userinactivity/src/main/java/com/wcs/vaadin/userinactivity/SessionTimeoutHandler.java:64-68 | firing calls every listener of the set and no other, each exactly once |
| Channel.FiredListeners | userinactivity/src/main/java/com/wcs/vaadin/userinactivity/SessionTimeoutHandler.java:64-68 | the listeners a step calls are exactly the union of the listener sets of its firings: each firing's listeners are called and nobody else |
| Channel.SchedulesOf | userinactivity/src/main/java/com/wcs/vaadin/userinactivity/UserInactivityExtension.java:112-114 | every client command comes from a schedule call with the same seconds, and every schedule call sends one |
| SessionTimeoutHandler.Create | userinactivity/src/main/java/com/wcs/vaadin/userinactivity/SessionTimeoutHandler.java:29-54 | a new handler is not running and has no timeout listeners |
| SessionTimeoutHandler.AddTimeoutListener | userinactivity/src/main/java/com/wcs/vaadin/userinactivity/SessionTimeoutHandler.java:56-58 | the listener is a member afterwards and membership of the others is unchanged |
| SessionTimeoutHandler.RemoveTimeoutListener | userinactivity/src/main/java/com/wcs/vaadin/userinactivity/SessionTimeoutHandler.java:60-62 | the listener is absent afterwards and membership of the others is unchanged |
| SessionTimeoutHandler.TimeoutListenersAreASet | userinactivity/src/main/java/com/wcs/vaadin/userinactivity/SessionTimeoutHandler.java:56-68 | adding twice equals adding once; on a timeout an added listener is fired and a removed one is not |
| SessionTimeoutHandler.OnUserAction | userinactivity/src/main/java/com/wcs/vaadin/userinactivity/SessionTimeoutHandler.java:125-130 | the action is recorded at `now`, the whole timeout is left, and the full timeout is scheduled only when it is positive |
| SessionTimeoutHandler.Start | userinactivity/src/main/java/com/wcs/vaadin/userinactivity/SessionTimeoutHandler.java:88-94 | stores the timeout, subscribes both internal listeners, sets running, records the action at `now`, and schedules `d` exactly when `d > 0` (nothing otherwise) |
| SessionTimeoutHandler.Stop | userinactivity/src/main/java/com/wcs/vaadin/userinactivity/SessionTimeoutHandler.java:96-101 | unsubscribes both listeners, schedules 0 (cancel), clears running, and leaves the registry and configuration alone |
| SessionTimeoutHandler.StopIsIdempotent | userinactivity/src/main/java/com/wcs/vaadin/userinactivity/SessionTimeoutHandler.java:96-101 | stopping twice gives the same state and the same calls as stopping once |
| SessionTimeoutHandler.GetRemainingSeconds | userinactivity/src/main/java/com/wcs/vaadin/userinactivity/SessionTimeoutHandler.java:119-123 | fails exactly when nothing was registered; otherwise elapsed time is within half a second of `timeout - result` seconds |
| SessionTimeoutHandler.OnInactivityTimeout | userinactivity/src/main/java/com/wcs/vaadin/userinactivity/SessionTimeoutHandler.java:107-117 | timeout < 1 does nothing; an expired window fires every timeout listener and re-arms nothing; otherwise it re-arms for exactly the remaining seconds (at least 1, aimed at the true deadline) and fires nothing |
| SessionTimeoutHandler.Reschedule | userinactivity/src/main/java/com/wcs/vaadin/userinactivity/SessionTimeoutHandler.java:74-86 | rejected with "Not running" while stopped; does nothing when timeout < 1; otherwise schedules max(remaining, 1) and never fires |
| SessionTimeoutHandler.StartLeavesWholeTimeout | userinactivity/src/main/java/com/wcs/vaadin/userinactivity/SessionTimeoutHandler.java:119-123 | within 500 ms after `start(d)` the remaining seconds are exactly `d` |
| SessionTimeoutHandler.NonPositiveTimeoutNeverFires | userinactivity/src/main/java/com/wcs/vaadin/userinactivity/SessionTimeoutHandler.java:107-110 | after `start(d)` with `d < 1`, no schedule is issued, and expiry and reschedule do nothing |
| SessionTimeoutHandler.ActionInOtherViewDefersTimeout | userinactivity/src/main/java/com/wcs/vaadin/userinactivity/SessionTimeoutHandler.java:107-130 | after another handler on the same registry records an action, this handler's expiry re-arms for the true remaining time (when at least 1) instead of firing |
| SessionHandler.Construct | userinactivity/src/main/java/com/wcs/vaadin/userinactivity/SessionHandler.java:36-54 | fixes the timeout, subscribes a timeout and an action listener, records the action, and schedules the timeout only when it is positive |
| SessionHandler.AddTimeoutListener | userinactivity/src/main/java/com/wcs/vaadin/userinactivity/SessionHandler.java:56-58 | set insertion; the timeout is unchanged |
| SessionHandler.RemoveTimeoutListener | userinactivity/src/main/java/com/wcs/vaadin/userinactivity/SessionHandler.java:60-62 | set removal; the timeout is unchanged |
| SessionHandler.GetSecondsLeft | userinactivity/src/main/java/com/wcs/vaadin/userinactivity/SessionHandler.java:88-92 | fails exactly when nothing was registered; otherwise elapsed time is within half a second of `timeout - result` seconds |
| SessionHandler.OnInactivityTimeout | userinactivity/src/main/java/com/wcs/vaadin/userinactivity/SessionHandler.java:78-86 | with no timeout guard, an expired window fires all timeout listeners; otherwise it re-arms for the remaining seconds and fires nothing |
| SessionHandler.Reschedule | userinactivity/src/main/java/com/wcs/vaadin/userinactivity/SessionHandler.java:74-76 | is exactly the expiry handling, with no running check and no error of its own |
| SessionHandler.OnUserAction | userinactivity/src/main/java/com/wcs/vaadin/userinactivity/SessionHandler.java:94-100 | records the action and re-arms the whole timeout only when it is positive |
| SessionHandler.TimeoutIsFixed | userinactivity/src/main/java/com/wcs/vaadin/userinactivity/SessionHandler.java:30-38 | the timeout given at construction survives every operation |
| SessionHandler.NonPositiveTimeoutFiresOnReschedule | userinactivity/src/main/java/com/wcs/vaadin/userinactivity/SessionHandler.java:74-86 | with timeout <= 0, construction arms nothing, yet reschedule fires at once and calls the listener added since |
| UserInactivityExtension.Create | userinactivity/src/main/java/com/wcs/vaadin/userinactivity/UserInactivityExtension.java:36-40 | a new extension has no listeners and no handler |
| UserInactivityExtension.AddTimeoutListener | userinactivity/src/main/java/com/wcs/vaadin/userinactivity/UserInactivityExtension.java:73-75 | the listener is subscribed to timeouts afterwards; every other listener's membership, the action listeners and the handler slot are unchanged |
| UserInactivityExtension.RemoveTimeoutListener | userinactivity/src/main/java/com/wcs/vaadin/userinactivity/UserInactivityExtension.java:84-86 | the listener is no longer subscribed to timeouts; every other listener's membership, the action listeners and the handler slot are unchanged |
| UserInactivityExtension.AddActionListener | userinactivity/src/main/java/com/wcs/vaadin/userinactivity/UserInactivityExtension.java:92-94 | the listener is subscribed to actions afterwards; every other listener's membership, the timeout listeners and the handler slot are unchanged |
| UserInactivityExtension.RemoveActionListener | userinactivity/src/main/java/com/wcs/vaadin/userinactivity/UserInactivityExtension.java:100-102 | the listener is no longer subscribed to actions; every other listener's membership, the timeout listeners and the handler slot are unchanged |
| UserInactivityExtension.ListenerSetsIgnoreDuplicates | userinactivity/src/main/java/com/wcs/vaadin/userinactivity/UserInactivityExtension.java:73-102 | a duplicate add is a no-op, removing an absent listener is harmless, and each set is independent of the other |
| UserInactivityExtension.ScheduleTimeout | userinactivity/src/main/java/com/wcs/vaadin/userinactivity/UserInactivityExtension.java:112-114 | sends the client a command carrying exactly the given seconds |
| UserInactivityExtension.Cancel | userinactivity/src/main/java/com/wcs/vaadin/userinactivity/UserInactivityExtension.java:122-124 | is exactly `scheduleTimeout(0)` |
| UserInactivityExtension.TimeoutRpcListeners | userinactivity/src/main/java/com/wcs/vaadin/userinactivity/UserInactivityExtension.java:42-45 | RPC `timeout()` notifies exactly the registered timeout listeners |
| UserInactivityExtension.ActionRpcListeners | userinactivity/src/main/java/com/wcs/vaadin/userinactivity/UserInactivityExtension.java:47-52 | RPC `action(true)` notifies exactly the action listeners; `action(false)` notifies nobody |
| UserInactivityExtension.InitSessionTimeoutHandler | userinactivity/src/main/java/com/wcs/vaadin/userinactivity/UserInactivityExtension.java:132-139 | succeeds, installing a new handler, exactly when none exists; otherwise fails with an invalid-state error |
| UserInactivityExtension.GetSessionTimeoutHandler | userinactivity/src/main/java/com/wcs/vaadin/userinactivity/UserInactivityExtension.java:146-148 | returns a handler exactly when initialising again would be rejected; while it returns none, initialising installs a new handler |
| UserInactivityExtension.HandlerIsInitialisedOnlyOnce | userinactivity/src/main/java/com/wcs/vaadin/userinactivity/UserInactivityExtension.java:132-148 | the first init succeeds and the getter then returns that handler; a second init fails |
| UserInactivityExtension.ApplyEffects | userinactivity/src/main/java/com/wcs/vaadin/userinactivity/UserInactivityExtension.java:73-114 | carries out a handler's calls in order: the client receives one command per schedule call, in call order, so the last one decides its timer; a listener is subscribed afterwards exactly when the last subscribe or unsubscribe call for it says so, or, without such a call, as before; the handler slot is untouched |
| UserInactivityExtension.Get | userinactivity/src/main/java/com/wcs/vaadin/userinactivity/UserInactivityExtension.java:207-215 | finds an instance exactly when the UI carries one, and the one found is the first on the UI |
| UserInactivityExtension.FirstInactivity | userinactivity/src/main/java/com/wcs/vaadin/userinactivity/UserInactivityExtension.java:208-214 | the scan returns an instance exactly when the list holds one, and then the first one in the list |
| UserInactivityExtension.Init | userinactivity/src/main/java/com/wcs/vaadin/userinactivity/UserInactivityExtension.java:191-199 | fails with "UI already extended." exactly when the UI has an instance; otherwise the UI ends with exactly one instance, the new one, and its other extensions kept |
| UserInactivityConnector.Initial | userinactivity/src/main/java/com/wcs/vaadin/userinactivity/client/UserInactivityConnector.java:36-44 | the client starts with no timer armed and the flag cleared |
| UserInactivityConnector.Schedule | userinactivity/src/main/java/com/wcs/vaadin/userinactivity/client/UserInactivityConnector.java:57-63 | `t > 0` arms a single timer for `t*1000` ms, replacing any armed one; `t <= 0` leaves none armed |
| UserInactivityConnector.ScheduleAsWritten | userinactivity/src/main/java/com/wcs/vaadin/userinactivity/client/UserInactivityConnector.java:57-63 | as `Schedule`, but the delay is the 32-bit `int` product `t*1000`; the user-request flag is kept |
| UserInactivityConnector.ScheduleAsWrittenAgreesBelowOverflow | userinactivity/src/main/java/com/wcs/vaadin/userinactivity/client/UserInactivityConnector.java:59 | up to 2147483 s the 32-bit product equals the exact one |
| UserInactivityConnector.ScheduleAsWrittenOverflows | userinactivity/src/main/java/com/wcs/vaadin/userinactivity/client/UserInactivityConnector.java:59 | 2147484 s yields the negative delay -2147483296 ms as written |
| UserInactivityConnector.MarkNextRequestAsUserAction | userinactivity/src/main/java/com/wcs/vaadin/userinactivity/client/UserInactivityConnector.java:52-55 | sends `action(mark)` and sets the flag to `mark`, leaving the timer alone |
| UserInactivityConnector.OnPreviewNativeEvent | userinactivity/src/main/java/com/wcs/vaadin/userinactivity/client/UserInactivityConnector.java:81-88 | key-down, mouse-down and touch-start send `action(true)` and set the flag; any other event changes nothing and sends nothing |
| UserInactivityConnector.OnRequestStarting | userinactivity/src/main/java/com/wcs/vaadin/userinactivity/client/UserInactivityConnector.java:91-96 | the timer is cancelled if and only if the flag was set; the flag is false afterwards |
| UserInactivityConnector.OnInactivityTimeout | userinactivity/src/main/java/com/wcs/vaadin/userinactivity/client/UserInactivityConnector.java:46-55 | sends `timeout()` then `action(false)`, and leaves the flag false and the single-shot timer spent |
| UserInactivityConnector.OnApplicationStopped | userinactivity/src/main/java/com/wcs/vaadin/userinactivity/client/UserInactivityConnector.java:99-101 | no timer is armed afterwards |
| UserInactivityConnector.OnlyUserRequestsCancelTheTimer | userinactivity/src/main/java/com/wcs/vaadin/userinactivity/client/UserInactivityConnector.java:91-96 | the request sent after an expiry keeps a timer re-armed by the server; the request sent after user input cancels it |
| Session.HandleServerRpc | userinactivity/src/main/java/com/wcs/vaadin/userinactivity/UserInactivityExtension.java:41-53 | `action(false)` changes nothing and sends nothing; only `timeout()` can fire the timeout listeners |
| Session.InitIsConsistent | userinactivity/src/main/java/com/wcs/vaadin/userinactivity/UserInactivityExtension.java:132-139 | a newly initialised handler is stopped and its internal listener is on neither set |
| Session.StartIsConsistent | userinactivity/src/main/java/com/wcs/vaadin/userinactivity/SessionTimeoutHandler.java:88-94 | after `start`, from any prior state, the handler runs and its listener is on both sets |
| Session.StopIsConsistent | userinactivity/src/main/java/com/wcs/vaadin/userinactivity/SessionTimeoutHandler.java:96-101 | after `stop`, from any prior state, the handler is stopped and its listener is on neither set |
| Session.GetterReturnsStoredHandler | userinactivity/src/main/java/com/wcs/vaadin/userinactivity/UserInactivityExtension.java:146-148 | the getter returns the stored handler itself: after `start(d)` the started one (timeout `d`, running, same listeners), after `stop` the stopped one |
| Session.HandleServerRpcIsConsistent | userinactivity/src/main/java/com/wcs/vaadin/userinactivity/UserInactivityExtension.java:41-53 | client RPCs keep the handler's state and the agreement between its running flag and its subscriptions |
| Session.StoppedViewIsInert | userinactivity/src/main/java/com/wcs/vaadin/userinactivity/SessionTimeoutHandler.java:96-101 | once stopped, no client RPC changes the registry, the extension or the client, and no timeout fires |
| Session.RunningViewFollowsHandler | userinactivity/src/main/java/com/wcs/vaadin/userinactivity/SessionTimeoutHandler.java:38-54 | a running view's `action(true)` registers exactly as the handler's user action does, and its `timeout()` fails, succeeds and fires exactly as the handler's expiry does without writing the registry |
| Session.Deliver | userinactivity/src/main/java/com/wcs/vaadin/userinactivity/client/UserInactivityConnector.java:71-77 | the client applies the server's commands in order and the last one decides the timer |
| Session.CancelDisarmsClient | userinactivity/src/main/java/com/wcs/vaadin/userinactivity/UserInactivityExtension.java:116-124 | after `cancel()` the client has no timer armed, whether or not one was armed before |
| Session.StartArmsClientTimer | userinactivity/src/main/java/com/wcs/vaadin/userinactivity/SessionTimeoutHandler.java:88-94 | after `start(d)` the handler is subscribed to both events and running; the client timer is armed for exactly `d` s when `d > 0`, and no command is sent when `d <= 0` |
| Session.StopIsIdempotentEndToEnd | userinactivity/src/main/java/com/wcs/vaadin/userinactivity/SessionTimeoutHandler.java:96-101 | `stop()` unsubscribes, clears running and disarms the client; a second stop leaves extension and client as the first did |
| Session.ExpiryCallsActAsTimeoutAlone | userinactivity/src/main/java/com/wcs/vaadin/userinactivity/client/UserInactivityConnector.java:46-55 | the server handles the expiry's `timeout()`, `action(false)` exactly as `timeout()` alone |
| Session.UserInputRoundTrip | userinactivity/src/main/java/com/wcs/vaadin/userinactivity/client/UserInactivityConnector.java:81-96 | after a key press, the request cancels the local timer and the server records the action; the client ends armed for exactly the full timeout |
| Session.ActionInOtherViewDefersTimeout | userinactivity/src/main/java/com/wcs/vaadin/userinactivity/SessionTimeoutHandler.java:107-117 | an action in view A makes view B's later expiry re-arm B's client for the true remainder without firing |
| Reconciliation.RegistryCoversActions | userinactivity/src/main/java/com/wcs/vaadin/userinactivity/SessionTimeoutHandler.java:125-134 | after a time-ordered run, the shared timestamp is registered and at least as recent as every action of a running view |
| Reconciliation.NoPrematureTimeout | userinactivity/src/main/java/com/wcs/vaadin/userinactivity/SessionTimeoutHandler.java:107-117 | when any view fires, every earlier action of a running view, in any view, lies at least `timeout*1000 - 500` ms in the past |
| Reconciliation.ExpiredWindowFires | userinactivity/src/main/java/com/wcs/vaadin/userinactivity/SessionTimeoutHandler.java:111-113 | an expiry of a running view with a positive timeout fires once the shared window has run out |
| Reconciliation.RegistryIsMonotone | userinactivity/src/main/java/com/wcs/vaadin/userinactivity/SessionTimeoutHandler.java:132-134 | along a time-ordered run the shared timestamp never moves backwards |
| Reconciliation.TwoViewScenarioStart | userinactivity/src/main/java/com/wcs/vaadin/userinactivity/SessionTimeoutHandler.java:88-94 | two views started at 0 s with 10 s each schedule 10 s; an action at 4 s moves the shared timestamp to 4 s and re-arms 10 s |
| Reconciliation.TwoViewScenarioExpiry | userinactivity/src/main/java/com/wcs/vaadin/userinactivity/SessionTimeoutHandler.java:107-117 | the other view's timer elapsing at 10 s re-arms 4 s without firing; at 14 s it fires its listeners |
| Reconciliation.FiresAtZeroRemaining | userinactivity/src/main/java/com/wcs/vaadin/userinactivity/SessionTimeoutHandler.java:111-113 | 10.49 s after the action with a 10 s timeout, 0 s are left and the expiry fires |

## Left out

- The demo UI and its countdown window, clock widget, calendar and notifications are presentation only.
- The server RPC interface and the `@Delayed(lastOnly = true)` coalescing of `action` are done by the transport. The model assumes that action events arrive coalesced and that `scheduleTimeout` commands arrive in order.
- The `LastActionRegistry` interface has no behaviour. Its two operations are modelled through `DefaultLastActionRegistry`.
- `VaadinSession` attribute storage and the `getCurrent()` lookups are replaced by an explicit shared `Registry` value. So is the session key under which each class stores the timestamp.
- `System.currentTimeMillis()` is replaced by an explicit `now` parameter.
- The GWT `Timer` keeps only its armed delay. When the timer elapses is an event of the model, not a computation.
- The `ApplicationConnection` handler wiring in `extend` and the empty response-handling callbacks are not modelled, because they have no behaviour of their own.
- `getSupportedParentType` and the extension's `extend` override are not modelled. The UI is a list of tagged extensions.
- `System.out` logging in `SessionHandler` is not modelled.
- Session locking and concurrency are not modelled. Every handler invocation is assumed to be serialised, and a run is a sequence of events.
- Floating-point `Math.round` is replaced by exact integer rounding. The two agree while the elapsed milliseconds are exactly representable as a double.
- The 32-bit wrap of the `(int)` cast of the rounded seconds is not modelled. Neither is a wrap of `timeout - elapsed`. Both need elapsed times or timeouts beyond about 68 years.
- `isRunning`, `getSessionTimeoutSeconds` and `getLastActionTime` are plain reads of the `running`, `timeoutSeconds` and `lastActionMs` fields.
- The older `SessionHandler` is not wired into the `Session` composition, which routes the extension's events to `SessionTimeoutHandler` only. Its own steps are modelled on their own.
- Session.HandleServerRpc: its own contract states only two things: that `action(false)` has no effect, and that only `timeout()` can fire. The other behaviour is stated by the `Session` lemmas about it It reports every application listener on the set as notified. In the source the listeners run inside the for-each over the live `HashSet` (`UserInactivityExtension.java:151-153`). A timeout listener that calls `stop()` removes the handler's listener from that same set. If listeners remain in the iteration, the loop then throws `ConcurrentModificationException`, and those listeners are not called. Here such a reaction is a later, separate step, and the exception is not modelled.
- Notify.NotifyAll: iterates a snapshot of the set. A listener that adds or removes members of the set being fired is a later step here. An example is a session timeout listener calling `stop()` or changing the handler's own listener set. In the source, the for-each over the live `HashSet` (`SessionTimeoutHandler.java:65-67`, `UserInactivityExtension.java:151-153`) then throws `ConcurrentModificationException` if listeners remain, and those listeners are not called. Re-entrant callbacks and this exception are not modelled.
- Session.Deliver: applies each command through the corrected `UserInactivityConnector.Schedule`, so the armed delay is the exact `t*1000`; as written the delay wraps negative for `t >= 2147484` (see Findings).
- Session.StartArmsClientTimer: "armed for exactly `d` s" holds of the corrected connector; as written it fails for `d >= 2147484` (see Findings).
- Session.UserInputRoundTrip: "armed for exactly the full timeout" holds of the corrected connector; as written it fails for timeouts of 2147484 s or more (see Findings).
- Session.ActionInOtherViewDefersTimeout: the re-armed delay `remaining*1000` holds of the corrected connector; as written it fails for remainders of 2147484 s or more (see Findings).
- Reconciliation.NoPrematureTimeout: each view's running flag is fixed for the whole run, so a view stopped and restarted in the middle of a run is not covered; the same holds for `RegistryCoversActions` and `ExpiredWindowFires`. The link between a view's running flag and the routing of its RPCs is proved per step by `Session.RunningViewFollowsHandler` and `Session.StoppedViewIsInert`.
- UserInactivityConnector.OnInactivityTimeout: leaves the timer disarmed, because a GWT `Timer` armed with `schedule` runs once.

## Findings

| source | as written | input that shows it | evidently intended | confidence | as-written member | corrected member |
|---|---|---|---|---|---|---|
| userinactivity/src/main/java/com/wcs/vaadin/userinactivity/client/UserInactivityConnector.java:59 | the delay `timeoutSeconds * 1000` is a 32-bit `int` product | `timeoutSeconds = 2147484` gives a delay of -2147483296 ms | arm the timer for `timeoutSeconds * 1000` ms | not executed; matters only for timeouts above about 24.8 days | UserInactivityConnector.ScheduleAsWritten | UserInactivityConnector.Schedule |
