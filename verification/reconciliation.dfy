/** Many views of one session, each with its own SessionTimeoutHandler and
    its own client timer, all sharing one registry. Handler invocations are
    serialised, so a session run is a sequence of events, each an action or
    a timer expiry in one view. Because every expiry re-reads the shared
    registry, no view declares a timeout while any view's action is still
    within its window. */
module Reconciliation {
  import opened Outcomes
  import opened LastActionRegistry
  import opened Channel
  import H = SessionTimeoutHandler

  datatype SessionEvent = UserAction(view: nat, at: int) | TimerExpiry(view: nat, at: int)

  /** Every event names one of the views. */
  predicate ValidTrace(handlers: seq<H.Handler>, events: seq<SessionEvent>)
  {
    forall i :: 0 <= i < |events| ==> events[i].view < |handlers|
  }

  /** Events happen in time order. */
  predicate Chronological(events: seq<SessionEvent>)
  {
    forall i, j :: 0 <= i < j < |events| ==> events[i].at <= events[j].at
  }

  /** The shared registry after the events. An action reaches its handler,
      and so the registry, only while that handler runs; expiries never
      write the registry. `Session.RunningViewFollowsHandler` and
      `Session.StoppedViewIsInert` prove that a view's extension routes its
      client's RPCs this way. Each view's running flag is fixed for the run. */
  function RegistryAfter(handlers: seq<H.Handler>, reg: Registry, events: seq<SessionEvent>): Registry
    requires ValidTrace(handlers, events)
    decreases |events|
  {
    if |events| == 0 then reg
    else
      var before := RegistryAfter(handlers, reg, events[..|events| - 1]);
      var e := events[|events| - 1];
      if e.UserAction? && handlers[e.view].running then H.OnUserAction(handlers[e.view], before, e.at).registry
      else before
  }

  /** The `i`-th event is an expiry after which its view fires the
      session timeout. */
  predicate FiresAt(handlers: seq<H.Handler>, reg: Registry, events: seq<SessionEvent>, i: nat)
    requires ValidTrace(handlers, events) && i < |events|
  {
    var e := events[i];
    && e.TimerExpiry?
    && handlers[e.view].running
    && var r := H.OnInactivityTimeout(handlers[e.view], RegistryAfter(handlers, reg, events[..i]), e.at);
       r.Success? && FiresTimeout(r.value.effects)
  }

  /** After a run, the registry holds an action at least as recent as any
      action of a running view in the run. */
  lemma {:induction false} RegistryCoversActions(handlers: seq<H.Handler>, reg: Registry, events: seq<SessionEvent>, j: nat)
    requires ValidTrace(handlers, events) && Chronological(events)
    requires j < |events| && events[j].UserAction? && handlers[events[j].view].running
    ensures RegistryAfter(handlers, reg, events).Registered?
    ensures events[j].at <= RegistryAfter(handlers, reg, events).lastActionMs
    decreases |events|
  {
    var last := |events| - 1;
    var prefix := events[..last];
    assert ValidTrace(handlers, prefix);
    var e := events[last];
    if e.UserAction? && handlers[e.view].running {
      assert events[j].at <= e.at;
    } else {
      assert j < last;
      assert prefix[j] == events[j];
      RegistryCoversActions(handlers, reg, prefix, j);
    }
  }

  /** No premature timeout: when a view fires, every action a running view
      took earlier in the run lies at least the firing view's timeout
      (rounded half-up to the second) in the past. */
  lemma NoPrematureTimeout(handlers: seq<H.Handler>, reg: Registry, events: seq<SessionEvent>, i: nat, j: nat)
    requires ValidTrace(handlers, events) && Chronological(events)
    requires j < i < |events|
    requires events[j].UserAction? && handlers[events[j].view].running
    requires FiresAt(handlers, reg, events, i)
    ensures events[i].at - events[j].at >= handlers[events[i].view].timeoutSeconds * 1000 - 500
  {
    var prefix := events[..i];
    assert ValidTrace(handlers, prefix);
    assert prefix[j] == events[j];
    RegistryCoversActions(handlers, reg, prefix, j);
    var shared := RegistryAfter(handlers, reg, prefix);
    var h := handlers[events[i].view];
  }

  /** No missed timeout: an expiry in a running view with a positive timeout
      fires as soon as the shared window has run out. */
  lemma ExpiredWindowFires(handlers: seq<H.Handler>, reg: Registry, events: seq<SessionEvent>, i: nat)
    requires ValidTrace(handlers, events) && i < |events|
    requires events[i].TimerExpiry? && handlers[events[i].view].running
    requires handlers[events[i].view].timeoutSeconds >= 1
    requires RegistryAfter(handlers, reg, events[..i]).Registered?
    requires Expired(RegistryAfter(handlers, reg, events[..i]), handlers[events[i].view].timeoutSeconds, events[i].at)
    ensures FiresAt(handlers, reg, events, i)
  {
    var h := handlers[events[i].view];
    var r := H.OnInactivityTimeout(h, RegistryAfter(handlers, reg, events[..i]), events[i].at);
    assert r.value.effects[0].FireTimeout?;
  }

  /** The shared timestamp only moves forward along a run in time order
      (it is never rolled back). */
  lemma {:induction false} RegistryIsMonotone(handlers: seq<H.Handler>, reg: Registry, events: seq<SessionEvent>, k: nat)
    requires ValidTrace(handlers, events) && Chronological(events)
    requires reg.Registered? ==> forall i :: 0 <= i < |events| ==> reg.lastActionMs <= events[i].at
    requires k <= |events|
    requires RegistryAfter(handlers, reg, events[..k]).Registered?
    ensures RegistryAfter(handlers, reg, events).Registered?
    ensures RegistryAfter(handlers, reg, events[..k]).lastActionMs <= RegistryAfter(handlers, reg, events).lastActionMs
    decreases |events|
  {
    if k == |events| {
      assert events[..k] == events;
    } else {
      var last := |events| - 1;
      var prefix := events[..last];
      assert ValidTrace(handlers, prefix);
      assert prefix[..k] == events[..k];
      RegistryIsMonotone(handlers, reg, prefix, k);
      RegistryNotAfter(handlers, reg, prefix, events[last].at);
    }
  }

  /** Every timestamp the registry holds after a run is no later than a
      time bounding the run and the initial registry. */
  lemma {:induction false} RegistryNotAfter(handlers: seq<H.Handler>, reg: Registry, events: seq<SessionEvent>, bound: int)
    requires ValidTrace(handlers, events)
    requires forall i :: 0 <= i < |events| ==> events[i].at <= bound
    requires reg.Registered? ==> reg.lastActionMs <= bound
    ensures RegistryAfter(handlers, reg, events).Registered? ==> RegistryAfter(handlers, reg, events).lastActionMs <= bound
    decreases |events|
  {
    if |events| > 0 {
      var prefix := events[..|events| - 1];
      assert ValidTrace(handlers, prefix);
      RegistryNotAfter(handlers, reg, prefix, bound);
    }
  }

  /** A worked run, first half: two views started together with a 10 s
      timeout each arm their client timer for 10 s, and an action in view
      0 at 4 s re-arms view 0 and moves the shared timestamp to 4 s. */
  lemma TwoViewScenarioStart(listeners: set<nat>)
    ensures var a := H.Start(H.Create(), Unregistered, 10, 0);
            var b := H.Start(H.Create().(timeoutListeners := listeners), a.registry, 10, 0);
            && a.effects[2..] == [Schedule(10)]
            && b.effects[2..] == [Schedule(10)]
            && b.state == H.Handler(10, true, listeners)
            && H.OnUserAction(a.state, b.registry, 4000) == Step(a.state, Registered(4000), [Schedule(10)])
  {
  }

  /** Second half: view 1's timer, armed at the start, elapses at 10 s: it
      re-arms for 4 s and fires nothing. When that timer elapses at 14 s
      the timeout fires, once, with view 1's listeners. */
  lemma TwoViewScenarioExpiry(listeners: set<nat>)
    ensures var b := H.Handler(10, true, listeners);
            && H.OnInactivityTimeout(b, Registered(4000), 10000)
               == Success(Step(b, Registered(4000), [Schedule(4)]))
            && H.OnInactivityTimeout(b, Registered(4000), 14000)
               == Success(Step(b, Registered(4000), [FireTimeout(listeners)]))
  {
  }

  /** The rounding boundary: 10.49 s after the last action with a 10 s
      timeout, 0 seconds are left and the expiry fires. */
  lemma FiresAtZeroRemaining(h: H.Handler, lastActionMs: int)
    requires h.timeoutSeconds == 10
    ensures RemainingSeconds(Registered(lastActionMs), 10, lastActionMs + 10490) == 0
    ensures H.OnInactivityTimeout(h, Registered(lastActionMs), lastActionMs + 10490)
            == Success(Step(h, Registered(lastActionMs), [FireTimeout(h.timeoutListeners)]))
  {
  }
}
