/** The `for` loops that fire an event to every listener held in a
    `HashSet`: each listener is called exactly once, in an order the set
    chooses. */
module Notify {

  /** Calls every listener of `listeners` once; `order` is the sequence of
      calls made. */
  method NotifyAll<L>(listeners: set<L>) returns (order: seq<L>)
    ensures forall l :: l in listeners <==> l in order
    ensures forall i, j :: 0 <= i < j < |order| ==> order[i] != order[j]
  {
    order := [];
    var pending := listeners;
    while pending != {}
      invariant pending <= listeners
      invariant forall l :: l in listeners <==> l in order || l in pending
      invariant forall l :: l in order ==> l !in pending
      invariant forall i, j :: 0 <= i < j < |order| ==> order[i] != order[j]
      decreases pending
    {
      var l :| l in pending;
      order := order + [l];
      pending := pending - {l};
    }
  }
}
