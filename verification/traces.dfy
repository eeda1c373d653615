/**
 * Runs of the service over arbitrary sequences of events, and the invariants
 * every run keeps. A sync completion carries the pending sync it finishes, so
 * any interleaving of pushes, fetch completions and local errors is a trace.
 */
module Traces {
  import opened Messages
  import opened MessageLog

  /** One thing that happens to the service. */
  datatype Event =
    | LocalError(e: ErrorValue)                          // `error(e)`, also the receiver's error hook
    | Boot(fetch: Fetch)                                 // completion of the constructor's sync
    | Sync(p: Pending, fetch: Fetch, fault: ErrorValue)  // completion of a push-driven sync
    | Show(m: Message)                                   // a caller invokes `open(m)`

  /** The state after one event, and the `open` calls it made. */
  datatype Outcome = Outcome(service: Service, opens: seq<OpenCall>)

  function Step(s: Service, ev: Event): Outcome
  {
    match ev
    case LocalError(e) => Outcome(RecordError(s, e).service, [])
    case Boot(fetch) => Outcome(Startup(s, fetch), [])
    case Sync(p, fetch, fault) =>
      var c := CompletePush(s, p, fetch, fault);
      Outcome(c.service, if c.openCall.Some? then [c.openCall.value] else [])
    case Show(m) => Outcome(s, [OpenCall(Some(m), Open(s, Some(m)))])
  }

  /** The state after a whole trace, and every `open` call made on the way, in order. */
  function Run(s: Service, evs: seq<Event>): Outcome
    decreases |evs|
  {
    if |evs| == 0 then Outcome(s, [])
    else
      var first := Step(s, evs[0]);
      var rest := Run(first.service, evs[1..]);
      Outcome(rest.service, first.opens + rest.opens)
  }

  /** The index an event cuts the log at: entries before it survive the event. */
  function Cut(s: Service, ev: Event): nat
  {
    match ev
    case LocalError(_) => |s.log|
    case Boot(fetch) => if fetch.Resolved? then 0 else |s.log|
    case Sync(p, fetch, _) => if fetch.Resolved? then Min(p.index, |s.log|) else |s.log|
    case Show(_) => |s.log|
  }

  /** Every event of the trace, in the state it meets, cuts at or after `k`. */
  ghost predicate CutsAtOrAfter(s: Service, evs: seq<Event>, k: nat)
    decreases |evs|
  {
    |evs| == 0 ||
    (k <= Cut(s, evs[0]) && CutsAtOrAfter(Step(s, evs[0]).service, evs[1..], k))
  }

  /** The sync notification of an error entry. */
  predicate ErrorNotification(n: Notification)
  {
    n == SyncNotification(n.payload) && n.payload.Error?
  }

  /** No event writes the overlay slot. */
  lemma StepKeepsOverlaySlot(s: Service, ev: Event)
    ensures Step(s, ev).service.lastOverlay == s.lastOverlay
  {
  }

  /** No run writes the overlay slot: it keeps the value it started with. */
  lemma {:induction false} RunKeepsOverlaySlot(s: Service, evs: seq<Event>)
    ensures Run(s, evs).service.lastOverlay == s.lastOverlay
    decreases |evs|
  {
    if |evs| > 0 {
      StepKeepsOverlaySlot(s, evs[0]);
      RunKeepsOverlaySlot(Step(s, evs[0]).service, evs[1..]);
    }
  }

  /** A call of `open` that passed the guard: a message got an overlay, `undefined` threw. */
  predicate PassedGuard(c: OpenCall)
  {
    !c.result.Refused? && (c.result.Opened? <==> c.arg.Some?)
  }

  /**
   * From the initial state (slot empty) no `open` call of any run returns `null`,
   * whether made by a completing sync or by a caller: each call with a message
   * gets an overlay, each call with `undefined` throws. A later call with a
   * message gets an overlay too.
   */
  lemma {:induction false} OpenNeverRefused(evs: seq<Event>, m: Message)
    ensures forall k :: 0 <= k < |Run(Initial, evs).opens| ==> PassedGuard(Run(Initial, evs).opens[k])
    ensures Open(Run(Initial, evs).service, Some(m)).Opened?
  {
    RunKeepsOverlaySlot(Initial, evs);
    RunOpensSucceed(Initial, evs);
  }

  /** Every `open` call in a run from a state whose guard passes gets past the guard. */
  lemma {:induction false} RunOpensSucceed(s: Service, evs: seq<Event>)
    requires CanOpen(s)
    ensures forall k :: 0 <= k < |Run(s, evs).opens| ==> PassedGuard(Run(s, evs).opens[k])
    decreases |evs|
  {
    if |evs| > 0 {
      var first := Step(s, evs[0]);
      StepKeepsOverlaySlot(s, evs[0]);
      RunOpensSucceed(first.service, evs[1..]);
      var rest := Run(first.service, evs[1..]);
      assert Run(s, evs).opens == first.opens + rest.opens;
      assert forall k :: 0 <= k < |first.opens| ==> PassedGuard(first.opens[k]);
    }
  }

  /**
   * The outbox only grows: what was sent stays, and everything a run adds is a
   * POST "sync-messages" notification carrying an error entry.
   */
  lemma {:induction false} RunOnlyNotifiesErrors(s: Service, evs: seq<Event>)
    ensures |s.outbox| <= |Run(s, evs).service.outbox|
    ensures Run(s, evs).service.outbox[..|s.outbox|] == s.outbox
    ensures forall k :: |s.outbox| <= k < |Run(s, evs).service.outbox| ==>
              ErrorNotification(Run(s, evs).service.outbox[k])
    decreases |evs|
  {
    if |evs| > 0 {
      var mid := Step(s, evs[0]).service;
      assert |s.outbox| <= |mid.outbox| && mid.outbox[..|s.outbox|] == s.outbox;
      assert forall k :: |s.outbox| <= k < |mid.outbox| ==> ErrorNotification(mid.outbox[k]);
      RunOnlyNotifiesErrors(mid, evs[1..]);
      var out := Run(s, evs).service.outbox;
      assert out[..|mid.outbox|] == mid.outbox;
      forall k | |s.outbox| <= k < |out|
        ensures ErrorNotification(out[k])
      {
        if k < |mid.outbox| {
          assert out[k] == mid.outbox[k];
        }
      }
    }
  }

  /** One event keeps every entry before its cut. */
  lemma StepKeepsPrefix(s: Service, ev: Event, k: nat)
    requires k <= Cut(s, ev)
    ensures k <= |Step(s, ev).service.log|
    ensures Step(s, ev).service.log[..k] == s.log[..k]
  {
    var r := Step(s, ev).service;
    assert forall j :: 0 <= j < k ==> r.log[j] == s.log[j];
  }

  /**
   * Ordering: the entries before the lowest cut of a run are never mutated or
   * reordered, however the run interleaves syncs and local errors.
   */
  lemma {:induction false} RunKeepsPrefix(s: Service, evs: seq<Event>, k: nat)
    requires k <= |s.log|
    requires CutsAtOrAfter(s, evs, k)
    ensures k <= |Run(s, evs).service.log|
    ensures Run(s, evs).service.log[..k] == s.log[..k]
    decreases |evs|
  {
    if |evs| > 0 {
      StepKeepsPrefix(s, evs[0], k);
      RunKeepsPrefix(Step(s, evs[0]).service, evs[1..], k);
    }
  }
}
