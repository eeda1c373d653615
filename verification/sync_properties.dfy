/**
 * Properties of single transitions and of the interleavings the push handler
 * allows: the splice, full and partial syncs, display by index, containment of
 * a rejected fetch, and the stale cursor of a push that overlaps a local error.
 */
module SyncProperties {
  import opened Messages
  import opened MessageLog

  /** The splice at an index at or beyond the end is a plain append. */
  lemma SpliceAtEndAppends(log: seq<Message>, messages: seq<Message>, index: nat)
    requires index >= |log|
    ensures AddToList(log, messages, index) == log + messages
  {
  }

  /** The splice at index 0 replaces the whole list, whatever it held. */
  lemma SpliceAtZeroReplaces(log: seq<Message>, messages: seq<Message>)
    ensures AddToList(log, messages, 0) == messages
  {
  }

  /**
   * Repeating the same splice at an index inside the list changes nothing: a
   * sync delivered twice is harmless. (Past the end it is not: the second
   * splice cuts the grown list at the same index and appends again.)
   */
  lemma SpliceIdempotent(log: seq<Message>, messages: seq<Message>, index: nat)
    requires index <= |log|
    ensures AddToList(AddToList(log, messages, index), messages, index) == AddToList(log, messages, index)
  {
    var once := AddToList(log, messages, index);
    assert Min(index, |once|) == Min(index, |log|);
  }

  /**
   * A sync that starts at index 0 (a full-sync push or the startup sync) leaves
   * exactly the fetched list, whatever the log held before. Only a display index
   * outside the fetched list adds the failure of `open` after it.
   */
  lemma FullSyncReplaces(s: Service, push: Push, messages: seq<Message>, fault: ErrorValue)
    requires push.fullSync
    ensures var r := CompletePush(s, BeginPush(s, push), Resolved(messages), fault).service;
      && (push.displayIndex.None? || InRange(messages, push.displayIndex.value) || !CanOpen(s) ==>
            r.log == messages)
      && (push.displayIndex.Some? && !InRange(messages, push.displayIndex.value) && CanOpen(s) ==>
            r.log == messages + [ErrorEntry(fault)])
  {
    SpliceAtZeroReplaces(s.log, messages);
  }

  /** The startup sync is a full sync without a display index. */
  lemma StartupIsFullSync(s: Service, fetch: Fetch, fault: ErrorValue)
    ensures Startup(s, fetch) == CompletePush(s, BeginPush(s, Push(None, true)), fetch, fault).service
  {
  }

  /**
   * A partial-sync push that completes against the log it began with appends
   * the fetched entries after the old ones and leaves every old position as it was.
   */
  lemma PartialSyncAppends(s: Service, push: Push, messages: seq<Message>, fault: ErrorValue)
    requires !push.fullSync
    requires push.displayIndex.None? || InRange(s.log + messages, push.displayIndex.value)
    ensures var r := CompletePush(s, BeginPush(s, push), Resolved(messages), fault).service;
      && r.log == s.log + messages
      && |r.log| == |s.log| + |messages|
      && (forall k :: 0 <= k < |s.log| ==> r.log[k] == s.log[k])
      && r.outbox == s.outbox
  {
    SpliceAtEndAppends(s.log, messages, |s.log|);
  }

  /**
   * After a resolved sync, `open` is called exactly once when a display index is
   * given and not at all otherwise. It gets the entry at that index of the
   * spliced log, or `undefined` when the index lies outside it; in that case the
   * log gains one error entry exactly when the guard passes (the call throws).
   */
  lemma DisplayByIndex(s: Service, p: Pending, messages: seq<Message>, fault: ErrorValue)
    ensures var spliced := AddToList(s.log, messages, p.index);
      var r := CompletePush(s, p, Resolved(messages), fault);
      && (p.displayIndex.None? ==> r.openCall.None? && r.service.log == spliced)
      && (p.displayIndex.Some? && InRange(spliced, p.displayIndex.value) ==>
            && r.service.log == spliced
            && r.openCall == Some(OpenCall(Some(r.service.log[p.displayIndex.value]),
                                           Open(r.service, Some(r.service.log[p.displayIndex.value])))))
      && (p.displayIndex.Some? && !InRange(spliced, p.displayIndex.value) ==>
            && r.openCall == Some(OpenCall(None, Open(s, None)))
            && |r.service.log| == |spliced| + (if CanOpen(s) then 1 else 0))
  {
  }

  /**
   * A rejected fetch never reaches the splice: the only change is the one error
   * entry and the one notification recorded through `errorHandler`.
   */
  lemma RejectionContained(s: Service, p: Pending, reason: ErrorValue, fault: ErrorValue)
    ensures var r := CompletePush(s, p, Rejected(reason), fault);
      && |r.service.log| == |s.log| + 1
      && r.service.log[..|s.log|] == s.log
      && r.service.log[|s.log|] == RecordError(s, reason).data
      && |r.service.outbox| == |s.outbox| + 1
      && r.openCall.None?
  {
  }

  /**
   * The index of a partial-sync push is captured when the push arrives, but the
   * splice cuts the log as it is when the fetch completes. A local error recorded
   * in between sits at the captured index, so the splice discards it from the
   * log, although its notification to the backend was sent.
   */
  lemma StaleCursorDiscardsError(s: Service, e: ErrorValue, messages: seq<Message>, fault: ErrorValue)
    ensures var p := BeginPush(s, Push(None, false));
      var recorded := RecordError(s, e).service;
      var r := CompletePush(recorded, p, Resolved(messages), fault).service;
      && r.log == s.log + messages
      && r.outbox == s.outbox + [SyncNotification(ErrorEntry(e))]
  {
    var p := BeginPush(s, Push(None, false));
    var recorded := RecordError(s, e).service;
    SpliceAtEndAppends(s.log, messages, |s.log|);
    assert recorded.log[..|s.log|] == s.log;
  }

  /** With nothing new fetched, the overlapping error leaves no trace in the log at all. */
  lemma StaleCursorLosesEntry(s: Service, e: ErrorValue, fault: ErrorValue)
    ensures var recorded := RecordError(s, e).service;
      var r := CompletePush(recorded, BeginPush(s, Push(None, false)), Resolved([]), fault).service;
      && |recorded.log| == |s.log| + 1
      && |r.log| == |s.log|
      && |r.outbox| == |s.outbox| + 1
  {
    StaleCursorDiscardsError(s, e, [], fault);
  }
}
