/**
 * The message-log service as a pure state machine. The observable list is the
 * `log` field, the notifications sent to the backend are collected in `outbox`,
 * and `lastOverlay` is the overlay slot the display guard consults. Results of
 * backend requests are parameters of the transitions that consume them.
 */
module MessageLog {
  import opened Messages

  /** A displayed message: the attached component, the message it shows, and whether it is still open. */
  datatype OverlayRef = OverlayRef(component: Component, message: Message, isOpen: bool)

  /** A fire-and-forget notification sent to the backend. */
  datatype Notification = Notification(verb: string, topic: string, payload: Message)

  /** The service's state. */
  datatype Service = Service(log: seq<Message>, outbox: seq<Notification>, lastOverlay: Option<OverlayRef>)

  /** The state right after construction, before the startup sync completes. */
  const Initial: Service := Service([], [], None)

  /** The notification that tells the backend about a locally recorded message. */
  function SyncNotification(m: Message): Notification
  {
    Notification("POST", "sync-messages", m)
  }

  function Min(a: nat, b: nat): nat
  {
    if a <= b then a else b
  }

  /**
   * Cut-and-replace splice: keep the entries before `index` and put `messages`
   * after them. Like JavaScript's `slice`, an index past the end keeps the whole list.
   */
  function AddToList(log: seq<Message>, messages: seq<Message>, index: nat): (r: seq<Message>)
    ensures |r| == Min(index, |log|) + |messages|
    ensures forall k :: 0 <= k < Min(index, |log|) ==> r[k] == log[k]
    ensures forall k :: 0 <= k < |messages| ==> r[Min(index, |log|) + k] == messages[k]
  {
    log[..Min(index, |log|)] + messages
  }

  /** The outcome of `error`: the new state and the entry it returned. */
  datatype Recorded = Recorded(service: Service, data: Message)

  /**
   * `error(e)` and `errorHandler`: append an error entry at the end of the log,
   * notify the backend with that same entry, and return it.
   */
  function RecordError(s: Service, e: ErrorValue): (r: Recorded)
    ensures |r.service.log| == |s.log| + 1
    ensures forall k :: 0 <= k < |s.log| ==> r.service.log[k] == s.log[k]
    ensures r.service.log[|s.log|] == r.data
    ensures r.data.Error? && TypeTag(r.data) == "error"
    ensures r.data.name == e.name && r.data.message == e.message && r.data.stack == e.stack
    ensures r.service.outbox == s.outbox + [SyncNotification(r.data)]
    ensures r.service.lastOverlay == s.lastOverlay
  {
    var data := ErrorEntry(e);
    Recorded(s.(log := AddToList(s.log, [data], |s.log|), outbox := s.outbox + [SyncNotification(data)]), data)
  }

  /** The guard of `open`: no overlay was recorded, or the recorded one reports itself closed. */
  predicate CanOpen(s: Service)
  {
    s.lastOverlay.None? || !s.lastOverlay.value.isOpen
  }

  /** What a call of `open` ends in: a new overlay, `null`, or a thrown failure. */
  datatype OpenOutcome = Opened(overlay: OverlayRef) | Refused | Threw

  /**
   * `open(message)`. The argument is `None` when the caller passes `undefined`
   * (an entry read outside the list). When the guard refuses, `open` returns
   * `null` without looking at its argument. When it passes, a message gets a new
   * open overlay hosting the component for its kind, while `undefined` makes the
   * injector's read of `.data` throw. The state is not an output: `open` never
   * writes `lastOverlay`.
   */
  function Open(s: Service, arg: Option<Message>): (r: OpenOutcome)
    ensures r.Refused? <==> s.lastOverlay.Some? && s.lastOverlay.value.isOpen
    ensures r.Threw? <==> CanOpen(s) && arg.None?
    ensures r.Opened? ==> arg.Some? && r.overlay.message == arg.value && r.overlay.isOpen
    ensures r.Opened? ==> (r.overlay.component == ErrorView <==> arg.value.Error?)
    ensures r.Opened? ==> (r.overlay.component == InfoView <==> arg.value.Info?)
  {
    if !CanOpen(s) then Refused
    else match arg
      case Some(m) => Opened(OverlayRef(AttachComponent(m), m, true))
      case None => Threw
  }

  /** The payload of a backend push. */
  datatype Push = Push(displayIndex: Option<int>, fullSync: bool)

  /** A sync in flight: the index captured when it began, and the index to display afterwards. */
  datatype Pending = Pending(index: nat, displayIndex: Option<int>)

  /** The outcome of the `GET messages` request. */
  datatype Fetch = Resolved(messages: seq<Message>) | Rejected(reason: ErrorValue)

  /** A call of `open`: its argument (`None` for `undefined`) and its outcome. */
  datatype OpenCall = OpenCall(arg: Option<Message>, result: OpenOutcome)

  /** The new state after a sync completes, and the `open` call it made, if any. */
  datatype Completion = Completion(service: Service, openCall: Option<OpenCall>)

  /** The first half of the push handler: capture the index the fetch starts from. */
  function BeginPush(s: Service, push: Push): (p: Pending)
    ensures push.fullSync ==> p.index == 0
    ensures !push.fullSync ==> p.index == |s.log|
    ensures p.displayIndex == push.displayIndex
  {
    Pending(if push.fullSync then 0 else |s.log|, push.displayIndex)
  }

  /** Whether `d` is a position of `log`; `log[d]` is `undefined` otherwise. */
  predicate InRange(log: seq<Message>, d: int)
  {
    0 <= d < |log|
  }

  /** The JavaScript read `log[d]`: the entry, or `undefined` outside the list. */
  function EntryAt(log: seq<Message>, d: int): (r: Option<Message>)
    ensures r.Some? <==> InRange(log, d)
    ensures r.Some? ==> r.value == log[d]
  {
    if InRange(log, d) then Some(log[d]) else None
  }

  /**
   * The second half of the push handler, run against the state at completion
   * time. A rejected fetch goes to `errorHandler`. A resolved one is spliced in
   * at the captured index; then, when a display index is given, `open` is called
   * once with the entry at that index of the new log, `undefined` if there is
   * none. When that call throws, the failure (`fault`) reaches `errorHandler`
   * through the same rejection path.
   */
  function CompletePush(s: Service, p: Pending, fetch: Fetch, fault: ErrorValue): (r: Completion)
    ensures r.service.lastOverlay == s.lastOverlay
    ensures fetch.Rejected? ==>
      && r.service.log == s.log + [ErrorEntry(fetch.reason)]
      && r.service.outbox == s.outbox + [SyncNotification(ErrorEntry(fetch.reason))]
      && r.openCall.None?
    ensures fetch.Resolved? ==>
      var spliced := AddToList(s.log, fetch.messages, p.index);
      && (r.openCall.Some? <==> p.displayIndex.Some?)
      && (r.openCall.Some? ==>
            && r.openCall.value.arg == EntryAt(spliced, p.displayIndex.value)
            && r.openCall.value.result == Open(s, r.openCall.value.arg))
      && (if r.openCall.Some? && r.openCall.value.result.Threw?
          then r.service.log == spliced + [ErrorEntry(fault)]
            && r.service.outbox == s.outbox + [SyncNotification(ErrorEntry(fault))]
          else r.service.log == spliced && r.service.outbox == s.outbox)
  {
    match fetch
    case Rejected(reason) =>
      Completion(RecordError(s, reason).service, None)
    case Resolved(messages) =>
      var s1 := s.(log := AddToList(s.log, messages, p.index));
      match p.displayIndex
      case None => Completion(s1, None)
      case Some(d) =>
        var arg := EntryAt(s1.log, d);
        var result := Open(s1, arg);
        var after := if result.Threw? then RecordError(s1, fault).service else s1;
        Completion(after, Some(OpenCall(arg, result)))
  }

  /** The sync issued by the constructor: fetch from index 0 and splice there, never displaying. */
  function Startup(s: Service, fetch: Fetch): (r: Service)
    ensures fetch.Resolved? ==> r.log == fetch.messages && r.outbox == s.outbox
    ensures fetch.Rejected? ==>
      && r.log == s.log + [ErrorEntry(fetch.reason)]
      && r.outbox == s.outbox + [SyncNotification(ErrorEntry(fetch.reason))]
    ensures r.lastOverlay == s.lastOverlay
  {
    match fetch
    case Rejected(reason) => RecordError(s, reason).service
    case Resolved(messages) => s.(log := AddToList(s.log, messages, 0))
  }
}
