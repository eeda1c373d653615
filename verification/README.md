# Message log service — a Dafny model

This project models the message-log state machine of `MessageLogService`
(`src/frontend/app/message-log/message-log.service.ts`), which runs in the
desktop application's front end. The service keeps an ordered list of messages.
Each message is an error entry (`name`, `message`, optional `stack`) or an
informational entry with an opaque payload. The service keeps this list in step
with the backend's copy through an index-based `GET messages` request. It
records local failures as error entries and reports each one to the backend with
a `POST sync-messages` notification. It can also open an overlay that shows one
message.

The model is functional. The service state is a record `Service(log, outbox,
lastOverlay)`:

- `log` is the value of the `BehaviorSubject`.
- `outbox` collects the notifications sent to the backend, in order.
- `lastOverlay` is the slot the display guard reads.

Every transition is a pure function. Backend results are parameters of these
functions: a `Fetch` that is `Resolved(messages)` or `Rejected(reason)`.

- `messages.dfy` (module `Messages`): the closed `Message` union, its `type`
  tag, and the tag-to-component switch of `attachComponent`.
- `message_log.dfy` (module `MessageLog`): the state and the transitions. These
  are the splice `addToList`, `error`/`errorHandler`, `open`, and the two halves
  of the push handler: `BeginPush` captures the index and `CompletePush` runs
  when the fetch settles. The constructor's startup sync is `Startup`.
- `sync_properties.dfy` (module `SyncProperties`): properties of one transition
  and of overlapping ones. These cover the full sync, the partial sync, display
  by index, containment of a rejected fetch, and the stale cursor.
- `traces.dfy` (module `Traces`): runs over arbitrary event sequences, with
  invariants proved by induction.

What the code does at the points where its behaviour is easy to misread:

- **Overlay slot.** `lastOverlay` is set to `null` at line 32 and never assigned
  again. The guard at line 83 therefore always passes, and `open` never returns
  `null`. The model keeps the guard and the slot, but no transition writes the
  slot (`Traces.RunKeepsOverlaySlot`, `Traces.OpenNeverRefused`). No
  at-most-one-overlay invariant holds.
- **Rejected fetch.** The rejection reaches `errorHandler`, so the log grows by
  exactly one error entry (`SyncProperties.RejectionContained`).
- **Stale cursor.** A partial-sync push captures `list.value.length` when it
  arrives (line 40), but it slices the list as it is when the fetch completes
  (line 127). If an `error` is recorded in between, its entry sits at the
  captured index and the splice drops it from the local list. Its notification
  has already been sent (`SyncProperties.StaleCursorDiscardsError`). The model
  shows this behaviour and does not fix it.
- **Display index outside the list.** `list.value[displayIndex]` is
  `undefined`, and `open` is called with it. The guard passes, and `open` then
  throws reading `.data` of `undefined` while it builds the injector (line 140).
  The failure is thrown inside the `.then` callback, so `.catch(errorHandler)`
  records it as one more error entry. The model records this call with the
  argument `None` and the outcome `Threw`, and takes the failure's fields as an
  opaque `fault` parameter.

## Model

| member | source | states |
|---|---|---|
| `Messages.AttachComponent` | src/frontend/app/message-log/message-log.service.ts:151-162 | The switch on the `type` string picks the error view exactly for error entries and the info view exactly for info entries. The throwing default cannot be reached for any message of the closed union. |
| `MessageLog.AddToList` | src/frontend/app/message-log/message-log.service.ts:125-129 | The new list has length `min(index, old length) + new count`. Every entry before the clamped cut is unchanged, and the fetched entries follow it in order. |
| `MessageLog.RecordError` | src/frontend/app/message-log/message-log.service.ts:68-76 | `error(e)` grows the log by exactly one entry and leaves all earlier entries unchanged. The last entry is the returned value: an "error" entry with `e`'s name, message and stack. Exactly one `POST sync-messages` notification carrying that same value is added to the outbox. The overlay slot is untouched. |
| `MessageLog.Open` | src/frontend/app/message-log/message-log.service.ts:82-103 | `open` returns null exactly when the slot holds an overlay that is still open, without looking at its argument. Otherwise a message gets a new open overlay that shows it, with the component for its kind, and `undefined` throws. It does not write the slot. |
| `MessageLog.BeginPush` | src/frontend/app/message-log/message-log.service.ts:38-40 | The captured index is 0 for a full sync and the current log length for a partial sync. The display index is carried over unchanged. |
| `MessageLog.CompletePush` | src/frontend/app/message-log/message-log.service.ts:42-48 | A rejection adds exactly one error entry and one notification, and makes no `open` call. A resolution splices at the captured index. `open` is called exactly when a display index is given, with the entry at that index of the spliced list, or `undefined` when there is none. The log gains one error entry and one notification exactly when that call throws. The slot is never written. |
| `MessageLog.Startup` | src/frontend/app/message-log/message-log.service.ts:51-53 | On success the startup sync leaves the log equal to the fetched list, whatever the log held before, and notifies nothing. A rejection appends one error entry and sends one notification. |
| `SyncProperties.SpliceAtEndAppends` | src/frontend/app/message-log/message-log.service.ts:125-129 | A splice at or beyond the end of the list is a plain append, because `slice` clamps. |
| `SyncProperties.SpliceAtZeroReplaces` | src/frontend/app/message-log/message-log.service.ts:125-129 | A splice at index 0 makes the list exactly the fetched entries. |
| `SyncProperties.SpliceIdempotent` | src/frontend/app/message-log/message-log.service.ts:125-129 | Repeating a splice at an index inside the list gives the same list as doing it once. |
| `SyncProperties.FullSyncReplaces` | src/frontend/app/message-log/message-log.service.ts:38-46 | After a full-sync push resolves, the log equals the fetched list, whatever it held before. The only exception is a display index outside that list while the guard passes: then one error entry follows the fetched list. |
| `SyncProperties.StartupIsFullSync` | src/frontend/app/message-log/message-log.service.ts:40-53 | The startup sync has the same effect as a full-sync push without a display index, for both fetch outcomes. |
| `SyncProperties.PartialSyncAppends` | src/frontend/app/message-log/message-log.service.ts:40-43 | Suppose a partial-sync push completes against the log it began with, and its display index (if any) lies inside the result. Then the result is the old log followed by the fetched entries. Old positions are untouched, and nothing is notified. |
| `SyncProperties.DisplayByIndex` | src/frontend/app/message-log/message-log.service.ts:42-47 | After a resolved sync with a display index, `open` is called exactly once. It gets the entry at that index of the updated log when the index lies inside it, and `undefined` otherwise. Without a display index `open` is not called. For `undefined`, the log gains one error entry exactly when the guard passes. |
| `SyncProperties.RejectionContained` | src/frontend/app/message-log/message-log.service.ts:42-48 | A rejected fetch never reaches the splice. The log grows by exactly one error entry, which is the value `errorHandler`/`error` returns. The outbox grows by one, and `open` is not called. |
| `SyncProperties.StaleCursorDiscardsError` | src/frontend/app/message-log/message-log.service.ts:40-43 | An error recorded between a partial-sync push and its completion is cut away by the splice: the log becomes the pre-push log followed by the fetched entries. The error's notification stays in the outbox. |
| `SyncProperties.StaleCursorLosesEntry` | src/frontend/app/message-log/message-log.service.ts:40-43 | If such a push fetches nothing, the log returns to its pre-push length. The error entry is gone from the log but was still notified. |
| `Traces.StepKeepsOverlaySlot` | src/frontend/app/message-log/message-log.service.ts:32 | No single event writes the overlay slot. |
| `Traces.RunKeepsOverlaySlot` | src/frontend/app/message-log/message-log.service.ts:32 | Over any sequence of local errors, sync completions and `open` calls, the overlay slot keeps its initial value. |
| `Traces.RunOpensSucceed` | src/frontend/app/message-log/message-log.service.ts:83-99 | If the guard passes at the start of a run, no `open` call in the run returns null. Each call with a message returns an overlay, and each call with `undefined` throws. |
| `Traces.OpenNeverRefused` | src/frontend/app/message-log/message-log.service.ts:32-103 | From the initial state, no `open` call of any run returns null. Each call with a message returns an overlay, and each call with `undefined` throws. A later call with a message in the reached state also returns an overlay. |
| `Traces.RunOnlyNotifiesErrors` | src/frontend/app/message-log/message-log.service.ts:73-74 | The outbox only grows: what was sent stays. Everything a run adds is a `POST sync-messages` notification carrying an error entry. |
| `Traces.StepKeepsPrefix` | src/frontend/app/message-log/message-log.service.ts:127 | One event keeps every entry before the index it cuts at. |
| `Traces.RunKeepsPrefix` | src/frontend/app/message-log/message-log.service.ts:125-129 | Ordering: take any run in which no event cuts below `k`. After the run, the first `k` entries are exactly what they were before it. |

## Left out

- IPC transport is left out: `ipc.sender.request`, `ipc.sender.notify`, `receiver.clone`, `onError.add` and `removeDataHandler` in `ngOnDestroy`. Request results are `Fetch` parameters. Notifications are appended to `outbox`. Errors reported by the receiver hook enter as `LocalError` events. `ngOnDestroy` only detaches the push handler. After it, no new push begins, but fetches already in flight still complete, as later `Sync` or `Boot` events.
- `errorHandler` (lines 108-110) only forwards to `error`. It has no separate member: every rejection path calls `RecordError`.
- Angular overlay machinery is left out: `overlay.create`, position and scroll strategies, `createInjector`, `ComponentPortal`, and the backdrop-click subscription. `open` returns only an `OverlayRef` value with the attached component kind and the message. Whether an overlay is still open is the `isOpen` field, as reported by the rendering layer.
- `NgZone.run` is treated as the identity, and `BehaviorSubject` emission as assignment to `log`. Subscribers are not modelled.
- Asynchrony is modelled only as separate begin and complete steps. An interleaving is an explicit trace of events, with no scheduler.
- `displayIndex` is modelled as an integer. A non-integer JavaScript number (fractional, `NaN`) would read `undefined` the same way an out-of-range integer does.
- Stack traces and info payloads are opaque strings. The failure `open` raises for an `undefined` message is an opaque `fault` value.
