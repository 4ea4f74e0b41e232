# File receiver: drag-nesting counter and drop decoration

A model of the event handlers of the `Receiver` component of react-file-uploader.
This is a browser widget that listens to window drag events and to a hidden file
input, and forwards them to four caller callbacks: `onDragEnter`, `onDragLeave`,
`onDragOver` and `onFileDrop`.

The modelled logic has two parts:

- **The drag-nesting counter.** `dragLevel` is one integer that starts at 0. A
  `dragenter` adds one and forwards to `onDragEnter` only while the zone is closed.
  A `dragleave` subtracts one and forwards to `onDragLeave` only when the new
  value is exactly 0. A `drop` resets the counter to 0. A `dragover` leaves the
  counter alone and always forwards to `onDragOver`.
- **Drop decoration.** The drop handler takes its file list from the event's
  drag payload (`dataTransfer`) if there is one, otherwise from the event
  target, and otherwise uses an empty list. It tags each file, in order, with a
  freshly generated id, status `PENDING`, progress 0 and a null `src`. It then
  calls `onFileDrop` once with the event and the tagged list. The hidden file
  input's change event goes through the same handler, with a target but no drag
  payload.

Modules:

- `Wrappers` (`wrappers.dfy`): `Option`, for JavaScript values that may be missing.
- `FileRecords` (`files.dfy`): file objects, their tags, the id generator, and `Decorate`.
- `Selection` (`selection.dfy`): drop and change events, and `SelectFiles`.
- `Receiver` (`receiver.dfy`): the counter state, events, callbacks, the
  one-event `Step`, the many-event `Run`, and the properties that hold over whole runs.

The id generator (`shortid.generate()` in the source) is modelled as `IdGen`.
It is an opaque stream of ids plus a count of how many have been drawn. Its
uniqueness is not assumed. The distinctness lemmas take it as a hypothesis
(`Injective`): no id repeats from the generator's current position on.

The nesting property is proved against an independent reference definition.
`Balance` counts drag-enters minus drag-leaves since the last drop.
`LevelIsBalance` shows that the counter always equals this balance.
`LeaveFiresExactlyAtBalanceZero` shows that `onDragLeave` fires at exactly the
drag-leaves that bring the balance back to 0.

Three behaviours of the code that a reader might not expect:

- The counter is never clamped (src/Receiver.js:53-56). A drag-leave at level 0
  gives level −1 and no `onDragLeave`. `Step` states this.
- `onDragOver` is called unconditionally (src/Receiver.js:65), although its prop
  type marks it optional (src/Receiver.js:133). The model always emits the call.
- `open()` calls `click()` on the input reference with no guard
  (src/Receiver.js:100), so it is not a no-op while the zone is closed.
  `open()` is left out; see below.

## Model

| member | source | states |
|---|---|---|
| `FileRecords.Decorate` | src/Receiver.js:85-91 | the tagged list is as long as the input and in the same order; the i-th record keeps the i-th file's handle and gets the i-th drawn id, status PENDING, progress 0 and a null src |
| `FileRecords.DecorateKeepsHandles` | src/Receiver.js:85-91 | stripping the tags from the decorated list gives back exactly the input handles, in order |
| `FileRecords.DecorateAppend` | src/Receiver.js:85-91 | decorating a concatenation equals decorating each part in turn, with the generator advanced past the first part's draws |
| `FileRecords.DecorateDependsOnlyOnHandles` | src/Receiver.js:86-89 | two file lists with the same handles decorate to the same records: any earlier tag fields are overwritten, not kept |
| `FileRecords.DecorateIdempotent` | src/Receiver.js:86-89 | re-decorating a decorated list with the same ids changes nothing |
| `FileRecords.DecoratedIdsDistinct` | src/Receiver.js:86 | if the generator never repeats, the records of one drop have pairwise distinct ids |
| `Selection.SelectFiles` | src/Receiver.js:75-83 | the drag payload's list is used whenever the payload exists, and the target's list only when it is absent; a missing list or a missing source gives the empty list |
| `Selection.SelectionComesFromOneSource` | src/Receiver.js:77-83 | a non-empty selection is exactly the file list of the one source consulted |
| `Selection.TransferShadowsTarget` | src/Receiver.js:77-83 | when a drag payload is present, the target has no influence on the selection |
| `Receiver.Step` | src/Receiver.js:43-96 | drag-enter raises the level by exactly 1 and calls onDragEnter iff the zone is closed; drag-leave lowers it by exactly 1, unclamped, and calls onDragLeave iff the new level is 0; drag-over keeps the level and calls onDragOver; drop resets the level to 0 and calls onFileDrop exactly once with the decorated selection; each event makes at most one call, and only to its own kind of callback; only a drop draws ids |
| `Receiver.Run` | src/Receiver.js:43-96 | the handlers applied to dispatched events one after another, in order: exactly one callback list per event |
| `Receiver.RunOutputAt` | src/Receiver.js:43-96 | the k-th event's callbacks in a run are what that event emits in the state the first k events leave behind |
| `Receiver.SinceLastDrop` | src/Receiver.js:93-94 | the position after the last drop: no drop occurs from there on, and the event just before it is a drop |
| `Receiver.BalanceSnoc` | src/Receiver.js:43-61 | a drop resets the nesting balance to 0; otherwise an enter adds 1, a leave subtracts 1 and a drag-over adds nothing |
| `Receiver.LevelIsBalance` | src/Receiver.js:19-21 | from the initial level 0, the counter after any run equals enters minus leaves since the last drop |
| `Receiver.LeaveFiresExactlyAtBalanceZero` | src/Receiver.js:53-61 | onDragLeave fires at event k iff event k is a drag-leave and the balance up to and including it is 0; it never fires on intermediate leaves |
| `Receiver.LeaveFiresWhenEntersMatched` | src/Receiver.js:58-60 | in a drop-free run from a fresh receiver, onDragLeave fires exactly when the leaves seen so far equal the enters seen so far |
| `Receiver.FileDropOncePerDrop` | src/Receiver.js:96 | an event's callbacks are a single onFileDrop call iff the event is a drop, including drops that find no files |
| `Receiver.RunDecoratesSelected` | src/Receiver.js:85-96 | over a whole run, the files handed to onFileDrop are exactly the selected files in order, tagged with consecutive generator draws, and the generator advances by one draw per file |
| `Receiver.RunIdsDistinct` | src/Receiver.js:86 | if the generator never repeats, no two files handed over in a run share an id, even across separate drops |

## Left out

- Listener registration and removal in `componentDidMount` and `componentWillUnmount` (src/Receiver.js:24-41). This is browser lifecycle plumbing. `Run` assumes the listeners are attached and delivers events in dispatch order.
- The `invariant` check that the browser supports drag events (src/Receiver.js:25-28). It is a host-capability assertion at mount time.
- `render` and the hidden file input (src/Receiver.js:103-118). This is UI. The input's change event is modelled as a `Drop` with no drag payload.
- `open()` (src/Receiver.js:99-101). It is a bare DOM `click()` on a reference, with no state and no guard.
- `shortid.generate()`. It is replaced by the opaque stream `IdGen`. Its uniqueness is a hypothesis (`Injective`), not a proved fact.
- `console.log` and `preventDefault`. They have no effect on the modelled state or callbacks.
- The `e || window.event` fallback (src/Receiver.js:70). Listeners are always called with an event.
- React `setState` batching. State updates are modelled as taking effect immediately and in order.
- In-place mutation and aliasing. The source writes the tag fields onto the host's file objects. The model builds new values, so another holder of the same object does not see the change.
- Whether a callback prop is actually a function. Every callback is modelled as present. A missing `onDragOver` would make the real handler throw.
- The event object passed to `onDragEnter`, `onDragLeave` and `onDragOver`. Only the fact that the call happens is modelled. `onFileDrop` does receive its event.
- Floating-point `progress`. The receiver only writes 0, so it is an `int`.
