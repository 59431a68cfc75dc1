# Drag-and-drop routing in EditorVR, modelled in Dafny

EditorVR's `DragAndDropModule` routes ray-based drag and drop between scene
objects. It keeps three tables, all keyed by the transform at a pointer's ray
origin:

- the ray's current droppable, which is the thing being dragged;
- the ray's current drop receiver;
- the game object the ray is hovering.

Four ray events update these tables: enter, exit, drag-start and drag-end. The
enter and exit events call the receiver's hover callbacks, and drag-end may
deliver a drop.

The model is functional. A `State` holds three Dafny `map`s keyed by an opaque
`RayOrigin`. Each event handler is a pure function that returns the new state
and the callbacks it made, in order.

The host engine is a `Host` value passed as a parameter. It holds four
uninterpreted functions:

- `GetComponent<IDropReceiver>`;
- `GetComponent<IDroppable>`;
- `CanDrop`;
- `GetDropObject`.

A C# null is `None`. The NullReferenceException a handler throws on a null game
object is `Failure(NullReference)`.

Files:

- `wrappers.dfy`: `Option`, `Result` and `Lookup`, the `TryGetValue` of a map.
- `engine.dfy`: the opaque identities and the `Host` record.
- `drag_and_drop.dfy`: the module itself. It holds the tables, the table
  invariant, the four accessors and the four event handlers. It also holds
  `Handle`, which dispatches an event to its handler, and the lemma that a
  handler looks only at its own ray's entries.
- `event_trace.dfy`: runs of event sequences. A handler that throws leaves
  everything unchanged. Every callback is tagged with the ray whose event made
  it. The run-level properties are proved here:
  - the invariant holds after every run;
  - rays are isolated from each other;
  - on each ray, hover-end callbacks never outnumber hover-start callbacks;
  - a drop goes only to the receiver whose hover is open;
  - the stale droppable left behind by drag-end is shown;
  - two scenarios show that hover callbacks are not paired one-to-one.

One quirk is modelled as written. `SetCurrentDroppable` ignores a null
droppable, and `OnDragEnded` clears the entry by passing null. So drag-end never
clears the droppable. A ray keeps its last droppable forever, and later enter
events ask receivers about that stale drop object. `DroppablesNeverShrink` and
`StaleDropObject` state this.

The source does not pair hover callbacks either:

- An accepted enter on a ray that is already hovering overwrites the hover
  entry, and the overwrite sends the old receiver no `OnDropHoverEnded`. Only
  the first later exit on the ray ends a hover, whichever of the two objects
  it exits, so one of the two starts is never matched.
  `OverwrittenHoverNeverEnds` shows this for the order exit B, exit A.
- An exit sends `OnDropHoverEnded` to the exited object's receiver without
  checking that this is the object being hovered. `ExitEndsUnstartedHover`
  shows this.

So the only count balance that holds is the inequality of `HoverBalance`.

## Model

| member | source | states |
|---|---|---|
| DragAndDrop.SetCurrentDroppable | Scripts/Modules/DragAndDropModule.cs:14-18 | null leaves every table unchanged; a droppable becomes this ray's entry; the receiver and hover tables and every other ray's entries are untouched |
| DragAndDrop.GetCurrentDropObject | Scripts/Modules/DragAndDropModule.cs:20-24 | a ray with no droppable yields null; otherwise the drop object its droppable reports |
| DragAndDrop.SetCurrentDropReceiver | Scripts/Modules/DragAndDropModule.cs:26-32 | null removes the ray's receiver entry, a receiver stores it; the key set shrinks or grows by exactly that ray; other rays and the other tables are untouched |
| DragAndDrop.GetCurrentDropReceiver | Scripts/Modules/DragAndDropModule.cs:34-41 | yields a receiver exactly when the ray has an entry, and then that entry; null otherwise |
| DragAndDrop.ReceiverReadAfterWrite | Scripts/Modules/DragAndDropModule.cs:26-41 | reading a ray's receiver after a write yields the written value (null after a removal) on that ray and the old value on every other ray |
| DragAndDrop.DropObjectReadAfterWrite | Scripts/Modules/DragAndDropModule.cs:14-24 | after a non-null droppable write, the ray's drop object is the new droppable's; after a null write, or on any other ray, it is what it was |
| DragAndDrop.OnRayEntered | Scripts/Modules/DragAndDropModule.cs:43-55 | a null object throws; one callback, HoverStarted, is made and the object and its receiver are recorded for the ray exactly when the object has a receiver that accepts the ray's current drop object; otherwise nothing changes and no callback is made; the invariant is kept; other rays are untouched |
| DragAndDrop.OnRayExited | Scripts/Modules/DragAndDropModule.cs:57-71 | never throws; a null object, an object without a receiver, or a ray not hovering changes nothing; otherwise the hover and receiver entries are both removed and the exited object's receiver gets HoverEnded; the invariant is kept; other rays are untouched |
| DragAndDrop.OnDragStarted | Scripts/Modules/DragAndDropModule.cs:73-78 | a null object throws; the object's droppable, when it has one, becomes the ray's droppable, otherwise nothing changes; no callback; receiver and hover tables and other rays are untouched |
| DragAndDrop.OnDragEnded | Scripts/Modules/DragAndDropModule.cs:80-93 | a null object throws; all three tables stay exactly as they were, because the null droppable write is ignored; ReceiveDrop with the droppable's drop object goes to the ray's receiver exactly when the object is droppable, the ray has a receiver, and that receiver accepts the drop object; otherwise no callback |
| DragAndDrop.Handle | Scripts/Modules/DragAndDropModule.cs:43-93 | only enter, drag-start and drag-end on a null object throw; every event makes at most one callback, keeps the hover keys equal to the receiver keys, never removes a droppable, touches no other ray, and its hover callbacks match its changes to the ray's entries |
| DragAndDrop.HandleIsLocal | Scripts/Modules/DragAndDropModule.cs:43-93 | an event's outcome, callbacks and effect on its own ray depend only on that ray's entries |
| EventTrace.Apply | Scripts/Modules/DragAndDropModule.cs:43-93 | an event whose handler throws changes nothing; otherwise the step is exactly its handler's result; either way it keeps the invariant, makes at most one callback and leaves other rays alone |
| EventTrace.RunKeepsValid | Scripts/Modules/DragAndDropModule.cs:43-71 | after any sequence of events, hover keys still equal receiver keys |
| EventTrace.DroppablesNeverShrink | Scripts/Modules/DragAndDropModule.cs:14-18 | no sequence of events removes a ray's droppable entry |
| EventTrace.RunIsolation | Scripts/Modules/DragAndDropModule.cs:43-93 | a ray's entries and callbacks after any run equal those of running that ray's events alone, from any state that agrees on that ray |
| EventTrace.RunLeavesOtherRaysAlone | Scripts/Modules/DragAndDropModule.cs:43-93 | a run with no event on a ray leaves that ray's entries unchanged and makes no callback for it |
| EventTrace.ApplyBalance | Scripts/Modules/DragAndDropModule.cs:43-71 | a single event can open a hover only together with a HoverStarted, and makes a HoverEnded only when it closes an open hover |
| EventTrace.HoverBalance | Scripts/Modules/DragAndDropModule.cs:43-71 | from empty tables, the events on each ray make no more HoverEnded than HoverStarted callbacks, and strictly fewer while the ray is hovering; the count is per ray, not per receiver |
| EventTrace.ApplyRecordsHover | Scripts/Modules/DragAndDropModule.cs:43-71 | a single event sets the ray's receiver entry to the receiver it sends HoverStarted, clears it when it sends HoverEnded, and otherwise leaves it alone |
| EventTrace.ReceiverIsOpenHover | Scripts/Modules/DragAndDropModule.cs:43-71 | from empty tables, a ray's receiver entry is always the receiver of its last hover callback when that callback was a start, and absent otherwise |
| EventTrace.DropGoesToOpenHover | Scripts/Modules/DragAndDropModule.cs:80-93 | after any run from empty tables, only a drag-end delivers a drop; it goes to the receiver whose hover is open on that ray, with a drop object that receiver accepts |
| EventTrace.StaleDropObject | Scripts/Modules/DragAndDropModule.cs:80-93 | from any tables, after a drag of a droppable object starts and ends on a ray, the ray still holds that droppable and reports its drop object |
| EventTrace.OverwrittenHoverNeverEnds | Scripts/Modules/DragAndDropModule.cs:43-71 | enter A, enter B, exit B, exit A with both receivers accepting gives the callbacks HoverStarted(A's receiver), HoverStarted(B's receiver), HoverEnded(B's receiver) and leaves the ray idle, so A's hover is never ended |
| EventTrace.ExitEndsUnstartedHover | Scripts/Modules/DragAndDropModule.cs:43-71 | enter A (accepted), enter B (declined), exit B gives the callbacks HoverStarted(A's receiver), HoverEnded(B's receiver) and leaves the ray idle, so B is told of a hover it never started |

## Left out

- `Scripts/Core/EditorVR.Viewer.cs` is not part of this model. It manages the camera rig, which is host-engine work:
  - prefab instantiation;
  - physics overlap queries;
  - quaternion and vector arithmetic;
  - float clip planes;
  - a frame-driven interpolation coroutine.

  None of this is discrete logic.
- The host calls `GetComponent`, `CanDrop`, `GetDropObject`, `OnDropHoverStarted`, `OnDropHoverEnded` and `ReceiveDrop` are not implemented. The first three are uninterpreted functions of a `Host` parameter. The callbacks become entries in the output trace.
- `GetDropObject` is modelled as a pure function. So the two calls in `OnDragEnded`, one for `CanDrop` and one for `ReceiveDrop`, return the same object. A host whose droppable answers differently on the second call is not modelled.
- Exceptions thrown inside host callbacks are not modelled. Neither is re-entrancy, where a callback raises another ray event.
- A null ray origin is not modelled. The C# dictionaries throw on a null key. The model assumes that every ray event carries a ray origin; the code that raises these events is not part of this model.
- One `Host` value serves a whole run. So the answers of `GetComponent`, `CanDrop` and `GetDropObject` cannot change between events, for example in response to a hover callback. The program allows such changes; no lemma here relies on excluding them beyond the fixed-host abstraction itself.
- Unity's overloaded null test on destroyed game objects is not modelled. A game object is either present or null (`None`).
- How the host's event system treats an exception thrown by a handler is not part of the module. For runs, `EventTrace.Apply` assumes that such an event changes nothing and makes no callback. This holds because every handler throws before it writes anything.
