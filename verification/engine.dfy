/** The host engine objects the drag-and-drop module handles, and the host calls it makes.
    Every identity is opaque: only equality matters. */
module Engine {
  import opened Wrappers

  /** The transform at the origin of a pointer's ray; the key of every per-pointer table. */
  datatype RayOrigin = RayOrigin(id: nat)

  /** A scene object a ray can enter, exit or drag. */
  datatype GameObject = GameObject(id: nat)

  /** A component implementing `IDropReceiver`. */
  datatype Receiver = Receiver(id: nat)

  /** A component implementing `IDroppable`. */
  datatype Droppable = Droppable(id: nat)

  /** The payload a droppable hands to a receiver (a C# `object`). */
  datatype DropObject = DropObject(id: nat)

  /** The host behaviour the module relies on, left uninterpreted:
      - receiverOf:   `GetComponent<IDropReceiver>()` on a game object;
      - droppableOf:  `GetComponent<IDroppable>()` on a game object;
      - canDrop:      `IDropReceiver.CanDrop(object)`, which may be passed null;
      - dropObjectOf: `IDroppable.GetDropObject()`, which may return null. */
  datatype Host = Host(
    receiverOf: GameObject -> Option<Receiver>,
    droppableOf: GameObject -> Option<Droppable>,
    canDrop: (Receiver, Option<DropObject>) -> bool,
    dropObjectOf: Droppable -> Option<DropObject>)
}
