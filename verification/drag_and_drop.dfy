/** The drag-and-drop routing module: three per-pointer tables keyed by ray origin
    and the four ray events that update them. */
module DragAndDrop {
  import opened Wrappers
  import opened Engine

  /** The module's three dictionaries: what each ray is dragging, which receiver
      it is hovering, and which game object that receiver sits on. */
  datatype State = State(
    droppables: map<RayOrigin, Droppable>,
    receivers: map<RayOrigin, Receiver>,
    hovers: map<RayOrigin, GameObject>)

  /** The tables as the component is constructed: all empty. */
  const Empty: State := State(map[], map[], map[])

  /** The invariant every event keeps: a ray hovers an object exactly when it
      has a current drop receiver. */
  predicate Valid(s: State)
  {
    s.hovers.Keys == s.receivers.Keys
  }

  /** Everything the tables say about one ray. */
  datatype Slot = Slot(droppable: Option<Droppable>, receiver: Option<Receiver>, hover: Option<GameObject>)

  function SlotOf(s: State, ray: RayOrigin): Slot
  {
    Slot(Lookup(s.droppables, ray), Lookup(s.receivers, ray), Lookup(s.hovers, ray))
  }

  /** No ray other than `ray` sees a difference between `s` and `s'`. */
  ghost predicate OthersUnchanged(s: State, s': State, ray: RayOrigin)
  {
    forall o :: o != ray ==> SlotOf(s', o) == SlotOf(s, o)
  }

  /** The callbacks the module makes on receivers. */
  datatype Notification =
    | HoverStarted(receiver: Receiver)                               // OnDropHoverStarted
    | HoverEnded(receiver: Receiver)                                 // OnDropHoverEnded
    | ReceiveDrop(receiver: Receiver, dropObject: Option<DropObject>) // ReceiveDrop

  /** The tables after an event, and the callbacks the event made, in order. */
  datatype Step = Step(state: State, notes: seq<Notification>)

  /** The exception an event handler throws when handed a null game object. */
  datatype Fault = NullReference

  /** `SetCurrentDroppable`: a null droppable is ignored; otherwise it becomes the ray's entry. */
  function SetCurrentDroppable(s: State, ray: RayOrigin, droppable: Option<Droppable>): (r: State)
    ensures r.receivers == s.receivers && r.hovers == s.hovers
    ensures droppable.None? ==> r == s
    ensures droppable.Some? ==> SlotOf(r, ray).droppable == droppable
    ensures r.droppables.Keys == s.droppables.Keys + (if droppable.Some? then {ray} else {})
    ensures OthersUnchanged(s, r, ray)
  {
    match droppable
    case None => s
    case Some(d) => s.(droppables := s.droppables[ray := d])
  }

  /** `GetCurrentDropObject`: the drop object of the ray's droppable, or null when it has none. */
  function GetCurrentDropObject(host: Host, s: State, ray: RayOrigin): (r: Option<DropObject>)
    ensures ray !in s.droppables ==> r == None
    ensures ray in s.droppables ==> r == host.dropObjectOf(s.droppables[ray])
  {
    match Lookup(s.droppables, ray)
    case None => None
    case Some(d) => host.dropObjectOf(d)
  }

  /** `SetCurrentDropReceiver`: null removes the ray's entry, anything else replaces it. */
  function SetCurrentDropReceiver(s: State, ray: RayOrigin, receiver: Option<Receiver>): (r: State)
    ensures r.droppables == s.droppables && r.hovers == s.hovers
    ensures SlotOf(r, ray).receiver == receiver
    ensures r.receivers.Keys == if receiver.Some? then s.receivers.Keys + {ray} else s.receivers.Keys - {ray}
    ensures OthersUnchanged(s, r, ray)
  {
    match receiver
    case None => s.(receivers := s.receivers - {ray})
    case Some(rc) => s.(receivers := s.receivers[ray := rc])
  }

  /** `GetCurrentDropReceiver`: the ray's receiver, or null when it has none. */
  function GetCurrentDropReceiver(s: State, ray: RayOrigin): (r: Option<Receiver>)
    ensures r.Some? <==> ray in s.receivers
    ensures r.Some? ==> r.value == s.receivers[ray]
  {
    Lookup(s.receivers, ray)
  }

  /** Read-after-write for the receiver table: a write on one ray is seen by
      that ray alone. */
  lemma ReceiverReadAfterWrite(s: State, ray: RayOrigin, receiver: Option<Receiver>, o: RayOrigin)
    ensures GetCurrentDropReceiver(SetCurrentDropReceiver(s, ray, receiver), o)
         == if o == ray then receiver else GetCurrentDropReceiver(s, o)
  {
  }

  /** Read-after-write for the droppable table: a non-null write on one ray changes
      that ray's drop object alone, and a null write changes nothing. */
  lemma DropObjectReadAfterWrite(host: Host, s: State, ray: RayOrigin, droppable: Option<Droppable>, o: RayOrigin)
    ensures GetCurrentDropObject(host, SetCurrentDroppable(s, ray, droppable), o)
         == if o == ray && droppable.Some? then host.dropObjectOf(droppable.value)
            else GetCurrentDropObject(host, s, o)
  {
  }

  /** Whether entering `obj` on `ray` starts a hover: the object carries a
      receiver and that receiver accepts the ray's current drop object. */
  predicate Accepts(host: Host, s: State, obj: GameObject, ray: RayOrigin)
  {
    host.receiverOf(obj).Some? && host.canDrop(host.receiverOf(obj).value, GetCurrentDropObject(host, s, ray))
  }

  /** `OnRayEntered`. A null object throws. Otherwise, when the object's receiver
      accepts the ray's drop object, the hover starts: the receiver is told, and
      the object and its receiver are recorded for the ray. Otherwise nothing happens. */
  function OnRayEntered(host: Host, s: State, obj: Option<GameObject>, ray: RayOrigin): (r: Result<Step, Fault>)
    ensures r.Failure? <==> obj.None?
    ensures r.Success? && Accepts(host, s, obj.value, ray) ==>
              && r.value.notes == [HoverStarted(host.receiverOf(obj.value).value)]
              && SlotOf(r.value.state, ray) == Slot(SlotOf(s, ray).droppable, host.receiverOf(obj.value), obj)
    ensures r.Success? && !Accepts(host, s, obj.value, ray) ==> r.value == Step(s, [])
    ensures r.Success? ==> r.value.state.droppables == s.droppables
    ensures r.Success? ==> OthersUnchanged(s, r.value.state, ray)
    ensures r.Success? && Valid(s) ==> Valid(r.value.state)
  {
    match obj
    case None => Failure(NullReference)
    case Some(g) =>
      match host.receiverOf(g)
      case None => Success(Step(s, []))
      case Some(rc) =>
        if host.canDrop(rc, GetCurrentDropObject(host, s, ray)) then
          var s1 := s.(hovers := s.hovers[ray := g]);
          Success(Step(SetCurrentDropReceiver(s1, ray, Some(rc)), [HoverStarted(rc)]))
        else
          Success(Step(s, []))
  }

  /** `OnRayExited`. Never throws: a null object is ignored. An object with no
      receiver changes nothing. Otherwise, when the ray was hovering, its hover
      and receiver entries are removed together and the exited object's receiver
      is told the hover ended; when it was not, nothing happens. */
  function OnRayExited(host: Host, s: State, obj: Option<GameObject>, ray: RayOrigin): (r: Step)
    ensures obj.None? || host.receiverOf(obj.value).None? ==> r == Step(s, [])
    ensures obj.Some? && host.receiverOf(obj.value).Some? && ray in s.hovers ==>
              && r.notes == [HoverEnded(host.receiverOf(obj.value).value)]
              && SlotOf(r.state, ray) == Slot(SlotOf(s, ray).droppable, None, None)
    ensures ray !in s.hovers ==> r == Step(s, [])
    ensures r.state.droppables == s.droppables
    ensures OthersUnchanged(s, r.state, ray)
    ensures Valid(s) ==> Valid(r.state)
  {
    match obj
    case None => Step(s, [])
    case Some(g) =>
      match host.receiverOf(g)
      case None => Step(s, [])
      case Some(rc) =>
        if ray in s.hovers then
          var s1 := s.(hovers := s.hovers - {ray});
          Step(SetCurrentDropReceiver(s1, ray, None), [HoverEnded(rc)])
        else
          Step(s, [])
  }

  /** `OnDragStarted`. A null object throws. Otherwise the object's droppable, if
      it has one, becomes the ray's droppable; no callback is made. */
  function OnDragStarted(host: Host, s: State, obj: Option<GameObject>, ray: RayOrigin): (r: Result<Step, Fault>)
    ensures r.Failure? <==> obj.None?
    ensures r.Success? ==> r.value.notes == []
    ensures r.Success? ==> r.value.state.receivers == s.receivers && r.value.state.hovers == s.hovers
    ensures r.Success? && host.droppableOf(obj.value).Some? ==>
              SlotOf(r.value.state, ray).droppable == host.droppableOf(obj.value)
    ensures r.Success? && host.droppableOf(obj.value).None? ==> r.value.state == s
    ensures r.Success? ==> OthersUnchanged(s, r.value.state, ray)
  {
    match obj
    case None => Failure(NullReference)
    case Some(g) =>
      match host.droppableOf(g)
      case None => Success(Step(s, []))
      case Some(d) => Success(Step(SetCurrentDroppable(s, ray, Some(d)), []))
  }

  /** Whether ending a drag of `obj` on `ray` delivers a drop: the object is
      droppable, the ray has a receiver, and the receiver accepts the object's
      drop object. */
  predicate Delivers(host: Host, s: State, obj: GameObject, ray: RayOrigin)
  {
    && host.droppableOf(obj).Some?
    && ray in s.receivers
    && host.canDrop(s.receivers[ray], host.dropObjectOf(host.droppableOf(obj).value))
  }

  /** `OnDragEnded`. A null object throws. Otherwise the tables are left exactly
      as they were (the attempt to clear the droppable writes null, which
      `SetCurrentDroppable` ignores), and the ray's receiver gets the drop
      exactly when `Delivers` holds. */
  function OnDragEnded(host: Host, s: State, obj: Option<GameObject>, ray: RayOrigin): (r: Result<Step, Fault>)
    ensures r.Failure? <==> obj.None?
    ensures r.Success? ==> r.value.state == s
    ensures r.Success? && Delivers(host, s, obj.value, ray) ==>
              r.value.notes == [ReceiveDrop(s.receivers[ray], host.dropObjectOf(host.droppableOf(obj.value).value))]
    ensures r.Success? && !Delivers(host, s, obj.value, ray) ==> r.value.notes == []
  {
    match obj
    case None => Failure(NullReference)
    case Some(g) =>
      match host.droppableOf(g)
      case None => Success(Step(s, []))
      case Some(d) =>
        var s1 := SetCurrentDroppable(s, ray, None);
        var receiver := GetCurrentDropReceiver(s1, ray);
        var dropObject := host.dropObjectOf(d);
        if receiver.Some? && host.canDrop(receiver.value, dropObject) then
          Success(Step(s1, [ReceiveDrop(receiver.value, host.dropObjectOf(d))]))
        else
          Success(Step(s1, []))
  }

  /** One ray event. */
  datatype Input =
    | RayEntered(obj: Option<GameObject>, ray: RayOrigin)
    | RayExited(obj: Option<GameObject>, ray: RayOrigin)
    | DragStarted(obj: Option<GameObject>, ray: RayOrigin)
    | DragEnded(obj: Option<GameObject>, ray: RayOrigin)

  /** The hover callbacks of an event on `ray` agree with its effect on that
      ray's entries: a start leaves the ray hovering with the started receiver,
      an end is made only for a ray that was hovering and leaves it with neither
      entry, and an event making neither leaves both entries as they were. */
  predicate HoverCallbacksMatch(s: State, st: Step, ray: RayOrigin)
  {
    if st.notes != [] && st.notes[0].HoverStarted? then
      ray in st.state.hovers && Lookup(st.state.receivers, ray) == Some(st.notes[0].receiver)
    else if st.notes != [] && st.notes[0].HoverEnded? then
      ray in s.hovers && ray !in st.state.hovers && ray !in st.state.receivers
    else
      (ray in st.state.hovers) == (ray in s.hovers) && Lookup(st.state.receivers, ray) == Lookup(s.receivers, ray)
  }

  /** Dispatches an event to its handler. Every event keeps the invariant, makes
      at most one callback and touches no ray but its own. */
  function Handle(host: Host, s: State, input: Input): (r: Result<Step, Fault>)
    ensures r.Failure? <==> input.obj.None? && !input.RayExited?
    ensures r.Success? ==> |r.value.notes| <= 1
    ensures r.Success? ==> OthersUnchanged(s, r.value.state, input.ray)
    ensures r.Success? && Valid(s) ==> Valid(r.value.state)
    ensures r.Success? ==> s.droppables.Keys <= r.value.state.droppables.Keys
    ensures r.Success? ==> HoverCallbacksMatch(s, r.value, input.ray)
  {
    match input
    case RayEntered(obj, ray) => OnRayEntered(host, s, obj, ray)
    case RayExited(obj, ray) => Success(OnRayExited(host, s, obj, ray))
    case DragStarted(obj, ray) => OnDragStarted(host, s, obj, ray)
    case DragEnded(obj, ray) => OnDragEnded(host, s, obj, ray)
  }

  /** What an event does depends only on the tables' entries for its own ray:
      two states that agree there produce the same outcome, the same callbacks
      and the same entries for that ray. */
  lemma HandleIsLocal(host: Host, s: State, s': State, input: Input)
    requires SlotOf(s, input.ray) == SlotOf(s', input.ray)
    ensures Handle(host, s, input).Success? == Handle(host, s', input).Success?
    ensures Handle(host, s, input).Success? ==>
              && Handle(host, s, input).value.notes == Handle(host, s', input).value.notes
              && SlotOf(Handle(host, s, input).value.state, input.ray)
                 == SlotOf(Handle(host, s', input).value.state, input.ray)
  {
  }
}
