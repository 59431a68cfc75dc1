/** Sequences of ray events run through the module, and what holds of every run:
    the table invariant, isolation between rays, hover ends never outnumbering
    hover starts on a ray, and where drops are delivered. Hover callbacks are not
    paired one-to-one: the last two lemmas show a start left without an end and
    an end sent to a receiver that never started. */
module EventTrace {
  import opened Wrappers
  import opened Engine
  import opened DragAndDrop

  /** A callback, tagged with the ray whose event made it. */
  datatype Emitted = Emitted(ray: RayOrigin, note: Notification)

  /** The tables after a run, and every callback the run made, in order. */
  datatype Trace = Trace(state: State, out: seq<Emitted>)

  /** One event as the host's event system delivers it: an event whose handler
      throws leaves the tables as they were and makes no callback. */
  function Apply(host: Host, s: State, input: Input): (r: Step)
    ensures Handle(host, s, input).Failure? ==> r == Step(s, [])
    ensures Handle(host, s, input).Success? ==> r == Handle(host, s, input).value
    ensures |r.notes| <= 1
    ensures OthersUnchanged(s, r.state, input.ray)
    ensures Valid(s) ==> Valid(r.state)
    ensures s.droppables.Keys <= r.state.droppables.Keys
    ensures HoverCallbacksMatch(s, r, input.ray)
  {
    match Handle(host, s, input)
    case Success(st) => st
    case Failure(_) => Step(s, [])
  }

  /** The callbacks of one event, each tagged with the event's ray. */
  function Tag(ray: RayOrigin, notes: seq<Notification>): (r: seq<Emitted>)
    ensures |r| == |notes|
    ensures forall i :: 0 <= i < |r| ==> r[i] == Emitted(ray, notes[i])
  {
    seq(|notes|, i requires 0 <= i < |notes| => Emitted(ray, notes[i]))
  }

  /** Runs the events in order from `s`. */
  function Run(host: Host, s: State, ins: seq<Input>): Trace
    decreases |ins|
  {
    if ins == [] then Trace(s, [])
    else
      var prev := Run(host, s, ins[..|ins| - 1]);
      var input := ins[|ins| - 1];
      var st := Apply(host, prev.state, input);
      Trace(st.state, prev.out + Tag(input.ray, st.notes))
  }

  /** The events of `ins` on ray `o`, in order. */
  function OnRay(ins: seq<Input>, o: RayOrigin): seq<Input>
  {
    if ins == [] then []
    else OnRay(ins[..|ins| - 1], o) + (if ins[|ins| - 1].ray == o then [ins[|ins| - 1]] else [])
  }

  /** The callbacks of `es` made by events on ray `o`, in order. */
  function ForRay(es: seq<Emitted>, o: RayOrigin): seq<Emitted>
  {
    if es == [] then []
    else ForRay(es[..|es| - 1], o) + (if es[|es| - 1].ray == o then [es[|es| - 1]] else [])
  }

  lemma {:induction false} ForRayConcat(a: seq<Emitted>, b: seq<Emitted>, o: RayOrigin)
    ensures ForRay(a + b, o) == ForRay(a, o) + ForRay(b, o)
    decreases |b|
  {
    if b == [] {
      assert a + b == a;
    } else {
      var b' := b[..|b| - 1];
      assert (a + b)[..|a + b| - 1] == a + b';
      ForRayConcat(a, b', o);
    }
  }

  lemma {:induction false} ForRayTag(ray: RayOrigin, notes: seq<Notification>, o: RayOrigin)
    ensures ForRay(Tag(ray, notes), o) == if ray == o then Tag(ray, notes) else []
    decreases |notes|
  {
    if notes != [] {
      var notes' := notes[..|notes| - 1];
      assert Tag(ray, notes)[..|notes| - 1] == Tag(ray, notes');
      ForRayTag(ray, notes', o);
    }
  }

  lemma {:induction false} OnRayAbsent(ins: seq<Input>, o: RayOrigin)
    requires forall i :: 0 <= i < |ins| ==> ins[i].ray != o
    ensures OnRay(ins, o) == []
    decreases |ins|
  {
    if ins != [] {
      OnRayAbsent(ins[..|ins| - 1], o);
    }
  }

  /** The invariant holds after every run that starts from a state where it holds. */
  lemma {:induction false} RunKeepsValid(host: Host, s: State, ins: seq<Input>)
    requires Valid(s)
    ensures Valid(Run(host, s, ins).state)
    decreases |ins|
  {
    if ins != [] {
      RunKeepsValid(host, s, ins[..|ins| - 1]);
    }
  }

  /** No event ever removes a ray's droppable: drag-end's attempt to clear it is ignored. */
  lemma {:induction false} DroppablesNeverShrink(host: Host, s: State, ins: seq<Input>)
    ensures s.droppables.Keys <= Run(host, s, ins).state.droppables.Keys
    decreases |ins|
  {
    if ins != [] {
      DroppablesNeverShrink(host, s, ins[..|ins| - 1]);
    }
  }

  /** Isolation between rays: what a run leaves in ray `o`'s entries, and the
      callbacks its events make, are exactly those of running `o`'s events alone
      from any state that agrees on `o`. */
  lemma {:induction false} RunIsolation(host: Host, s: State, s': State, ins: seq<Input>, o: RayOrigin)
    requires SlotOf(s, o) == SlotOf(s', o)
    ensures SlotOf(Run(host, s, ins).state, o) == SlotOf(Run(host, s', OnRay(ins, o)).state, o)
    ensures ForRay(Run(host, s, ins).out, o) == Run(host, s', OnRay(ins, o)).out
    decreases |ins|
  {
    if ins != [] {
      var init := ins[..|ins| - 1];
      var input := ins[|ins| - 1];
      RunIsolation(host, s, s', init, o);
      var prev := Run(host, s, init);
      var prev' := Run(host, s', OnRay(init, o));
      var st := Apply(host, prev.state, input);
      ForRayConcat(prev.out, Tag(input.ray, st.notes), o);
      ForRayTag(input.ray, st.notes, o);
      if input.ray == o {
        var filtered := OnRay(init, o);
        assert OnRay(ins, o) == filtered + [input];
        assert (filtered + [input])[..|filtered + [input]| - 1] == filtered;
        HandleIsLocal(host, prev.state, prev'.state, input);
      } else {
        assert OnRay(ins, o) == OnRay(init, o);
      }
    }
  }

  /** A run with no event on ray `o` leaves `o`'s entries alone and makes no callback for it. */
  lemma RunLeavesOtherRaysAlone(host: Host, s: State, ins: seq<Input>, o: RayOrigin)
    requires forall i :: 0 <= i < |ins| ==> ins[i].ray != o
    ensures SlotOf(Run(host, s, ins).state, o) == SlotOf(s, o)
    ensures ForRay(Run(host, s, ins).out, o) == []
  {
    OnRayAbsent(ins, o);
    RunIsolation(host, s, s, ins, o);
  }

  /** The two hover callbacks. */
  datatype HoverEdge = Start | End

  predicate IsEdge(e: Emitted, o: RayOrigin, edge: HoverEdge)
  {
    e.ray == o && (if edge == Start then e.note.HoverStarted? else e.note.HoverEnded?)
  }

  /** How many `edge` callbacks events on ray `o` made in `es`. */
  function Count(es: seq<Emitted>, o: RayOrigin, edge: HoverEdge): nat
  {
    if es == [] then 0
    else Count(es[..|es| - 1], o, edge) + (if IsEdge(es[|es| - 1], o, edge) then 1 else 0)
  }

  lemma {:induction false} CountConcat(a: seq<Emitted>, b: seq<Emitted>, o: RayOrigin, edge: HoverEdge)
    ensures Count(a + b, o, edge) == Count(a, o, edge) + Count(b, o, edge)
    decreases |b|
  {
    if b == [] {
      assert a + b == a;
    } else {
      var b' := b[..|b| - 1];
      assert (a + b)[..|a + b| - 1] == a + b';
      CountConcat(a, b', o, edge);
    }
  }

  /** One event's share of the hover balance: a start may open a hover on its
      ray, an end is made only while one is open and closes it. */
  lemma ApplyBalance(host: Host, s: State, input: Input, o: RayOrigin)
    ensures var st := Apply(host, s, input);
            var emitted := Tag(input.ray, st.notes);
            Count(emitted, o, End) + (if o in st.state.hovers then 1 else 0)
              <= Count(emitted, o, Start) + (if o in s.hovers then 1 else 0)
  {
  }

  /** Every run from the empty tables makes, for each ray, no more hover-end
      callbacks than hover-start callbacks, and strictly fewer while the ray is
      hovering. */
  lemma {:induction false} HoverBalance(host: Host, ins: seq<Input>, o: RayOrigin)
    ensures var t := Run(host, Empty, ins);
            Count(t.out, o, End) + (if o in t.state.hovers then 1 else 0) <= Count(t.out, o, Start)
    decreases |ins|
  {
    if ins != [] {
      var prev := Run(host, Empty, ins[..|ins| - 1]);
      var input := ins[|ins| - 1];
      var st := Apply(host, prev.state, input);
      HoverBalance(host, ins[..|ins| - 1], o);
      ApplyBalance(host, prev.state, input, o);
      CountConcat(prev.out, Tag(input.ray, st.notes), o, Start);
      CountConcat(prev.out, Tag(input.ray, st.notes), o, End);
    }
  }

  /** The last hover callback events on ray `o` made in `es`, if any. */
  function LastHover(es: seq<Emitted>, o: RayOrigin): Option<Notification>
  {
    if es == [] then None
    else
      var e := es[|es| - 1];
      if e.ray == o && !e.note.ReceiveDrop? then Some(e.note) else LastHover(es[..|es| - 1], o)
  }

  /** The receiver of the hover open on ray `o` after `es`: the last hover
      callback on `o` was a start. */
  function OpenHover(es: seq<Emitted>, o: RayOrigin): Option<Receiver>
  {
    match LastHover(es, o)
    case Some(HoverStarted(r)) => Some(r)
    case _ => None
  }

  lemma {:induction false} LastHoverConcat(a: seq<Emitted>, b: seq<Emitted>, o: RayOrigin)
    ensures LastHover(a + b, o) == if LastHover(b, o).Some? then LastHover(b, o) else LastHover(a, o)
    decreases |b|
  {
    if b == [] {
      assert a + b == a;
    } else {
      var b' := b[..|b| - 1];
      assert (a + b)[..|a + b| - 1] == a + b';
      LastHoverConcat(a, b', o);
    }
  }

  /** One event's effect on the receiver table matches its hover callbacks: a
      start records its receiver, an end clears the entry, and an event that
      makes neither leaves the entry alone. */
  lemma ApplyRecordsHover(host: Host, s: State, input: Input, o: RayOrigin)
    ensures var st := Apply(host, s, input);
            var emitted := Tag(input.ray, st.notes);
            Lookup(st.state.receivers, o)
              == if LastHover(emitted, o).Some? then OpenHover(emitted, o) else Lookup(s.receivers, o)
  {
  }

  /** Every run from the empty tables keeps, for each ray, its receiver entry
      equal to the receiver of its open hover: the one whose start was the ray's
      last hover callback. */
  lemma {:induction false} ReceiverIsOpenHover(host: Host, ins: seq<Input>, o: RayOrigin)
    ensures var t := Run(host, Empty, ins);
            Lookup(t.state.receivers, o) == OpenHover(t.out, o)
    decreases |ins|
  {
    if ins != [] {
      var prev := Run(host, Empty, ins[..|ins| - 1]);
      var input := ins[|ins| - 1];
      var st := Apply(host, prev.state, input);
      ReceiverIsOpenHover(host, ins[..|ins| - 1], o);
      ApplyRecordsHover(host, prev.state, input, o);
      LastHoverConcat(prev.out, Tag(input.ray, st.notes), o);
    }
  }

  /** After any run from the empty tables, a drop is delivered only by a drag-end,
      only to the receiver whose hover is open on that ray, and only with a drop
      object that receiver accepts. */
  lemma DropGoesToOpenHover(host: Host, ins: seq<Input>, input: Input, n: Notification)
    requires n in Apply(host, Run(host, Empty, ins).state, input).notes && n.ReceiveDrop?
    ensures input.DragEnded?
    ensures OpenHover(Run(host, Empty, ins).out, input.ray) == Some(n.receiver)
    ensures host.canDrop(n.receiver, n.dropObject)
  {
    ReceiverIsOpenHover(host, ins, input.ray);
  }

  /** Drag-end does not forget the drag: after a drag starts and ends on a ray,
      the ray still holds the droppable, so a later enter on that ray asks
      receivers about the stale drop object. */
  lemma StaleDropObject(host: Host, s: State, g: GameObject, d: Droppable, ray: RayOrigin)
    requires host.droppableOf(g) == Some(d)
    ensures var t := Run(host, s, [DragStarted(Some(g), ray), DragEnded(Some(g), ray)]);
            && SlotOf(t.state, ray).droppable == Some(d)
            && GetCurrentDropObject(host, t.state, ray) == host.dropObjectOf(d)
  {
    var ins := [DragStarted(Some(g), ray), DragEnded(Some(g), ray)];
    assert ins[..1][..0] == [];
    assert ins[..2] == ins;
  }

  /** Re-entering on a ray that is already hovering overwrites the hover without
      ending it: after entering A, entering B and exiting B (both receivers
      accepting), the ray is idle with two starts and one end, and A's receiver
      never hears that its hover ended. */
  lemma OverwrittenHoverNeverEnds(host: Host, a: GameObject, b: GameObject, ra: Receiver, rb: Receiver, ray: RayOrigin)
    requires host.receiverOf(a) == Some(ra) && host.receiverOf(b) == Some(rb)
    requires host.canDrop(ra, None) && host.canDrop(rb, None)
    ensures var t := Run(host, Empty, [RayEntered(Some(a), ray), RayEntered(Some(b), ray), RayExited(Some(b), ray), RayExited(Some(a), ray)]);
            && t.out == [Emitted(ray, HoverStarted(ra)), Emitted(ray, HoverStarted(rb)), Emitted(ray, HoverEnded(rb))]
            && ray !in t.state.hovers
  {
    var ins := [RayEntered(Some(a), ray), RayEntered(Some(b), ray), RayExited(Some(b), ray), RayExited(Some(a), ray)];
    var t0 := Run(host, Empty, ins[..0]);
    assert t0 == Trace(Empty, []);
    var st1 := Apply(host, t0.state, ins[0]);
    assert GetCurrentDropObject(host, Empty, ray) == None;
    assert st1.notes == [HoverStarted(ra)];
    var t1 := Run(host, Empty, ins[..1]);
    assert ins[..1][..0] == ins[..0];
    assert t1 == Trace(st1.state, [] + Tag(ray, st1.notes));
    assert GetCurrentDropObject(host, t1.state, ray) == None;
    var st2 := Apply(host, t1.state, ins[1]);
    assert st2.notes == [HoverStarted(rb)];
    var t2 := Run(host, Empty, ins[..2]);
    assert ins[..2][..1] == ins[..1];
    assert t2 == Trace(st2.state, t1.out + Tag(ray, st2.notes));
    var st3 := Apply(host, t2.state, ins[2]);
    assert st3.notes == [HoverEnded(rb)] && ray !in st3.state.hovers;
    var t3 := Run(host, Empty, ins[..3]);
    assert ins[..3][..2] == ins[..2];
    assert t3 == Trace(st3.state, t2.out + Tag(ray, st3.notes));
    var st4 := Apply(host, t3.state, ins[3]);
    assert st4 == Step(t3.state, []);
    assert ins[..4] == ins;
    assert Run(host, Empty, ins) == Trace(st4.state, t3.out + Tag(ray, st4.notes));
  }

  /** An exit ends the hover of whatever object was exited, not of the object
      being hovered: after entering A (accepted), entering B (declined) and
      exiting B, B's receiver is told a hover ended that it never started, and
      A's receiver is never told. */
  lemma ExitEndsUnstartedHover(host: Host, a: GameObject, b: GameObject, ra: Receiver, rb: Receiver, ray: RayOrigin)
    requires host.receiverOf(a) == Some(ra) && host.receiverOf(b) == Some(rb)
    requires host.canDrop(ra, None) && !host.canDrop(rb, None)
    ensures var t := Run(host, Empty, [RayEntered(Some(a), ray), RayEntered(Some(b), ray), RayExited(Some(b), ray)]);
            && t.out == [Emitted(ray, HoverStarted(ra)), Emitted(ray, HoverEnded(rb))]
            && ray !in t.state.hovers
  {
    var ins := [RayEntered(Some(a), ray), RayEntered(Some(b), ray), RayExited(Some(b), ray)];
    var t0 := Run(host, Empty, ins[..0]);
    assert t0 == Trace(Empty, []);
    var st1 := Apply(host, t0.state, ins[0]);
    assert GetCurrentDropObject(host, Empty, ray) == None;
    assert st1.notes == [HoverStarted(ra)];
    var t1 := Run(host, Empty, ins[..1]);
    assert ins[..1][..0] == ins[..0];
    assert t1 == Trace(st1.state, [] + Tag(ray, st1.notes));
    assert GetCurrentDropObject(host, t1.state, ray) == None;
    var st2 := Apply(host, t1.state, ins[1]);
    assert st2 == Step(t1.state, []);
    var t2 := Run(host, Empty, ins[..2]);
    assert ins[..2][..1] == ins[..1];
    assert t2 == Trace(st2.state, t1.out + Tag(ray, st2.notes));
    var st3 := Apply(host, t2.state, ins[2]);
    assert st3.notes == [HoverEnded(rb)] && ray !in st3.state.hovers;
    assert ins[..3] == ins;
    assert Run(host, Empty, ins) == Trace(st3.state, t2.out + Tag(ray, st3.notes));
  }
}

