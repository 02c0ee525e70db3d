/** Pointer gestures on the node circles, as the d3 drag behaviour turns them into calls
    of the notebook's handlers. A press starts a drag at once; each movement of the
    pointer while pressed is a drag event; the release ends the drag. The drag behaviour
    lets a click through only after a press without movement, and even then the browser
    delivers it to the circle's click listener only when the release lands on that
    circle (a node drifting away under a still pointer, or a long touch, gives none).

    The two gesture shapes below are a HYPOTHESIS, not a consequence of the handlers: a
    drag moves at least once and gets no click; a press without movement is always
    followed by a click on the same node. The marker lemmas hold only under it, and
    PressWithoutClick shows the marker and the pin falling out of step without it. */
module Gestures {
  import opened Clamping
  import opened PinSpec

  /** The coordinates a drag event carries: the node's position at the drag start plus
      the pointer's displacement since then. */
  datatype Point = Point(x: real, y: real)

  datatype Gesture =
    | DragGesture(node: nat, path: seq<Point>)  // press, drag events at `path`, release
    | Press(node: nat)                          // press, release without moving, click

  /** A drag gesture moves the pointer at least once; otherwise it is a press. */
  predicate WellFormed(g: Gesture) {
    g.DragGesture? ==> |g.path| > 0
  }

  predicate GesturesWithin(gs: seq<Gesture>, n: nat) {
    forall k :: 0 <= k < |gs| ==> gs[k].node < n && WellFormed(gs[k])
  }

  function Last(path: seq<Point>): Point
    requires |path| > 0
  {
    path[|path| - 1]
  }

  function MoveEvents(i: nat, path: seq<Point>): seq<Event> {
    seq(|path|, k requires 0 <= k < |path| => DragEvent(i, path[k].x, path[k].y))
  }

  /** The handler calls one gesture produces, in order; all of them target its node. */
  function GestureEvents(g: Gesture): (es: seq<Event>)
    ensures |es| >= 2 && es[0] == StartEvent(g.node)
    ensures forall k :: 0 <= k < |es| ==> es[k].node == g.node
  {
    match g
    case DragGesture(i, path) => [StartEvent(i)] + MoveEvents(i, path) + [EndEvent(i)]
    case Press(i) => [StartEvent(i), EndEvent(i), ClickEvent(i)]
  }

  /** The drag events along one path leave the node pinned where the last one put
      it, as if only that one had happened. */
  lemma {:induction false} RunMoves(c: Controller, i: nat, path: seq<Point>, width: real, height: real)
    requires c.Valid() && i < c.Size() && |path| > 0
    ensures EventsWithin(MoveEvents(i, path), c.Size())
    ensures Run(c, MoveEvents(i, path), width, height) == Dragged(c, i, Last(path).x, Last(path).y, width, height)
    decreases |path|
  {
    var es := MoveEvents(i, path);
    var next := Apply(c, es[0], width, height);
    assert next == Dragged(c, i, path[0].x, path[0].y, width, height);
    assert es[1..] == MoveEvents(i, path[1..]);
    if |path| == 1 {
      assert es[1..] == [];
    } else {
      RunMoves(next, i, path[1..], width, height);
      assert Last(path[1..]) == Last(path);
      DraggedLastWins(c, i, path[0].x, path[0].y, Last(path).x, Last(path).y, width, height);
    }
  }

  /** What a whole gesture does: a drag marks the node and pins it at the clamped last
      drag coordinates; a press unpins the node and clears its marker, whether or not it
      was pinned. Both reheat. */
  lemma {:induction false} GestureOutcome(c: Controller, g: Gesture, width: real, height: real)
    requires c.Valid() && g.node < c.Size() && WellFormed(g)
    ensures EventsWithin(GestureEvents(g), c.Size())
    ensures g.DragGesture? ==>
              Run(c, GestureEvents(g), width, height)
              == Dragged(DragStart(c, g.node), g.node, Last(g.path).x, Last(g.path).y, width, height)
    ensures g.Press? ==> Run(c, GestureEvents(g), width, height) == Click(c, g.node)
  {
    var i := g.node;
    var es := GestureEvents(g);
    var started := DragStart(c, i);
    match g
    case DragGesture(_, path) =>
      var moves := MoveEvents(i, path);
      assert es == [StartEvent(i)] + (moves + [EndEvent(i)]);
      RunAppend(c, [StartEvent(i)], moves + [EndEvent(i)], width, height);
      assert Run(c, [StartEvent(i)], width, height) == Run(started, [], width, height);
      RunAppend(started, moves, [EndEvent(i)], width, height);
      RunMoves(started, i, path, width, height);
      var moved := Run(started, moves, width, height);
      assert Run(moved, [EndEvent(i)], width, height) == Run(moved, [], width, height);
    case Press(_) =>
      assert es[1..] == [EndEvent(i), ClickEvent(i)];
      assert es[1..][1..] == [ClickEvent(i)];
      assert Run(c, es, width, height) == Run(started, [EndEvent(i), ClickEvent(i)], width, height);
      assert Run(started, [EndEvent(i), ClickEvent(i)], width, height) == Run(started, [ClickEvent(i)], width, height);
      assert Run(started, [ClickEvent(i)], width, height) == Run(Click(started, i), [], width, height);
      assert Click(started, i) == Click(c, i);
  }

  /** A sequence of gestures, one after the other. */
  function RunSession(c: Controller, gs: seq<Gesture>, width: real, height: real): (r: Controller)
    requires c.Valid() && GesturesWithin(gs, c.Size())
    ensures r.Valid() && r.Size() == c.Size()
    decreases |gs|
  {
    if gs == [] then c
    else RunSession(Run(c, GestureEvents(gs[0]), width, height), gs[1..], width, height)
  }

  /** Under the drag behaviour's gesture shapes the red "fixed" style stays on exactly
      the pinned nodes, and no gesture pins a node outside the viewport. */
  lemma {:induction false} SessionKeepsInvariants(c: Controller, gs: seq<Gesture>, width: real, height: real)
    requires c.Valid() && GesturesWithin(gs, c.Size())
    requires MarkersMatchPins(c)
    ensures MarkersMatchPins(RunSession(c, gs, width, height))
    ensures 0.0 <= width && 0.0 <= height && PinsInViewport(c, width, height)
        ==> PinsInViewport(RunSession(c, gs, width, height), width, height)
    decreases |gs|
  {
    if gs != [] {
      var g := gs[0];
      GestureOutcome(c, g, width, height);
      var next := Run(c, GestureEvents(g), width, height);
      assert MarkersMatchPins(next);
      if 0.0 <= width && 0.0 <= height && PinsInViewport(c, width, height) {
        RunKeepsViewport(c, GestureEvents(g), width, height);
      }
      SessionKeepsInvariants(next, gs[1..], width, height);
    }
  }

  /** From the notebook's start state, after any session of gestures, the marker is
      shown on exactly the pinned nodes and every pin lies in the viewport. */
  lemma SessionFromStart(n: nat, gs: seq<Gesture>, width: real, height: real)
    requires GesturesWithin(gs, n) && 0.0 <= width && 0.0 <= height
    ensures MarkersMatchPins(RunSession(Initial(n), gs, width, height))
    ensures PinsInViewport(RunSession(Initial(n), gs, width, height), width, height)
  {
    SessionKeepsInvariants(Initial(n), gs, width, height);
  }

  /** Outside the hypothesis: a press released without a click (the release missed the
      circle) leaves a free node shown in the "fixed" style. */
  lemma PressWithoutClick(n: nat, i: nat, width: real, height: real)
    requires i < n
    ensures EventsWithin([StartEvent(i), EndEvent(i)], n)
    ensures var c := Run(Initial(n), [StartEvent(i), EndEvent(i)], width, height);
            c.fixed[i] && c.pins[i] == Free && !MarkersMatchPins(c)
  {
    var started := DragStart(Initial(n), i);
    assert [StartEvent(i), EndEvent(i)][1..] == [EndEvent(i)];
    assert Run(Initial(n), [StartEvent(i), EndEvent(i)], width, height) == Run(started, [EndEvent(i)], width, height);
    assert Run(started, [EndEvent(i)], width, height) == Run(started, [], width, height);
  }
}
