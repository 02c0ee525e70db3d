/** The pin controller of the sticky layout, as values: what the `click`, `dragstart`
    and `dragged` handlers do to the nodes' fixed positions, to the nodes' "fixed"
    style marker and to the simulation's alpha. The class in controller.dfy performs
    the same updates in place and is specified by the functions here. */
module PinSpec {
  import opened Clamping

  /** A node's fixed position: `Free` while `fx`/`fy` are absent from the node object,
      `Pinned(fx, fy)` once the drag handler has set them. */
  datatype PinState = Free | Pinned(fx: real, fy: real)

  /** The state the handlers touch: one pin state and one marker per node (the marker is
      the "fixed" class of the node's circle, toggled by other handlers than the pin
      state), and the simulation's alpha. */
  datatype Controller = Controller(pins: seq<PinState>, fixed: seq<bool>, alpha: real)
  {
    predicate Valid() {
      |pins| == |fixed|
    }

    function Size(): nat {
      |pins|
    }
  }

  /** A pinned position lies in the viewport `[0, width] x [0, height]`. */
  predicate InViewport(p: PinState, width: real, height: real) {
    p.Pinned? ==> 0.0 <= p.fx <= width && 0.0 <= p.fy <= height
  }

  predicate PinsInViewport(c: Controller, width: real, height: real) {
    forall j :: 0 <= j < |c.pins| ==> InViewport(c.pins[j], width, height)
  }

  /** The red "fixed" style is shown on exactly the pinned nodes. */
  predicate MarkersMatchPins(c: Controller)
    requires c.Valid()
  {
    forall j :: 0 <= j < |c.pins| ==> (c.fixed[j] <==> c.pins[j].Pinned?)
  }

  /** The nodes are created as empty objects, so none is pinned, and each circle gets
      the "fixed" class exactly when its node has an `fx`. A new simulation starts
      with alpha 1. */
  function Initial(n: nat): (c: Controller)
    ensures c.Valid() && c.Size() == n && c.alpha == 1.0
    ensures forall j :: 0 <= j < n ==> c.pins[j] == Free && !c.fixed[j]
    ensures MarkersMatchPins(c)
  {
    Controller(seq(n, _ => Free), seq(n, _ => false), 1.0)
  }

  /** `click`: delete `fx` and `fy`, clear the marker, reheat to alpha 1. */
  function Click(c: Controller, i: nat): (r: Controller)
    requires c.Valid() && i < c.Size()
    ensures r.Valid() && r.Size() == c.Size()
    ensures r.pins[i] == Free && !r.fixed[i]
    ensures r.alpha == 1.0
    ensures forall j :: 0 <= j < c.Size() && j != i ==> r.pins[j] == c.pins[j] && r.fixed[j] == c.fixed[j]
  {
    Controller(c.pins[i := Free], c.fixed[i := false], 1.0)
  }

  /** `dragstart`: set the marker; no pin state and no alpha changes. */
  function DragStart(c: Controller, i: nat): (r: Controller)
    requires c.Valid() && i < c.Size()
    ensures r.Valid() && r.Size() == c.Size()
    ensures r.fixed[i]
    ensures r.pins == c.pins && r.alpha == c.alpha
    ensures forall j :: 0 <= j < c.Size() && j != i ==> r.fixed[j] == c.fixed[j]
  {
    c.(fixed := c.fixed[i := true])
  }

  /** `dragged`: pin the node at the drag event's coordinates `(x, y)` clamped to the
      viewport, and reheat to alpha 1. The marker is left as it is. The drag behaviour
      computes those coordinates as the node's position at the drag start plus the
      pointer's displacement since then. */
  function Dragged(c: Controller, i: nat, x: real, y: real, width: real, height: real): (r: Controller)
    requires c.Valid() && i < c.Size()
    ensures r.Valid() && r.Size() == c.Size()
    ensures r.pins[i].Pinned?
    ensures r.pins[i].fx == Clamp(x, 0.0, width) && r.pins[i].fy == Clamp(y, 0.0, height)
    ensures 0.0 <= width && 0.0 <= height ==> InViewport(r.pins[i], width, height)
    ensures r.alpha == 1.0 && r.fixed == c.fixed
    ensures forall j :: 0 <= j < c.Size() && j != i ==> r.pins[j] == c.pins[j]
  {
    Controller(c.pins[i := Pinned(Clamp(x, 0.0, width), Clamp(y, 0.0, height))], c.fixed, 1.0)
  }

  /** Clicking an already free node leaves every pin state as it was; only the marker
      and alpha are touched. */
  lemma ClickOnFreeNode(c: Controller, i: nat)
    requires c.Valid() && i < c.Size() && c.pins[i] == Free
    ensures Click(c, i).pins == c.pins
    ensures Click(c, i).alpha == 1.0
  {
  }

  /** Clicking twice is clicking once: the second reheat leaves alpha at 1. */
  lemma ClickIdempotent(c: Controller, i: nat)
    requires c.Valid() && i < c.Size()
    ensures Click(Click(c, i), i) == Click(c, i)
  {
  }

  /** Of two successive drags of one node only the later one's position remains; with
      the same drag coordinates both times, dragging is idempotent. */
  lemma DraggedLastWins(c: Controller, i: nat, x1: real, y1: real, x2: real, y2: real, width: real, height: real)
    requires c.Valid() && i < c.Size()
    ensures Dragged(Dragged(c, i, x1, y1, width, height), i, x2, y2, width, height)
         == Dragged(c, i, x2, y2, width, height)
  {
  }

  /** Pinning, releasing and pinning again at the same drag coordinates gives the same
      fixed positions and alpha as pinning once. */
  lemma RepinRoundTrip(c: Controller, i: nat, x: real, y: real, width: real, height: real)
    requires c.Valid() && i < c.Size()
    ensures var once := Dragged(c, i, x, y, width, height);
            var again := Dragged(Click(once, i), i, x, y, width, height);
            again.pins == once.pins && again.alpha == once.alpha
  {
  }

  /** One handler invocation, as the drag behaviour and the click listener deliver it.
      `EndEvent` is the drag behaviour's "end" event: the notebook registers no listener
      for it, so it changes nothing, and the pin outlives the drag. */
  datatype Event =
    | StartEvent(node: nat)
    | DragEvent(node: nat, x: real, y: real)
    | EndEvent(node: nat)
    | ClickEvent(node: nat)

  /** The events that reset alpha to 1. */
  predicate Reheats(e: Event) {
    e.DragEvent? || e.ClickEvent?
  }

  /** The events that may change node `i`'s pin state. */
  predicate RepinsNode(e: Event, i: nat) {
    Reheats(e) && e.node == i
  }

  predicate EventsWithin(events: seq<Event>, n: nat) {
    forall k :: 0 <= k < |events| ==> events[k].node < n
  }

  function Apply(c: Controller, e: Event, width: real, height: real): (r: Controller)
    requires c.Valid() && e.node < c.Size()
    ensures r.Valid() && r.Size() == c.Size()
    ensures 0.0 <= width && 0.0 <= height && PinsInViewport(c, width, height) ==> PinsInViewport(r, width, height)
    ensures Reheats(e) ==> r.alpha == 1.0
    ensures !Reheats(e) ==> r.alpha == c.alpha
    ensures !Reheats(e) ==> r.pins == c.pins
    ensures forall j :: 0 <= j < c.Size() && !RepinsNode(e, j) ==> r.pins[j] == c.pins[j]
  {
    match e
    case StartEvent(i) => DragStart(c, i)
    case DragEvent(i, x, y) => Dragged(c, i, x, y, width, height)
    case EndEvent(_) => c
    case ClickEvent(i) => Click(c, i)
  }

  /** The handlers applied to a stream of events, first event first. */
  function Run(c: Controller, events: seq<Event>, width: real, height: real): (r: Controller)
    requires c.Valid() && EventsWithin(events, c.Size())
    ensures r.Valid() && r.Size() == c.Size()
    decreases |events|
  {
    if events == [] then c
    else Run(Apply(c, events[0], width, height), events[1..], width, height)
  }

  /** Running two streams one after the other is running their concatenation. */
  lemma {:induction false} RunAppend(c: Controller, a: seq<Event>, b: seq<Event>, width: real, height: real)
    requires c.Valid() && EventsWithin(a + b, c.Size())
    ensures EventsWithin(a, c.Size())
    ensures EventsWithin(b, Run(c, a, width, height).Size())
    ensures Run(c, a + b, width, height) == Run(Run(c, a, width, height), b, width, height)
    decreases |a|
  {
    assert forall k :: 0 <= k < |a| ==> a[k] == (a + b)[k];
    assert forall k :: 0 <= k < |b| ==> b[k] == (a + b)[|a| + k];
    if a != [] {
      assert (a + b)[1..] == a[1..] + b;
      RunAppend(Apply(c, a[0], width, height), a[1..], b, width, height);
    } else {
      assert a + b == b;
    }
  }

  /** No sequence of handler calls pins a node outside the viewport. */
  lemma {:induction false} RunKeepsViewport(c: Controller, events: seq<Event>, width: real, height: real)
    requires c.Valid() && EventsWithin(events, c.Size())
    requires 0.0 <= width && 0.0 <= height && PinsInViewport(c, width, height)
    ensures PinsInViewport(Run(c, events, width, height), width, height)
    decreases |events|
  {
    if events != [] {
      RunKeepsViewport(Apply(c, events[0], width, height), events[1..], width, height);
    }
  }

  /** Stickiness: a node's pin state survives every event that neither drags nor clicks
      that node, the end of its own drag included. */
  lemma {:induction false} RunKeepsUntouchedPin(c: Controller, events: seq<Event>, width: real, height: real, i: nat)
    requires c.Valid() && EventsWithin(events, c.Size()) && i < c.Size()
    requires forall k :: 0 <= k < |events| ==> !RepinsNode(events[k], i)
    ensures Run(c, events, width, height).pins[i] == c.pins[i]
    decreases |events|
  {
    if events != [] {
      assert !RepinsNode(events[0], i);
      RunKeepsUntouchedPin(Apply(c, events[0], width, height), events[1..], width, height, i);
    }
  }

  /** Alpha is 1 after any stream holding a drag or a click, whatever it was before; a
      stream of only drag starts and drag ends leaves it as it was. */
  lemma {:induction false} RunAlpha(c: Controller, events: seq<Event>, width: real, height: real)
    requires c.Valid() && EventsWithin(events, c.Size())
    ensures (exists k :: 0 <= k < |events| && Reheats(events[k])) ==> Run(c, events, width, height).alpha == 1.0
    ensures (forall k :: 0 <= k < |events| ==> !Reheats(events[k])) ==> Run(c, events, width, height).alpha == c.alpha
    decreases |events|
  {
    if events != [] {
      var next := Apply(c, events[0], width, height);
      RunAlpha(next, events[1..], width, height);
      if exists k :: 0 <= k < |events| && Reheats(events[k]) {
        var k :| 0 <= k < |events| && Reheats(events[k]);
        if k > 0 {
          assert events[1..][k - 1] == events[k];
        }
      }
      if forall k :: 0 <= k < |events| ==> !Reheats(events[k]) {
        assert !Reheats(events[0]);
      }
    }
  }
}
