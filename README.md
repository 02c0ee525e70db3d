# Sticky Force Layout: the pin controller, verified

The "Sticky Force Layout" notebook (d3, Observable) draws a node-link graph whose
positions come from a d3 force simulation. The user can drag a node to fix it at the
drag event's coordinates (`d.fx`, `d.fy`), where it stays after the drag ends ("sticky"). A
click releases it. Every drag and every click reheats the simulation to alpha 1. The
drag start shows the node's circle in the "fixed" style.

This project models the part of the notebook that is its own logic:

- `clamp`, which bounds a drag coordinate to the viewport (`clamp.dfy`, module `Clamping`);
- the static demo graph of 13 nodes and 18 index-pair links (`graph.dfy`, module `DemoGraph`);
- the three handlers `click`, `dragstart` and `dragged` as pure functions over the state
  they touch (`pin_spec.dfy`, module `PinSpec`). That state is one pin state per node
  (`Free` or `Pinned(fx, fy)`), one "fixed" marker per node, and the simulation's alpha.
  The module also covers streams of handler calls, including the drag "end" event, for
  which the notebook registers no listener;
- the gestures through which the d3 drag behaviour calls those handlers (`gestures.dfy`,
  module `Gestures`);
- the handlers as they run, updating arrays and a field in place (`controller.dfy`,
  class `StickyLayout.PinController`). Each method's postcondition equates the new
  state with the `PinSpec` function of the old state.

Coordinates are exact `real`s. `width` and `height` are parameters, and the viewport
properties assume both are non-negative.

The model follows the code exactly where a looser account of the demo might differ:

- `dragstart` only sets the marker and does not pin the node (`eee60212006d88dd@137.js:63-65`).
- `dragged` pins the node but does not touch the marker (`:67-71`).
- There is no drag-end handler (`:38-41`), so the end of a drag changes nothing.

## Model

| member | source | states |
|---|---|---|
| `Clamping.Clamp` | eee60212006d88dd@137.js:80-84 | the result lies in `[lo, hi]` whenever `lo <= hi`, and is always one of `lo`, `hi`, `x` |
| `Clamping.ClampCases` | eee60212006d88dd@137.js:82 | over a non-empty interval: `lo` below it, `hi` above it, `x` inside it; `x` is returned unchanged exactly when it lies in `[lo, hi]` |
| `Clamping.ClampIdempotent` | eee60212006d88dd@137.js:81-83 | clamping twice equals clamping once when `lo <= hi` |
| `Clamping.ClampNotIdempotentOnEmptyInterval` | eee60212006d88dd@137.js:82 | with `lo > hi` idempotence fails (`clamp(0, 2, 1) = 2`, `clamp(2, 2, 1) = 1`), so the precondition above is needed |
| `Clamping.ClampIsNearest` | eee60212006d88dd@137.js:81-83 | independent characterisation: the result is the point of `[lo, hi]` nearest to `x` |
| `Clamping.ClampMonotone` | eee60212006d88dd@137.js:82 | `x <= y` implies `clamp(x) <= clamp(y)` over a non-empty interval |
| `DemoGraph.DemoGraphWellFormed` | eee60212006d88dd@137.js:106-130 | the graph has 13 nodes and 18 links, and every link's `source` and `target` lies in `[0, 13)` |
| `DemoGraph.EveryNodeLinked` | eee60212006d88dd@137.js:108-128 | every one of the 13 nodes is an endpoint of some link |
| `PinSpec.Initial` | eee60212006d88dd@137.js:20-26 | nodes created as `{}` (line 108) are all free, every marker is false (the class is derived from `d.fx !== undefined`), the markers agree with the pins, and alpha is 1 |
| `PinSpec.Click` | eee60212006d88dd@137.js:56-61 | node `i` becomes free with marker false, alpha becomes 1 whatever it was, and every other node's pin and marker are unchanged |
| `PinSpec.DragStart` | eee60212006d88dd@137.js:63-65 | node `i`'s marker becomes true; all pins and alpha are unchanged, as are the other markers |
| `PinSpec.Dragged` | eee60212006d88dd@137.js:67-71 | node `i` is pinned at `(clamp(x, 0, width), clamp(y, 0, height))`, which lies in the viewport; alpha becomes 1; markers and the other nodes' pins are unchanged |
| `PinSpec.ClickOnFreeNode` | eee60212006d88dd@137.js:56-61 | a click on an already free node leaves every pin state as it was and still reheats |
| `PinSpec.ClickIdempotent` | eee60212006d88dd@137.js:56-61 | two clicks on a node leave the same state as one; repeated reheat leaves alpha at 1 |
| `PinSpec.RepinRoundTrip` | eee60212006d88dd@137.js:56-71 | drag, click, then drag to the same drag coordinates gives the same pins and alpha as one drag |
| `PinSpec.DraggedLastWins` | eee60212006d88dd@137.js:67-70 | of two drags of one node only the later position remains; dragging twice to the same position is dragging once |
| `PinSpec.Apply` | eee60212006d88dd@137.js:38-43 | one handler call keeps every pin in the viewport; drag and click set alpha to 1; start and end leave alpha unchanged; only a drag or click of a node changes pins |
| `PinSpec.Run` | eee60212006d88dd@137.js:38-43 | a stream of handler calls keeps one marker per node and the node count |
| `PinSpec.RunKeepsViewport` | eee60212006d88dd@137.js:67-69 | after any stream of handler calls every pinned node lies in `[0, width] x [0, height]` |
| `PinSpec.RunKeepsUntouchedPin` | eee60212006d88dd@137.js:38-41 | stickiness: a node's pin survives every event that does not drag or click it, including the end of its own drag |
| `PinSpec.RunAlpha` | eee60212006d88dd@137.js:56-71 | after a stream containing a drag or click, alpha is 1 whatever it was; a stream of only starts and ends leaves alpha unchanged |
| `Gestures.GestureEvents` | eee60212006d88dd@137.js:38-43 | every gesture begins with the drag start on its node, and all of its handler calls target that node |
| `Gestures.RunMoves` | eee60212006d88dd@137.js:67-71 | the drag events along a path of drag coordinates leave the node pinned at the clamped last point, as if only that drag had happened |
| `Gestures.GestureOutcome` | eee60212006d88dd@137.js:38-43 | a drag gesture marks the node and pins it at the clamped last drag coordinates; a press without movement releases the node and clears its marker, pinned or not |
| `Gestures.SessionKeepsInvariants` | eee60212006d88dd@137.js:56-71 | over any sequence of gestures of the two hypothesised shapes, markers stay on exactly the pinned nodes, and pins stay in the viewport |
| `Gestures.SessionFromStart` | eee60212006d88dd@137.js:20-71 | from the start state, after any session of hypothesised gestures, the marker shows exactly the pinned nodes and every pin is in the viewport |
| `Gestures.PressWithoutClick` | eee60212006d88dd@137.js:43-65 | a drag start (line 64) with no click after it (line 43's listener never fires) leaves a free node marked "fixed": the marker invariant needs the gesture hypothesis |
| `StickyLayout.PinController.constructor` | eee60212006d88dd@137.js:20-36 | arrays of `n` free pins and `n` false markers, alpha 1: the state `PinSpec.Initial(n)` |
| `StickyLayout.PinController.Click` | eee60212006d88dd@137.js:56-61 | the new state is `PinSpec.Click` of the old one; the object invariant (pins in the viewport) is kept |
| `StickyLayout.PinController.DragStart` | eee60212006d88dd@137.js:63-65 | only the marker array changes; the new state is `PinSpec.DragStart` of the old one |
| `StickyLayout.PinController.Dragged` | eee60212006d88dd@137.js:67-71 | node `i` holds the clamped drag coordinates; the new state is `PinSpec.Dragged` of the old one; pins stay in the viewport |

## Left out

- The force simulation (`forceSimulation`, `forceManyBody`, `forceCenter`, `forceLink`, lines 30-36). It is d3 library code that is not part of this model, and it works in floating point. This includes the library's rule that a node with `fx`/`fy` is held at that position on every tick.
- `restart()` and the simulation's timer (lines 60 and 70). This is library scheduling; only the assignment of alpha 1 is modelled. Alpha's decay between events is not modelled either.
- The initial alpha of 1 is d3's documented default for a new simulation. It is not visible in the notebook.
- The `tick` rendering (lines 45-54), the SVG creation and joins (lines 14-26), and the `d3.select(this).classed(...)` DOM calls. The marker is kept as a boolean per node.
- The Observable runtime (`define`, `require("d3@6")`, the generator's `yield`) and the markdown and style cells. In particular only the first run of the main cell is modelled: the `graph` cell (lines 106-130) does not depend on `width`, so when a resize re-runs the main cell the same node objects come back with their `fx`/`fy`. Line 26 then marks them fixed, and a pin clamped to the old width may lie outside the new viewport. `PinSpec.Initial`, `StickyLayout.PinController.constructor` and `Gestures.SessionFromStart` describe the first run only.
- `height = Math.min(500, width * 0.6)` (line 78). It is a floating-point layout constant; `width` and `height` are parameters instead.
- How `forceLink` resolves index pairs into node objects, and its error for an unknown index. That is library code; the model instead proves that the demo graph's indices are all valid.
- `Gestures.SessionKeepsInvariants` and `Gestures.SessionFromStart` hold only under a hypothesis about the d3 drag behaviour and the browser, which are not part of this model, in both directions: a click follows only a press without movement, and every press without movement is followed by a click on the same node. The second direction can fail: the click reaches the circle's listener (line 43) only if the release lands on that circle, so a node that drifts from under a still pointer, or a long touch, gets `dragstart` and no `click`. `Gestures.PressWithoutClick` shows the marker then disagrees with the pin. Multi-touch is not considered.
- Floating-point `clamp`: with a NaN input the source returns NaN. Reals have no NaN.
