/** The notebook's handlers as they run: each call updates the shared node objects and
    the simulation in place. The nodes' `fx`/`fy` fields become one array of pin states,
    the circles' "fixed" class another array, and the simulation contributes its alpha.
    Every method is specified by the function of the same name in PinSpec. */
module StickyLayout {
  import opened Clamping
  import opened PinSpec

  class PinController {
    const width: real
    const height: real
    const pins: array<PinState>
    const fixed: array<bool>
    var alpha: real

    /** One marker per node, a non-negative viewport, and every pin inside it. */
    ghost predicate Valid()
      reads this, pins, fixed
    {
      pins.Length == fixed.Length && 0.0 <= width && 0.0 <= height &&
      PinsInViewport(State(), width, height)
    }

    ghost function State(): Controller
      reads this, pins, fixed
    {
      Controller(pins[..], fixed[..], alpha)
    }

    /** The `n` nodes of the graph cell start as empty objects; the simulation starts
        hot. */
    constructor (n: nat, width: real, height: real)
      requires 0.0 <= width && 0.0 <= height
      ensures Valid() && fresh(pins) && fresh(fixed)
      ensures this.width == width && this.height == height
      ensures State() == Initial(n)
      ensures MarkersMatchPins(State())
    {
      this.width := width;
      this.height := height;
      pins := new PinState[n](_ => Free);
      fixed := new bool[n](_ => false);
      alpha := 1.0;
      new;
      assert pins[..] == Initial(n).pins;
      assert fixed[..] == Initial(n).fixed;
    }

    /** `click(event, d)`: release node `i` and reheat. */
    method Click(i: nat)
      requires Valid() && i < pins.Length
      modifies this, pins, fixed
      ensures Valid()
      ensures State() == PinSpec.Click(old(State()), i)
    {
      pins[i] := Free;
      fixed[i] := false;
      alpha := 1.0;
    }

    /** `dragstart()`: show node `i` as fixed; its pin and the simulation are untouched. */
    method DragStart(i: nat)
      requires Valid() && i < pins.Length
      modifies fixed
      ensures Valid()
      ensures State() == PinSpec.DragStart(old(State()), i)
    {
      fixed[i] := true;
    }

    /** `dragged(event, d)`: pin node `i` at the drag event's coordinates `(x, y)`
        clamped to the viewport and reheat. */
    method Dragged(i: nat, x: real, y: real)
      requires Valid() && i < pins.Length
      modifies this, pins
      ensures Valid()
      ensures State() == PinSpec.Dragged(old(State()), i, x, y, width, height)
      ensures pins[i] == Pinned(Clamp(x, 0.0, width), Clamp(y, 0.0, height))
    {
      pins[i] := Pinned(Clamp(x, 0.0, width), Clamp(y, 0.0, height));
      alpha := 1.0;
    }
  }
}
