/** What the interactive UI elements (src/UI/Button.cs, src/UI/Slider.cs)
    read in a frame: the mouse in screen pixels, whether a button press or
    release is among the frame's events, and the mouse position in the
    coordinates of the panel the element lies in. */
module Panels {
  import opened Wrappers
  import opened Numerics

  /** Globals.mouseX/mouseY and whether the frame's event queue holds any
      mouse-button-down or mouse-button-up event. */
  datatype MouseInput = MouseInput(x: int32, y: int32, down: bool, up: bool)

  /** `(mouse - origin) / (double) extent`: the int subtraction wraps and the
      quotient is a double. With a zero extent C# yields an infinity or NaN,
      which no comparison against finite bounds accepts; it is `None` here. */
  function Normalise(mouse: int32, origin: int32, extent: int32): (r: Option<real>)
    ensures r.None? <==> extent == 0
    ensures r.Some? ==> r.value * extent as real == Wrap32(mouse - origin) as real
  {
    if extent == 0 then None else Some(Wrap32(mouse - origin) as real / extent as real)
  }

  /** A pixel on a panel's extent (and a difference that does not wrap)
      normalises into the unit interval, its near edge to 0 and far edge to 1. */
  lemma NormaliseUnit(mouse: int32, origin: int32, extent: int32)
    requires extent > 0
    requires origin <= mouse <= origin + extent
    ensures Normalise(mouse, origin, extent).Some?
    ensures 0.0 <= Normalise(mouse, origin, extent).value <= 1.0
    ensures mouse == origin ==> Normalise(mouse, origin, extent).value == 0.0
    ensures mouse == origin + extent ==> Normalise(mouse, origin, extent).value == 1.0
  {
    assert InInt32(mouse - origin);
    DivUnit((mouse - origin) as real, extent as real);
  }

  lemma DivUnit(v: real, e: real)
    requires e > 0.0 && 0.0 <= v <= e
    ensures 0.0 <= v / e <= 1.0
  {
    assert v / e * e == v;
  }
}
