/** The UI slider (src/UI/Slider.cs): the same three states as a button,
    except that a press holds while the mouse leaves the slider, and while
    pressed the value follows the mouse along the track, clamped to
    [minValue, maxValue]. */
module Sliders {
  import opened Numerics
  import opened Rects
  import opened Panels
  import Buttons

  datatype SliderState = Mouseable | Moused | Pressed

  /** Position and size are fractions of the panel; the bob is an h-wide
      square centred on the track at the value's fraction of w. */
  datatype Slider = Slider(
    x: real, y: real, w: real, h: real,
    value: real, minValue: real, maxValue: real,
    state: SliderState)

  /** The constructor stores the start value as given, unclamped. */
  function Create(x: real, y: real, w: real, h: real,
                  minValue: real, maxValue: real, startValue: real): (s: Slider)
    ensures s.state == Mouseable && s.value == startValue
    ensures s.minValue == minValue && s.maxValue == maxValue
    ensures s.x == x && s.y == y && s.w == w && s.h == h
  {
    Slider(x, y, w, h, startValue, minValue, maxValue, Mouseable)
  }

  /** The mouse is over the track widened by half a bob at either end. As
      for a button, a panel of zero width or height puts the mouse nowhere;
      a slider of no height is never hovered. */
  predicate Hovering(s: Slider, panel: Rect, input: MouseInput)
    ensures Hovering(s, panel, input) ==> panel.w != 0 && panel.h != 0
    ensures s.h <= 0.0 ==> !Hovering(s, panel, input)
  {
    var mx := Normalise(input.x, panel.x, panel.w);
    var my := Normalise(input.y, panel.y, panel.h);
    && mx.Some? && my.Some?
    && s.x - s.h / 2.0 < mx.value < s.x + s.h / 2.0 + s.w
    && s.y < my.value < s.y + s.h
  }

  /** The fraction of the track the mouse is at, before clamping. */
  function TrackFraction(s: Slider, panel: Rect, input: MouseInput): real
    requires panel.w != 0 && s.w != 0.0
  {
    (Normalise(input.x, panel.x, panel.w).value - s.x) / s.w
  }

  /** Slider.Update: leaving the slider resets it unless it is pressed; over
      it a Mouseable slider becomes Moused and a Moused one Pressed on a
      press; a release ends a press; a slider still pressed takes the value
      at the mouse's clamped position along the track. */
  function Update(s: Slider, panel: Rect, input: MouseInput): (r: Slider)
    requires panel.w != 0 && s.w != 0.0
    ensures r == s.(state := r.state, value := r.value)
    ensures r.state == Mouseable <==> !Hovering(s, panel, input) && s.state != Pressed
    ensures r.state == Pressed <==>
              !input.up && (s.state == Pressed || (Hovering(s, panel, input) && input.down))
    ensures r.state == Pressed ==>
              r.value == Clamp(TrackFraction(s, panel, input), 0.0, 1.0)
                         * (s.maxValue - s.minValue) + s.minValue
    ensures r.state != Pressed ==> r.value == s.value
  {
    var hovering := Hovering(s, panel, input);
    var s0 := if !hovering && s.state != Pressed then Mouseable else s.state;
    var s1 := if s0 == Mouseable && hovering then Moused else s0;
    var s2 := if s1 == Moused && input.down then Pressed else s1;
    assert s2 == Pressed <==> s.state == Pressed || (hovering && input.down);
    var s3 := if s2 == Pressed && input.up then Moused else s2;
    var value := if s3 == Pressed
                 then Clamp(TrackFraction(s, panel, input), 0.0, 1.0)
                      * (s.maxValue - s.minValue) + s.minValue
                 else s.value;
    s.(state := s3, value := value)
  }

  /** A fraction c in [0, 1] of the interval [lo, hi] lies in it. */
  lemma Interpolate(c: real, lo: real, hi: real)
    requires 0.0 <= c <= 1.0 && lo <= hi
    ensures lo <= c * (hi - lo) + lo <= hi
  {
    var d := hi - lo;
    assert 0.0 <= c * d;
    assert (1.0 - c) * d >= 0.0;
    assert c * d + (1.0 - c) * d == d;
  }

  /** Once the slider has been moved, its value lies between its bounds. */
  lemma ValueInRange(s: Slider, panel: Rect, input: MouseInput)
    requires panel.w != 0 && s.w != 0.0
    requires s.minValue <= s.maxValue
    requires Update(s, panel, input).state == Pressed
    ensures s.minValue <= Update(s, panel, input).value <= s.maxValue
  {
    var c := Clamp(TrackFraction(s, panel, input), 0.0, 1.0);
    var v := Update(s, panel, input).value;
    assert v == c * (s.maxValue - s.minValue) + s.minValue;
    Interpolate(c, s.minValue, s.maxValue);
  }

  /** The fraction of the track at which Slider.Draw places the bob. */
  function BobFraction(s: Slider): real
    requires s.maxValue != s.minValue
  {
    (s.value - s.minValue) / (s.maxValue - s.minValue)
  }

  /** While pressed, the bob is drawn under the mouse: its fraction of the
      track is the mouse's, clamped to [0, 1]. */
  lemma BobFollowsMouse(s: Slider, panel: Rect, input: MouseInput)
    requires panel.w != 0 && s.w != 0.0
    requires s.maxValue != s.minValue
    requires Update(s, panel, input).state == Pressed
    ensures BobFraction(Update(s, panel, input)) == Clamp(TrackFraction(s, panel, input), 0.0, 1.0)
  {
    var c := Clamp(TrackFraction(s, panel, input), 0.0, 1.0);
    var d := s.maxValue - s.minValue;
    assert (c * d + s.minValue - s.minValue) / d == c * d / d;
  }

  /** Unlike a button, a pressed slider stays pressed off the slider until
      a release, which returns it to Moused and keeps the value. */
  lemma PressHoldsUntilRelease(s: Slider, panel: Rect, input: MouseInput)
    requires panel.w != 0 && s.w != 0.0
    requires s.state == Pressed
    ensures Update(s, panel, input).state == (if input.up then Moused else Pressed)
    ensures input.up ==> Update(s, panel, input).value == s.value
  {
  }

  /** The hover region reaches half a bob beyond the track's ends: a mouse
      level with the track and up to h/2 before its start is over it. */
  lemma HoverReachesPastStart(s: Slider, panel: Rect, input: MouseInput)
    requires panel.w != 0 && panel.h != 0 && s.w >= 0.0
    requires var mx := Normalise(input.x, panel.x, panel.w).value;
             s.x - s.h / 2.0 < mx <= s.x
    requires var my := Normalise(input.y, panel.y, panel.h).value;
             s.y < my < s.y + s.h
    ensures Hovering(s, panel, input)
  {
  }

  /** The matching end: a mouse level with the track and up to h/2 past its
      end is over it. */
  lemma HoverReachesPastEnd(s: Slider, panel: Rect, input: MouseInput)
    requires panel.w != 0 && panel.h != 0 && s.w >= 0.0
    requires var mx := Normalise(input.x, panel.x, panel.w).value;
             s.x + s.w <= mx < s.x + s.w + s.h / 2.0
    requires var my := Normalise(input.y, panel.y, panel.h).value;
             s.y < my < s.y + s.h
    ensures Hovering(s, panel, input)
  {
  }

  /** A slider's hover region is exactly that of a button widened by half a
      bob at either end: x - h/2 to x + w + h/2, over the slider's height. */
  lemma HoverIsWidenedButton(s: Slider, panel: Rect, input: MouseInput)
    ensures Hovering(s, panel, input)
        <==> Buttons.Hovering(Buttons.Create(s.x - s.h / 2.0, s.y, s.w + s.h, s.h), panel, input)
  {
  }
}
