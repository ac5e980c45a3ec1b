/** The UI button (src/UI/Button.cs): a three-state machine driven once a
    frame by the mouse, which runs its action when a press that began over
    the button is released over it. The action is not modelled; the step
    reports whether it ran. */
module Buttons {
  import opened Wrappers
  import opened Rects
  import opened Panels

  datatype ButtonState = Mouseable | Moused | Pressed

  /** Position and size are fractions of the panel the button lies in. */
  datatype Button = Button(x: real, y: real, w: real, h: real, state: ButtonState)

  /** The constructor: a new button waits to be moused over. */
  function Create(x: real, y: real, w: real, h: real): (b: Button)
    ensures b.state == Mouseable
    ensures b.x == x && b.y == y && b.w == w && b.h == h
  {
    Button(x, y, w, h, Mouseable)
  }

  /** The mouse is strictly inside the button, in panel coordinates. A panel
      of zero width or height puts the mouse nowhere, and a button of no
      width or height is never hovered. */
  predicate Hovering(b: Button, panel: Rect, input: MouseInput)
    ensures Hovering(b, panel, input) ==> panel.w != 0 && panel.h != 0
    ensures b.w <= 0.0 || b.h <= 0.0 ==> !Hovering(b, panel, input)
  {
    var mx := Normalise(input.x, panel.x, panel.w);
    var my := Normalise(input.y, panel.y, panel.h);
    && mx.Some? && my.Some?
    && b.x < mx.value < b.x + b.w
    && b.y < my.value < b.y + b.h
  }

  /** A frame's outcome: the button and whether its action ran. */
  datatype Step = Step(button: Button, fired: bool)

  /** Button.Update: four transitions tried in order. Off the button it is
      Mouseable; over it a Mouseable button becomes Moused, a Moused one
      Pressed on a press, and a Pressed one runs its action and returns to
      Moused on a release. */
  function Update(b: Button, panel: Rect, input: MouseInput): (r: Step)
    ensures r.button == b.(state := r.button.state)
    ensures r.fired <==>
              Hovering(b, panel, input) && input.up && (b.state == Pressed || input.down)
    ensures r.button.state == Mouseable <==> !Hovering(b, panel, input)
    ensures r.button.state == Pressed <==>
              Hovering(b, panel, input) && !input.up && (b.state == Pressed || input.down)
  {
    var hovering := Hovering(b, panel, input);
    var s0 := if !hovering then Mouseable else b.state;
    var s1 := if s0 == Mouseable && hovering then Moused else s0;
    var s2 := if s1 == Moused && input.down then Pressed else s1;
    var fired := s2 == Pressed && input.up;
    var s3 := if fired then Moused else s2;
    Step(b.(state := s3), fired)
  }

  /** A press over the button in one frame and a release over it in the
      next runs the action once, on the release, and leaves it Moused. */
  lemma PressThenRelease(b: Button, panel: Rect, press: MouseInput, release: MouseInput)
    requires Hovering(b, panel, press) && press.down && !press.up
    requires Hovering(b, panel, release) && release.up
    ensures var first := Update(b, panel, press);
            var second := Update(first.button, panel, release);
            !first.fired && second.fired && second.button.state == Moused
  {
  }

  /** A press and a release in the same frame over a Mouseable button run
      the action in that frame. */
  lemma ClickInOneFrame(b: Button, panel: Rect, input: MouseInput)
    requires b.state == Mouseable
    requires Hovering(b, panel, input) && input.down && input.up
    ensures Update(b, panel, input) == Step(b.(state := Moused), true)
  {
  }

  /** Leaving the button cancels a press: a release back over it without a
      new press does not run the action. */
  lemma LeavingCancelsPress(b: Button, panel: Rect, away: MouseInput, back: MouseInput)
    requires b.state == Pressed
    requires !Hovering(b, panel, away) && !away.down && !away.up
    requires !back.down
    ensures var first := Update(b, panel, away);
            !first.fired && !Update(first.button, panel, back).fired
  {
  }

  /** A frame without a release never runs the action, and a frame with no
      mouse event leaves an already-settled state where it is. */
  lemma QuietFrame(b: Button, panel: Rect, input: MouseInput)
    requires !input.down && !input.up
    requires b.state != Mouseable <==> Hovering(b, panel, input)
    ensures Update(b, panel, input) == Step(b, false)
  {
  }
}
