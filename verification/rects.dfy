/** Screen rectangles with 32-bit integer fields (src/Graphical/Rect.cs). */
module Rects {
  import opened Numerics

  /** The constructor stores its four arguments. */
  datatype Rect = Rect(x: int32, y: int32, w: int32, h: int32)

  /** SDL's rectangle struct. */
  datatype SdlRect = SdlRect(x: int32, y: int32, w: int32, h: int32)

  /** Rect.Set: this rectangle takes over every field of `other`. */
  function Set(target: Rect, other: Rect): (r: Rect)
    ensures r.x == other.x && r.y == other.y && r.w == other.w && r.h == other.h
  {
    target.(x := other.x, y := other.y, w := other.w, h := other.h)
  }

  /** Rect.Rct: the same four values as an SDL rectangle. */
  function Rct(r: Rect): (s: SdlRect)
    ensures s.x == r.x && s.y == r.y && s.w == r.w && s.h == r.h
  {
    SdlRect(r.x, r.y, r.w, r.h)
  }

  /** `(int) (origin + (extent - s) / 2.0)`: the int subtraction wraps, the
      sum is a double, and the cast truncates toward zero. */
  function CentredOffset(origin: int32, extent: int32, s: int32): (n: int)
    ensures var v := origin as real + Wrap32(extent - s) as real / 2.0;
            && (v >= 0.0 ==> n as real <= v < n as real + 1.0)
            && (v < 0.0 ==> n as real - 1.0 < v <= n as real)
  {
    TruncToZero(origin as real + Wrap32(extent - s) as real / 2.0)
  }

  /** C# leaves a cast of an out-of-range double to int unspecified; Square
      is modelled where both offsets fit in an int. */
  predicate SquareFits(r: Rect) {
    var s := Min(r.w, r.h);
    InInt32(CentredOffset(r.x, r.w, s)) && InInt32(CentredOffset(r.y, r.h, s))
  }

  /** Rect.Square: the largest centred square, of side min(W, H), each
      corner coordinate the truncated centring offset on its axis. */
  function Square(r: Rect): (q: Rect)
    requires SquareFits(r)
    ensures q.w == q.h == Min(r.w, r.h)
    ensures q.x == CentredOffset(r.x, r.w, q.w) && q.y == CentredOffset(r.y, r.h, q.h)
    ensures r.w <= r.h ==> q.x == r.x
    ensures r.h <= r.w ==> q.y == r.y
  {
    var s := Min(r.w, r.h);
    Rect(CentredOffset(r.x, r.w, s), CentredOffset(r.y, r.h, s), s, s)
  }

  /** A square is its own squaring. */
  lemma SquareIdempotent(r: Rect)
    requires SquareFits(r)
    ensures SquareFits(Square(r))
    ensures Square(Square(r)) == Square(r)
  {
  }

  /** For non-negative extents no wrap occurs, and the square lies inside the
      rectangle on both axes. */
  lemma SquareInside(r: Rect)
    requires SquareFits(r)
    requires r.w >= 0 && r.h >= 0
    ensures var q := Square(r);
            r.x <= q.x && q.x + q.w <= r.x + r.w &&
            r.y <= q.y && q.y + q.h <= r.y + r.h
  {
    var s := Min(r.w, r.h);
    OffsetInside(r.x, r.w, s);
    OffsetInside(r.y, r.h, s);
  }

  lemma OffsetInside(origin: int32, extent: int32, s: int32)
    requires 0 <= s <= extent
    ensures origin <= CentredOffset(origin, extent, s)
    ensures CentredOffset(origin, extent, s) + s <= origin + extent
  {
    var d := extent - s;
    assert Wrap32(d) == d;
    var v := origin as real + d as real / 2.0;
    var n := CentredOffset(origin, extent, s);
    if v >= 0.0 {
      assert n as real <= v;
    } else {
      assert v <= n as real < v + 1.0;
      if d == 0 {
        assert v == origin as real;
      }
    }
  }

  /** Truncation toward zero decides which side gets the odd pixel: with a
      non-negative exact centre the square sits up to one pixel nearer the
      low edge, with a negative one up to one pixel nearer the high edge.
      `left` and `right` are the margins either side of the square. */
  lemma OffsetBalanced(origin: int32, extent: int32, s: int32)
    requires 0 <= s <= extent
    ensures var n := CentredOffset(origin, extent, s);
            var left := n - origin;
            var right := origin + extent - (n + s);
            && (origin as real + (extent - s) as real / 2.0 >= 0.0 ==> 0 <= right - left <= 1)
            && (origin as real + (extent - s) as real / 2.0 < 0.0 ==> -1 <= right - left <= 0)
  {
    var d := extent - s;
    assert Wrap32(d) == d;
    var v := origin as real + d as real / 2.0;
    var n := CentredOffset(origin, extent, s);
    var diff := origin + extent - (n + s) - (n - origin);
    assert diff as real == 2.0 * (v - n as real);
  }

  /** On both axes of a rectangle with non-negative extents, the square's
      margins differ by at most one pixel, the extra one on the side that
      truncation toward zero leaves it. */
  lemma SquareBalanced(r: Rect)
    requires SquareFits(r)
    requires r.w >= 0 && r.h >= 0
    ensures var q := Square(r);
            var left, right := q.x - r.x, r.x + r.w - (q.x + q.w);
            && (r.x as real + (r.w - q.w) as real / 2.0 >= 0.0 ==> 0 <= right - left <= 1)
            && (r.x as real + (r.w - q.w) as real / 2.0 < 0.0 ==> -1 <= right - left <= 0)
    ensures var q := Square(r);
            var top, bottom := q.y - r.y, r.y + r.h - (q.y + q.h);
            && (r.y as real + (r.h - q.h) as real / 2.0 >= 0.0 ==> 0 <= bottom - top <= 1)
            && (r.y as real + (r.h - q.h) as real / 2.0 < 0.0 ==> -1 <= bottom - top <= 0)
  {
    var s := Min(r.w, r.h);
    OffsetBalanced(r.x, r.w, s);
    OffsetBalanced(r.y, r.h, s);
  }
}
