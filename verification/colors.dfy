/** RGBA colours (src/Graphical/Color.cs): the three constructors, the named
    constants and the conversion to SDL's colour struct. */
module Colors {

  /** A C# `byte`. */
  type byte = x: int | 0 <= x < 256

  /** A C# `long`. */
  type long = x: int | -0x8000_0000_0000_0000 <= x < 0x8000_0000_0000_0000

  /** The four-argument constructor Color(r, g, b, a) stores its arguments. */
  datatype Color = Color(r: byte, g: byte, b: byte, a: byte)

  /** The hexadecimal notation 0xRRGGBBAA of a colour. */
  function Packed(c: Color): nat {
    c.r * 0x100_0000 + c.g * 0x1_0000 + c.b * 0x100 + c.a
  }

  /** The three-argument constructor: full opacity. */
  function Rgb(r: byte, g: byte, b: byte): (c: Color)
    ensures c.a == 255
    ensures c.r == r && c.g == g && c.b == b
  {
    Color(r, g, b, 255)
  }

  /** The constructor from a long: R, G, B and A are bits 24-31, 16-23, 8-15
      and 0-7 of the two's-complement value. Masking a long with 0xFF << k and
      shifting right by k is floor division by 2^k followed by reduction
      modulo 256, for negative values too. */
  function FromLong(v: long): (c: Color)
    ensures Packed(c) == v % 0x1_0000_0000
  {
    var low := v % 0x1_0000_0000;
    SplitBytes(low);
    Color(low / 0x100_0000, (low / 0x1_0000) % 0x100, (low / 0x100) % 0x100, low % 0x100)
  }

  /** A 32-bit value is the sum of its four bytes in their places. */
  lemma SplitBytes(low: int)
    requires 0 <= low < 0x1_0000_0000
    ensures low / 0x100_0000 < 0x100
    ensures low == (low / 0x100_0000) * 0x100_0000 + ((low / 0x1_0000) % 0x100) * 0x1_0000
                   + ((low / 0x100) % 0x100) * 0x100 + low % 0x100
  {
    var a, q1 := low % 0x100, low / 0x100;
    var b, q2 := q1 % 0x100, q1 / 0x100;
    var g, r := q2 % 0x100, q2 / 0x100;
    assert low == q2 * 0x1_0000 + (b * 0x100 + a);
    DivModUnique(low, q2, b * 0x100 + a, 0x1_0000);
    assert low == r * 0x100_0000 + (g * 0x1_0000 + b * 0x100 + a);
    DivModUnique(low, r, g * 0x1_0000 + b * 0x100 + a, 0x100_0000);
  }

  /** Round trip: packing four bytes as 0xRRGGBBAA and decoding gives them back. */
  lemma FromLongOfPacked(c: Color)
    ensures FromLong(Packed(c)) == c
  {
    var p := Packed(c);
    assert 0 <= p < 0x1_0000_0000;
    DivModUnique(p, 0, p, 0x1_0000_0000);
    var d := FromLong(p);
    assert Packed(d) == p;
    PackedInjective(c, d);
  }

  lemma PackedInjective(c: Color, d: Color)
    requires Packed(c) == Packed(d)
    ensures c == d
  {
    var lowC := c.g * 0x1_0000 + c.b * 0x100 + c.a;
    var lowD := d.g * 0x1_0000 + d.b * 0x100 + d.a;
    DivModUnique(Packed(c), c.r, lowC, 0x100_0000);
    DivModUnique(Packed(d), d.r, lowD, 0x100_0000);
    DivModUnique(lowC, c.g, c.b * 0x100 + c.a, 0x1_0000);
    DivModUnique(lowD, d.g, d.b * 0x100 + d.a, 0x1_0000);
    DivModUnique(c.b * 0x100 + c.a, c.b, c.a, 0x100);
    DivModUnique(d.b * 0x100 + d.a, d.b, d.a, 0x100);
  }

  /** Quotient and remainder are determined by the value. */
  lemma DivModUnique(p: int, q: int, r: int, k: int)
    requires k > 0 && 0 <= r < k && p == q * k + r
    ensures p / k == q && p % k == r
  {
    var q', r' := p / k, p % k;
    assert (q - q') * k == r' - r;
    if q > q' {
      MulAtLeast(q - q', k);
    } else if q < q' {
      MulAtLeast(q' - q, k);
    }
  }

  lemma MulAtLeast(n: int, k: int)
    requires n >= 1 && k > 0
    ensures n * k >= k
  {
  }

  const White: Color := FromLong(0xFFFF_FFFF)
  const Cyan: Color := FromLong(0x00FF_FFFF)
  const Magenta: Color := FromLong(0xFF00_FFFF)
  const Yellow: Color := FromLong(0xFFFF_00FF)
  const Red: Color := FromLong(0xFF00_00FF)
  const Green: Color := FromLong(0x00FF_000F)
  const Blue: Color := FromLong(0x0000_FFFF)
  const Black: Color := FromLong(0x0000_00FF)

  /* Each named constant decodes to the components its hex literal spells.
     One lemma per constant: stating them together makes the solver unfold
     every literal decoding at once. */

  lemma WhiteComponents()
    ensures White == Color(255, 255, 255, 255)
  {
    Decodes(0xFFFF_FFFF, Color(255, 255, 255, 255));
  }

  lemma CyanComponents()
    ensures Cyan == Color(0, 255, 255, 255)
  {
    Decodes(0x00FF_FFFF, Color(0, 255, 255, 255));
  }

  lemma MagentaComponents()
    ensures Magenta == Color(255, 0, 255, 255)
  {
    Decodes(0xFF00_FFFF, Color(255, 0, 255, 255));
  }

  lemma YellowComponents()
    ensures Yellow == Color(255, 255, 0, 255)
  {
    Decodes(0xFFFF_00FF, Color(255, 255, 0, 255));
  }

  lemma RedComponents()
    ensures Red == Color(255, 0, 0, 255)
  {
    Decodes(0xFF00_00FF, Color(255, 0, 0, 255));
  }

  /** Green is the one named colour whose alpha is 0x0F rather than 0xFF. */
  lemma GreenComponents()
    ensures Green == Color(0, 255, 0, 15)
  {
    Decodes(0x00FF_000F, Color(0, 255, 0, 15));
  }

  lemma BlueComponents()
    ensures Blue == Color(0, 0, 255, 255)
  {
    Decodes(0x0000_FFFF, Color(0, 0, 255, 255));
  }

  lemma BlackComponents()
    ensures Black == Color(0, 0, 0, 255)
  {
    Decodes(0x0000_00FF, Color(0, 0, 0, 255));
  }

  lemma Decodes(v: long, c: Color)
    requires Packed(c) == v
    ensures FromLong(v) == c
  {
    FromLongOfPacked(c);
  }

  /** SDL's colour struct. */
  datatype SdlColor = SdlColor(r: byte, g: byte, b: byte, a: byte)

  /** Color.SDLColor copies the four components. */
  function ToSdl(c: Color): (s: SdlColor)
    ensures s.r == c.r && s.g == c.g && s.b == c.b && s.a == c.a
  {
    SdlColor(c.r, c.g, c.b, c.a)
  }
}
