/**
 * The arithmetic of the high-level graphics library gfx.c on top of the
 * ST7735 driver: HSV to RGB conversion, the Bresenham line as the list of
 * pixels it plots, rectangle normalisation before a fill, and the start of a
 * centred string. The driver calls become St7735 operation traces; glyph
 * bitmaps and circles are not modelled.
 */
module Gfx {
  import opened Ints
  import St7735

  // ---------------------------------------------------------------- HSV

  /** A colour as three 8-bit components. */
  datatype Rgb = Rgb(r: U8, g: U8, b: U8)

  /** `(s * v) >> 8`: the chroma, the spread between the largest and the smallest component. */
  function Chroma(s: U8, v: U8): (c: int)
    ensures 0 <= c <= v
    ensures v > 0 ==> c < v
  {
    MulLe(s, 0xFF, v);
    (s * v) / 0x100
  }

  /** `(h * 6) >> 8`: the hue sector, one of six. */
  function Sector(h: U8): (hs: int)
    ensures 0 <= hs < 6
  {
    (h * 6) / 0x100
  }

  /**
   * `256 - |(h * 6) % 512 - 256|`: how far the hue lies from the nearest
   * pure primary or secondary colour, from 0 there to 256 half-way.
   */
  function Ramp(h: U8): (w: int)
    ensures 0 <= w <= 0x100
  {
    0x100 - Abs((h * 6) % 0x200 - 0x100)
  }

  /** Scaling by a weight of at most 256 and shifting right by 8 never grows a value. */
  lemma ScaleLe(c: int, w: int)
    requires 0 <= c && 0 <= w <= 0x100
    ensures 0 <= (c * w) / 0x100 <= c
  {
    MulLe(w, 0x100, c);
    var p := c * w;
    assert 0 <= p <= 0x100 * c;
  }

  /** `X = (C * Cscl) >> 8`: the chroma share of the middle component. */
  function Mid(h: U8, s: U8, v: U8): (x: int)
    ensures 0 <= x <= Chroma(s, v)
  {
    var c, w := Chroma(s, v), Ramp(h);
    ScaleLe(c, w);
    (c * w) / 0x100
  }

  /** The component values of gfx_hsv2rgb's six sectors, with offset m = v - C. */
  function Channels(h: U8, s: U8, v: U8): Rgb
  {
    var c := Chroma(s, v);
    var x := Mid(h, s, v);
    var m := v - c;
    match Sector(h)
    case 0 => Rgb(c + m, x + m, m)
    case 1 => Rgb(x + m, c + m, m)
    case 2 => Rgb(m, c + m, x + m)
    case 3 => Rgb(m, x + m, c + m)
    case 4 => Rgb(x + m, m, c + m)
    case _ => Rgb(c + m, m, x + m)
  }

  /** `(r << 16) | (g << 8) | b`: the fields do not overlap, so the or is a sum. */
  function Pack(c: Rgb): (rgb: U32)
    ensures rgb < 0x100_0000
  {
    c.r * 0x1_0000 + c.g * 0x100 + c.b
  }

  /** The components of a 24-bit colour word. */
  function Unpack(rgb: U32): Rgb
  {
    Rgb((rgb / 0x1_0000) % 0x100, (rgb / 0x100) % 0x100, rgb % 0x100)
  }

  lemma UnpackPack(c: Rgb)
    ensures Unpack(Pack(c)) == c
  {
    var p := Pack(c);
    ModUnique(p, 0x100, c.r * 0x100 + c.g, c.b);
    ModUnique(p / 0x100, 0x100, c.r, c.g);
    ModUnique(p, 0x1_0000, c.r, c.g * 0x100 + c.b);
  }

  /** gfx_hsv2rgb: black when v is 0, otherwise the packed sector components. */
  function Hsv2Rgb(h: U8, s: U8, v: U8): (rgb: U32)
    ensures rgb < 0x100_0000
    ensures v == 0 ==> rgb == 0
  {
    if v == 0 then 0 else Pack(Channels(h, s, v))
  }

  function Max3(c: Rgb): int { Max(c.r, Max(c.g, c.b)) }
  function Min3(c: Rgb): int { Min(c.r, Min(c.g, c.b)) }

  /**
   * For v > 0 the brightest component of the result is v and the darkest is
   * v - ((s * v) >> 8); which component is brightest and which darkest is
   * decided by the hue sector.
   */
  lemma HsvExtremes(h: U8, s: U8, v: U8)
    requires v > 0
    ensures Max3(Unpack(Hsv2Rgb(h, s, v))) == v
    ensures Min3(Unpack(Hsv2Rgb(h, s, v))) == v - (s * v) / 0x100
    ensures Sector(h) in {0, 5} ==> Unpack(Hsv2Rgb(h, s, v)).r == v
    ensures Sector(h) in {1, 2} ==> Unpack(Hsv2Rgb(h, s, v)).g == v
    ensures Sector(h) in {3, 4} ==> Unpack(Hsv2Rgb(h, s, v)).b == v
  {
    UnpackPack(Channels(h, s, v));
  }

  /** Without saturation every component is v: a grey. */
  lemma HsvGrey(h: U8, v: U8)
    ensures Hsv2Rgb(h, 0, v) == v * 0x1_0101
  {
  }

  /**
   * Full saturation loses one step to the `>> 8`: C is 254 for s = v = 255,
   * so the offset m is 1 and pure red comes out as 0xFF0101.
   */
  lemma HsvRedOffset()
    ensures Hsv2Rgb(0, 0xFF, 0xFF) == 0xFF_0101
  {
  }

  // ---------------------------------------------------------------- lines

  datatype Point = Point(x: int, y: int)

  /**
   * The minor-axis offset of the i-th pixel of a line that advances dy
   * minor steps over dx major ones: the smallest k with
   * k * dx >= i * dy - dx / 2, i.e. i * dy / dx rounded to the nearest.
   */
  function Row(i: int, dx: int, dy: int): int
  {
    if dx <= 0 then 0 else (i * dy - dx / 2 + dx - 1) / dx
  }

  /** The error term of gfx_drawline before the i-th pixel. */
  function Err(i: int, dx: int, dy: int): int
  {
    dx / 2 - i * dy + Row(i, dx, dy) * dx
  }

  /** Row is the only offset that keeps the error term in [0, dx). */
  lemma RowUnique(i: int, dx: int, dy: int, k: int)
    requires dx > 0 && 0 <= dx / 2 - i * dy + k * dx < dx
    ensures Row(i, dx, dy) == k
  {
    var n := i * dy - dx / 2 + dx - 1;
    ModUnique(n, dx, k, n - k * dx);
  }

  /** The error term stays in [0, dx): each pixel is within half a pixel of the true line. */
  lemma RowNear(i: int, dx: int, dy: int)
    requires dx > 0
    ensures 0 <= Err(i, dx, dy) < dx
    ensures 2 * Abs(Row(i, dx, dy) * dx - i * dy) <= dx
  {
    var n := i * dy - dx / 2 + dx - 1;
    var k := n / dx;
    assert n == k * dx + n % dx;
  }

  /** The loop's error update: subtract dy, and step the minor axis when it goes negative. */
  lemma RowStep(i: int, dx: int, dy: int)
    requires 0 <= dy <= dx
    ensures Err(i, dx, dy) - dy < 0 ==>
      Row(i + 1, dx, dy) == Row(i, dx, dy) + 1 && Err(i + 1, dx, dy) == Err(i, dx, dy) - dy + dx
    ensures Err(i, dx, dy) - dy >= 0 ==>
      Row(i + 1, dx, dy) == Row(i, dx, dy) && Err(i + 1, dx, dy) == Err(i, dx, dy) - dy
  {
    if dx > 0 {
      RowNear(i, dx, dy);
      var k := Row(i, dx, dy);
      assert (i + 1) * dy == i * dy + dy;
      if Err(i, dx, dy) - dy < 0 {
        assert (k + 1) * dx == k * dx + dx;
        RowUnique(i + 1, dx, dy, k + 1);
      } else {
        RowUnique(i + 1, dx, dy, k);
      }
    }
  }

  /** The first pixel is on the start row, where the error term is dx / 2. */
  lemma RowStart(dx: int, dy: int)
    ensures Row(0, dx, dy) == 0 && Err(0, dx, dy) == dx / 2
  {
    if dx > 0 {
      RowUnique(0, dx, dy, 0);
    }
  }

  /** The first pixel is on the start row and the last on the end row. */
  lemma RowEnds(dx: int, dy: int)
    requires dx > 0
    ensures Row(0, dx, dy) == 0 && Row(dx, dx, dy) == dy
  {
    RowStart(dx, dy);
    assert dx / 2 - dx * dy + dy * dx == dx / 2;
    RowUnique(dx, dx, dy, dy);
  }

  /**
   * The line after gfx_drawline's swaps: in the steep case x and y are
   * exchanged, and the major coordinate runs from a0 up to a1.
   */
  datatype Walk = Walk(steep: bool, a0: int, b0: int, a1: int, b1: int)
  {
    function Dx(): int { a1 - a0 }
    function Dy(): int { Abs(b1 - b0) }
    /** The minor coordinate k steps from b0 towards b1. */
    function Minor(k: int): int { if b0 < b1 then b0 + k else b0 - k }
  }

  function Orient(x0: int, y0: int, x1: int, y1: int): (w: Walk)
    ensures w.a0 <= w.a1 && w.Dy() <= w.Dx()
    ensures w.Dx() == Max(Abs(x1 - x0), Abs(y1 - y0))
  {
    var steep := Abs(y1 - y0) > Abs(x1 - x0);
    var w := if steep then Walk(true, y0, x0, y1, x1) else Walk(false, x0, y0, x1, y1);
    if w.a0 > w.a1 then Walk(w.steep, w.a1, w.b1, w.a0, w.b0) else w
  }

  /** The point drawPixel receives: the steep case swaps back (gfx.c line 238). */
  function Plot(steep: bool, a: int, b: int): Point
  {
    if steep then Point(b, a) else Point(a, b)
  }

  /** The j-th pixel of the line, in closed form. */
  function Pixel(w: Walk, j: int): Point
  {
    Plot(w.steep, w.a0 + j, w.Minor(Row(j, w.Dx(), w.Dy())))
  }

  /** gfx_drawline's coordinates stay far enough from the int16_t limits that no difference or increment wraps. */
  predicate Near(v: int) { -0x4000 <= v < 0x4000 }

  /** gfx_drawline, as the list of points handed to drawPixel. */
  method DrawLine(x0: I16, y0: I16, x1: I16, y1: I16) returns (pts: seq<Point>)
    requires Near(x0) && Near(y0) && Near(x1) && Near(y1)
    ensures |pts| == Max(Abs(x1 - x0), Abs(y1 - y0)) + 1
    ensures forall j :: 0 <= j < |pts| ==> pts[j] == Pixel(Orient(x0, y0, x1, y1), j)
  {
    var steep := Abs(y1 - y0) > Abs(x1 - x0);
    var a0: int, b0: int, a1: int, b1: int := x0, y0, x1, y1;
    if steep {
      a0, b0 := b0, a0;
      a1, b1 := b1, a1;
    }
    if a0 > a1 {
      a0, a1 := a1, a0;
      b0, b1 := b1, b0;
    }
    ghost var w := Walk(steep, a0, b0, a1, b1);
    assert w == Orient(x0, y0, x1, y1);
    assert w.Dx() == a1 - a0 && w.Dy() == Abs(b1 - b0);
    var deltax := a1 - a0;
    var deltay := Abs(b1 - b0);
    var error := deltax / 2;
    var y: int := b0;
    var ystep := if b0 < b1 then 1 else -1;
    pts := [];
    var x: int := a0;
    RowStart(deltax, deltay);
    while x <= a1
      invariant a0 <= x <= a1 + 1
      invariant |pts| == x - a0
      invariant y == w.Minor(Row(x - a0, deltax, deltay))
      invariant error == Err(x - a0, deltax, deltay)
      invariant forall j :: 0 <= j < |pts| ==> pts[j] == Pixel(w, j)
    {
      assert Plot(steep, x, y) == Pixel(w, x - a0);
      pts := pts + [Plot(steep, x, y)];
      RowStep(x - a0, deltax, deltay);
      error := error - deltay;
      if error < 0 {
        y := y + ystep;
        error := error + deltax;
      }
      x := x + 1;
    }
  }

  /** The line starts at one end point and stops at the other, running up the major axis. */
  lemma LineEnds(x0: int, y0: int, x1: int, y1: int)
    ensures var w := Orient(x0, y0, x1, y1);
      (Pixel(w, 0) == Point(x0, y0) && Pixel(w, w.Dx()) == Point(x1, y1))
      || (Pixel(w, 0) == Point(x1, y1) && Pixel(w, w.Dx()) == Point(x0, y0))
  {
    var w := Orient(x0, y0, x1, y1);
    if w.Dx() > 0 {
      RowEnds(w.Dx(), w.Dy());
    } else {
      RowStart(w.Dx(), w.Dy());
    }
  }

  /**
   * Consecutive pixels touch: the major coordinate (y on a steep line, x
   * otherwise) grows by exactly one, the minor one moves by at most one.
   */
  lemma LineSteps(x0: int, y0: int, x1: int, y1: int, j: int)
    requires 0 <= j < Orient(x0, y0, x1, y1).Dx()
    ensures var w := Orient(x0, y0, x1, y1);
      var p, q := Pixel(w, j), Pixel(w, j + 1);
      (w.steep ==> q.y == p.y + 1 && Abs(q.x - p.x) <= 1)
      && (!w.steep ==> q.x == p.x + 1 && Abs(q.y - p.y) <= 1)
  {
    var w := Orient(x0, y0, x1, y1);
    RowStep(j, w.Dx(), w.Dy());
  }

  /** Negating both the minor offset and the minor extent leaves the deviation's size unchanged. */
  lemma FlipDeviation(m: int, d: int, k: int, dy: int, dx: int, j: int)
    requires (m == k && d == dy) || (m == -k && d == -dy)
    ensures Abs(m * dx - j * d) == Abs(k * dx - j * dy)
  {
    if !(m == k && d == dy) {
      assert m * dx == -(k * dx) && j * d == -(j * dy);
    }
  }

  /** The deviation of the j-th pixel's minor coordinate from the ideal line, scaled by dx. */
  lemma WalkNear(w: Walk, j: int)
    requires w.Dy() <= w.Dx() && 0 <= j
    ensures 2 * Abs((w.Minor(Row(j, w.Dx(), w.Dy())) - w.b0) * w.Dx() - j * (w.b1 - w.b0)) <= w.Dx()
  {
    var dx, dy := w.Dx(), w.Dy();
    var k := Row(j, dx, dy);
    if dx > 0 {
      RowNear(j, dx, dy);
    } else {
      RowStart(dx, dy);
    }
    FlipDeviation(w.Minor(k) - w.b0, w.b1 - w.b0, k, dy, dx, j);
  }

  /**
   * Every pixel lies within half a pixel of the straight line through the end
   * points: with the major offset j and the minor offset m from the start,
   * |m * dx - j * (b1 - b0)| <= dx / 2.
   */
  lemma LineNear(x0: int, y0: int, x1: int, y1: int, j: int)
    requires 0 <= j <= Orient(x0, y0, x1, y1).Dx()
    ensures var w := Orient(x0, y0, x1, y1);
      var p := Pixel(w, j);
      var m := (if w.steep then p.x else p.y) - w.b0;
      2 * Abs(m * w.Dx() - j * (w.b1 - w.b0)) <= w.Dx()
  {
    WalkNear(Orient(x0, y0, x1, y1), j);
  }

  // ---------------------------------------------------------------- rectangles

  datatype Rect = Rect(x0: I16, y0: I16, x1: I16, y1: I16)

  /** gfx_colorrect's inversion check: swap each pair of corners that is out of order. */
  function Normalise(r: Rect): (n: Rect)
    ensures n.x0 == Min(r.x0, r.x1) && n.x1 == Max(r.x0, r.x1)
    ensures n.y0 == Min(r.y0, r.y1) && n.y1 == Max(r.y0, r.y1)
  {
    var r1 := if r.x0 > r.x1 then r.(x0 := r.x1, x1 := r.x0) else r;
    if r1.y0 > r1.y1 then r1.(y0 := r1.y1, y1 := r1.y0) else r1
  }

  /** Normalising keeps the corners and is idempotent. */
  lemma NormaliseKeeps(r: Rect)
    ensures {Normalise(r).x0, Normalise(r).x1} == {r.x0, r.x1}
    ensures {Normalise(r).y0, Normalise(r).y1} == {r.y0, r.y1}
    ensures Normalise(Normalise(r)) == Normalise(r)
  {
  }

  /**
   * gfx_colorrect: the caller's rectangle comes back normalised, and the
   * fill covers x1 - x0 + 1 by y1 - y0 + 1 pixels from the top left corner;
   * the sizes are `int16_t` parameters and the colour a `uint16_t` one.
   */
  function ColorRect(g: St7735.Lcd, r: Rect, color: U32): (res: (Rect, seq<St7735.Op>))
    ensures res.0 == Normalise(r)
  {
    var n := Normalise(r);
    (n, St7735.FillRect(g, n.x0, n.y0, Wrap16(n.x1 - n.x0 + 1), Wrap16(n.y1 - n.y0 + 1), ToU16(color)))
  }

  /**
   * A rectangle whose corners lie on the screen, given in either order, is
   * filled exactly: the window spans the columns and rows between the
   * corners (the least to the greatest, by Normalise's contract), offset by
   * the panel's start.
   */
  lemma ColorRectFills(g: St7735.Lcd, r: Rect, color: U32)
    requires St7735.Fits(g)
    requires 0 <= r.x0 < g.width && 0 <= r.x1 < g.width && 0 <= r.y0 < g.height && 0 <= r.y1 < g.height
    ensures |ColorRect(g, r, color).1| == 12
    ensures var n := Normalise(r);
      St7735.WindowOf(ColorRect(g, r, color).1)
      == (n.x0 + g.colStart, n.x1 + g.colStart, n.y0 + g.rowStart, n.y1 + g.rowStart)
  {
    NormalFill(g, Normalise(r), ToU16(color));
  }

  /** The fill of a normalised on-screen rectangle opens the window between its corners. */
  lemma NormalFill(g: St7735.Lcd, n: Rect, c: U16)
    requires St7735.Fits(g)
    requires 0 <= n.x0 <= n.x1 < g.width && 0 <= n.y0 <= n.y1 < g.height
    ensures |St7735.FillRect(g, n.x0, n.y0, Wrap16(n.x1 - n.x0 + 1), Wrap16(n.y1 - n.y0 + 1), c)| == 12
    ensures St7735.WindowOf(St7735.FillRect(g, n.x0, n.y0, Wrap16(n.x1 - n.x0 + 1), Wrap16(n.y1 - n.y0 + 1), c))
      == (n.x0 + g.colStart, n.x1 + g.colStart, n.y0 + g.rowStart, n.y1 + g.rowStart)
  {
    var w, h := n.x1 - n.x0 + 1, n.y1 - n.y0 + 1;
    assert Wrap16(w) == w && Wrap16(h) == h;
    St7735.FillInside(g, n.x0, n.y0, w, h, c);
  }

  // ---------------------------------------------------------------- text

  /** gfx_drawstr's glyph positions: each character advances x, an `int16_t`, by 8 * txtsz. */
  function Starts(x: I16, len: nat, txtsz: U8): (xs: seq<I16>)
    ensures |xs| == len
    ensures len > 0 ==> xs[0] == x
    decreases len
  {
    if len == 0 then [] else [x] + Starts(Wrap16(x + 8 * txtsz), len - 1, txtsz)
  }

  /** Without wrap-around, the i-th glyph starts i * 8 * txtsz to the right. */
  lemma {:induction false} StartsSpaced(x: I16, len: nat, txtsz: U8, i: nat)
    requires i < len && x + len * (8 * txtsz) <= 0x7FFF
    ensures Starts(x, len, txtsz)[i] == x + i * (8 * txtsz)
    decreases i
  {
    if i > 0 {
      var st := 8 * txtsz;
      var x' := x + st;
      assert x' + (len - 1) * st <= 0x7FFF && x' <= 0x7FFF by {
        OneLess(len, st);
      }
      assert Starts(x, len, txtsz)[i] == Starts(x', len - 1, txtsz)[i - 1];
      StartsSpaced(x', len - 1, txtsz, i - 1);
      OneLess(i, st);
    }
  }

  /** (n - 1) * s = n * s - s, and n * s >= s for n >= 1 and s >= 0. */
  lemma OneLess(n: int, s: int)
    requires n >= 1 && s >= 0
    ensures (n - 1) * s == n * s - s && n * s >= s
  {
    MulLe(1, n, s);
  }

  /**
   * gfx_drawstrctr: the string's pixel width strlen * 8 * txtsz is stored in
   * an `int16_t`, halved with C's division and subtracted from x.
   */
  function StrCtr(x: I16, len: nat, txtsz: U8): (x0: I16)
    // a width that fits moves the start half of it to the left, modulo 2^16
    ensures len * 8 * txtsz <= 0x7FFF ==> x0 == Wrap16(x - len * 4 * txtsz)
  {
    var width := Wrap16(len * 8 * txtsz);
    if len * 8 * txtsz <= 0x7FFF then
      assert len * 8 * txtsz == 2 * (len * 4 * txtsz);
      Halve(len * 8 * txtsz, len * 4 * txtsz);
      Wrap16(x - TDiv(width, 2))
    else
      Wrap16(x - TDiv(width, 2))
  }

  /**
   * When the width fits an `int16_t` and nothing wraps, the string is centred
   * exactly on x: the width is a multiple of 8, so it starts as far left of x
   * as it ends right of it.
   */
  lemma StrCentred(x: I16, len: nat, txtsz: U8)
    requires len * 8 * txtsz <= 0x7FFF && x - len * 4 * txtsz >= -0x8000
    ensures StrCtr(x, len, txtsz) == x - len * 4 * txtsz
    ensures x - StrCtr(x, len, txtsz) == StrCtr(x, len, txtsz) + len * 8 * txtsz - x
  {
    var half := len * 4 * txtsz;
    assert len * 8 * txtsz == 2 * half;
    Halve(len * 8 * txtsz, half);
  }

  /** An even `int16_t` width halves exactly. */
  lemma Halve(width: int, half: int)
    requires width == 2 * half && 0 <= width <= 0x7FFF
    ensures TDiv(Wrap16(width), 2) == half
  {
  }

  // ---------------------------------------------------------------- start-up

  /** The driver's screen size as gfx sees it: xmax 160 by ymax 80. */
  const XMax := St7735.TftHeight
  const YMax := St7735.TftWidth

  /** gfx_init's background colour, Color565 of black. */
  lemma BlackIsZero()
    ensures St7735.Color565(0) == 0
  {
  }

  /**
   * gfx_init after the driver's own init: rotation 3, then gfx_clrscreen
   * fills (0, 0, xmax, ymax) with the background colour `back` (Color565 of
   * black, see BlackIsZero).
   */
  function Start(back: U16): (r: (St7735.Lcd, seq<St7735.Op>))
    // landscape: 160 columns by 80 rows, the panel's offset on the short axis
    ensures r.0 == St7735.Lcd(St7735.Offset, 0, XMax, YMax, 3)
  {
    var rot := St7735.SetRotation(3);
    (rot.0, rot.1 + St7735.FillRect(rot.0, 0, 0, XMax, YMax, back))
  }

  /** The start-up screen is landscape and the clear covers all of it. */
  lemma StartClears(back: U16)
    ensures Start(back).0 == St7735.Lcd(St7735.Offset, 0, XMax, YMax, 3)
    ensures |Start(back).1| == 14
    ensures St7735.WindowOf(Start(back).1[2..]) == (0, XMax - 1, St7735.Offset, St7735.Offset + YMax - 1)
    ensures Start(back).1[13] == St7735.Pixels(XMax, YMax, back)
  {
    var g := St7735.Lcd(St7735.Offset, 0, XMax, YMax, 3);
    assert St7735.SetRotation(3).0 == g;
    var fill := St7735.FillRect(g, 0, 0, XMax, YMax, back);
    assert Start(back).1 == St7735.SetRotation(3).1 + fill;
    assert |fill| == 12 && St7735.WindowOf(fill) == (0, XMax - 1, St7735.Offset, St7735.Offset + YMax - 1) by {
      LandscapeClear(g, back);
    }
    assert Start(back).1[2..] == fill;
  }

  /** The clear of the landscape screen opens the whole window. */
  lemma LandscapeClear(g: St7735.Lcd, back: U16)
    requires g == St7735.Lcd(St7735.Offset, 0, XMax, YMax, 3)
    ensures |St7735.FillRect(g, 0, 0, XMax, YMax, back)| == 12
    ensures St7735.WindowOf(St7735.FillRect(g, 0, 0, XMax, YMax, back))
      == (0, XMax - 1, St7735.Offset, St7735.Offset + YMax - 1)
    ensures St7735.FillRect(g, 0, 0, XMax, YMax, back)[11] == St7735.Pixels(XMax, YMax, back)
  {
    St7735.FillInside(g, 0, 0, XMax, YMax, back);
  }

  /** The clear sends 160 * 80 pixels: the product fits the `int16_t` count. */
  lemma StartCount(w: int, h: int, back: U16)
    requires w == XMax && h == YMax
    ensures St7735.Count(St7735.Pixels(w, h, back)) == XMax * YMax
  {
    St7735.AreaFits(w, h);
  }
}
