/**
 * The ST7735 display driver's arithmetic (st7735.c): the RGB888/RGB565
 * colour conversions, the rotation geometry, the clipping of pixels and
 * filled rectangles, and the walk over the initialisation command list.
 *
 * The SPI port is a trace of operations: a command byte (DC low), a data
 * byte (DC high), a pause, or a run of identical 16-bit pixels. GPIO
 * toggling, chip select and the SPI set-up are left to the hardware.
 */
module St7735 {
  import opened Ints

  /** ST7735_TFTWIDTH x ST7735_TFTHEIGHT: the panel in its native orientation. */
  const TftWidth := 80
  const TftHeight := 160
  /** The panel's offset in the controller's memory along its short side. */
  const Offset := 24

  /** Flags of an init-list entry: ST_CMD, ST_CMD_DELAY and the ST_CMD_END marker. */
  const StCmd := 0x100
  const StDelay := 0x200
  const StEnd := 0x400

  const CaSet := 0x2A
  const RaSet := 0x2B
  const RamWr := 0x2C
  const MadCtl := 0x36

  /** One operation on the display's SPI port. */
  datatype Op =
    | Cmd(b: U8)                  // a byte sent with DC low
    | Data(b: U8)                 // a byte sent with DC high
    | Sleep(ms: nat)              // a pause between bytes
    | Pixels(w: int, h: int, color: U16)  // a w by h block of one 16-bit pixel, low byte first

  /**
   * The number of pixels a block sends: drawPixel sends one; fillRect stores
   * `w * h` in the `int16_t` w and sends while `w--` is non-zero, so a
   * negative product counts down through the wrap-around.
   */
  function Count(op: Op): (n: U16)
    requires op.Pixels?
  {
    ToU16(Wrap16(Mul(op.w, op.h)))
  }

  /** The driver's globals: panel offsets, logical size and rotation. */
  datatype Lcd = Lcd(rowStart: U8, colStart: U8, width: U16, height: U16, rotation: U16)

  // ---------------------------------------------------------------- colours

  /** __REVSH, as the drivers use it: swap the two bytes of a half-word. */
  function Swap(x: bv16): (r: bv16)
    ensures r >> 8 == x & 0xFF && r & 0xFF == x >> 8
  {
    (x << 8) | (x >> 8)
  }

  lemma SwapSwap(x: bv16)
    ensures Swap(Swap(x)) == x
  {
  }

  /**
   * ST7735_Color565: keep the top 5, 6 and 5 bits of red, green and blue,
   * pack them red-highest into a half-word, then swap its bytes so that the
   * low-byte-first SPI transfer sends the high byte first.
   */
  function Color565(rgb24: bv32): (c: bv16)
    ensures Swap(c) >> 11 == ((rgb24 >> 19) & 0x1F) as bv16
    ensures (Swap(c) >> 5) & 0x3F == ((rgb24 >> 10) & 0x3F) as bv16
    ensures Swap(c) & 0x1F == ((rgb24 >> 3) & 0x1F) as bv16
  {
    var packed := ((((rgb24 >> 16) & 0xF8) << 8) | (((rgb24 >> 8) & 0xFC) << 3) | ((rgb24 & 0xF8) >> 3)) as bv16;
    Swap(packed)
  }

  /**
   * ST7735_ColorRGB: undo the byte swap and spread the 5/6/5 fields back to
   * the top of three 8-bit channels; the bits lost in packing come back as 0.
   */
  function ColorRgb(color16: bv16): (rgb: bv32)
    ensures rgb >> 24 == 0 && rgb & 0x070307 == 0
  {
    var s := Swap(color16) as bv32;
    (((s & 0xF800) >> 8) << 16) | (((s & 0x07E0) >> 3) << 8) | ((s & 0x001F) << 3)
  }

  /** Unpacking a packed colour gives the colour with its dropped low bits cleared. */
  lemma RgbRoundTrip(c: bv32)
    ensures ColorRgb(Color565(c)) == c & 0xF8FCF8
  {
  }

  /** Packing an unpacked colour gives the colour back: every 16-bit value is a colour. */
  lemma PackedRoundTrip(x: bv16)
    ensures Color565(ColorRgb(x)) == x
  {
  }

  // ---------------------------------------------------------------- geometry

  /** The MADCTL argument for each rotation: row/column exchange (0x20), mirroring (0x40, 0x80) and the colour-order bit 0x08. */
  function MadCtlArg(rotation: int): (arg: U8)
    requires 0 <= rotation < 4
    ensures (arg / 0x20) % 2 == 1 <==> rotation % 2 == 1
    ensures (arg / 0x08) % 2 == 1
  {
    match rotation
    case 0 => 0x08 + 0x40 + 0x80
    case 1 => 0x08 + 0x80 + 0x20
    case 2 => 0x08
    case 3 => 0x08 + 0x40 + 0x20
  }

  /**
   * ST7735_setRotation: rotation m % 4; even rotations are portrait with the
   * panel 24 columns into the controller's memory, odd ones landscape with
   * it 24 rows in. Sends MADCTL and its argument.
   */
  function SetRotation(m: U8): (r: (Lcd, seq<Op>))
    ensures r.0.rotation == m % 4
    ensures r.0.rotation % 2 == 0 ==> r.0.width == TftWidth && r.0.height == TftHeight
    ensures r.0.rotation % 2 == 0 ==> r.0.colStart == Offset && r.0.rowStart == 0
    ensures r.0.rotation % 2 == 1 ==> r.0.width == TftHeight && r.0.height == TftWidth
    ensures r.0.rotation % 2 == 1 ==> r.0.rowStart == Offset && r.0.colStart == 0
    ensures r.1 == [Cmd(MadCtl), Data(MadCtlArg(m % 4))]
  {
    var rot := m % 4;
    var lcd := if rot % 2 == 0 then Lcd(0, Offset, TftWidth, TftHeight, rot)
               else Lcd(Offset, 0, TftHeight, TftWidth, rot);
    (lcd, [Cmd(MadCtl), Data(MadCtlArg(rot))])
  }

  /** The geometry a rotation sets up. */
  ghost predicate Geometry(g: Lcd)
  {
    0 <= g.rotation < 4
    && (g.rotation % 2 == 0 ==> g == Lcd(0, Offset, TftWidth, TftHeight, g.rotation))
    && (g.rotation % 2 == 1 ==> g == Lcd(Offset, 0, TftHeight, TftWidth, g.rotation))
  }

  /** Neither side of the logical screen exceeds the panel's long side, so its coordinates fit a byte. */
  predicate Fits(g: Lcd)
  {
    g.width <= TftHeight && g.height <= TftHeight
  }

  /**
   * Every rotation shows the same 80 x 160 panel, and the exchange of rows
   * and columns in MADCTL happens exactly when width and height swap.
   */
  lemma RotationShape(m: U8)
    ensures Geometry(SetRotation(m).0) && Fits(SetRotation(m).0)
    ensures SetRotation(m).0.width * SetRotation(m).0.height == TftWidth * TftHeight
    ensures (MadCtlArg(m % 4) / 0x20) % 2 == 1 <==> SetRotation(m).0.width == TftHeight
    ensures SetRotation(m) == SetRotation(m % 4)
  {
  }

  // ---------------------------------------------------------------- windows

  /**
   * The two bytes of a `uint16_t` coordinate sum, high byte first. A
   * `uint8_t` corner plus a `uint8_t` start never exceeds 16 bits.
   */
  function Coord(v: U16): seq<Op>
  {
    [Data(v / 0x100), Data(v % 0x100)]
  }

  /**
   * ST7735_setAddrWindow: column and row ranges, each offset by the panel's
   * start, then RAMWR. The corners are `uint8_t` parameters.
   */
  function AddrWindow(g: Lcd, x0: U8, y0: U8, x1: U8, y1: U8): (ops: seq<Op>)
    ensures |ops| == 11
  {
    [Cmd(CaSet)] + Coord(x0 + g.colStart) + Coord(x1 + g.colStart)
    + [Cmd(RaSet)] + Coord(y0 + g.rowStart) + Coord(y1 + g.rowStart) + [Cmd(RamWr)]
  }

  /** The controller's reading of a coordinate pair. */
  function Word(hi: Op, lo: Op): int
  {
    match (hi, lo)
    case (Data(h), Data(l)) => h * 0x100 + l
    case _ => -1
  }

  /** The window a command sequence opens: columns c0..c1 and rows r0..r1. */
  function WindowOf(ops: seq<Op>): (w: (int, int, int, int))
    requires |ops| >= 11
  {
    (Word(ops[1], ops[2]), Word(ops[3], ops[4]), Word(ops[6], ops[7]), Word(ops[8], ops[9]))
  }

  /** Only the first eleven operations decide the window. */
  lemma WindowPrefix(a: seq<Op>, b: seq<Op>)
    requires |a| >= 11
    ensures WindowOf(a + b) == WindowOf(a)
  {
  }

  lemma CoordWord(v: U16)
    ensures Word(Coord(v)[0], Coord(v)[1]) == v
  {
  }

  /** The controller reads back the offset corners of every window. */
  lemma WindowRoundTrip(g: Lcd, x0: U8, y0: U8, x1: U8, y1: U8)
    ensures WindowOf(AddrWindow(g, x0, y0, x1, y1))
      == (x0 + g.colStart, x1 + g.colStart, y0 + g.rowStart, y1 + g.rowStart)
  {
    var ops := AddrWindow(g, x0, y0, x1, y1);
    CoordWord(x0 + g.colStart);
    CoordWord(x1 + g.colStart);
    CoordWord(y0 + g.rowStart);
    CoordWord(y1 + g.rowStart);
    assert ops[1..3] == Coord(x0 + g.colStart) && ops[3..5] == Coord(x1 + g.colStart);
    assert ops[6..8] == Coord(y0 + g.rowStart) && ops[8..10] == Coord(y1 + g.rowStart);
  }

  // ---------------------------------------------------------------- drawing

  /**
   * ST7735_drawPixel: nothing outside the logical screen, else the inclusive
   * window x..x+1 by y..y+1 (two by two) and one pixel.
   */
  function DrawPixel(g: Lcd, x: I16, y: I16, color: U16): (ops: seq<Op>)
    ensures ops == [] <==> x < 0 || x >= g.width || y < 0 || y >= g.height
    ensures ops != [] ==> |ops| == 12
  {
    if x < 0 || x >= g.width || y < 0 || y >= g.height then []
    else AddrWindow(g, ToU8(x), ToU8(y), ToU8(x + 1), ToU8(y + 1)) + [Pixels(1, 1, color)]
  }

  /**
   * A pixel on the screen lands at its coordinates offset by the panel's
   * start: the `uint8_t` corners never truncate on a rotation's geometry.
   */
  lemma PixelLands(g: Lcd, x: I16, y: I16, color: U16)
    requires Fits(g) && 0 <= x < g.width && 0 <= y < g.height
    ensures |DrawPixel(g, x, y, color)| == 12
    ensures WindowOf(DrawPixel(g, x, y, color))
      == (x + g.colStart, x + 1 + g.colStart, y + g.rowStart, y + 1 + g.rowStart)
    ensures DrawPixel(g, x, y, color)[11] == Pixels(1, 1, color)
  {
    WindowRoundTrip(g, x, y, x + 1, y + 1);
  }

  /** The width and height ST7735_fillRect keeps after clipping against the right and bottom edges. */
  function ClipW(g: Lcd, x: I16, w: I16): I16
  {
    if x + w - 1 >= g.width then Wrap16(g.width - x) else w
  }

  function ClipH(g: Lcd, y: I16, h: I16): I16
  {
    if y + h - 1 >= g.height then Wrap16(g.height - y) else h
  }

  /**
   * ST7735_fillRect: nothing when the corner is right of or below the
   * screen; otherwise the window over the clipped rectangle and
   * `w * h` pixels. The product is stored in the `int16_t` w and counted
   * down by `while (w--)`, which stops after `w * h` modulo 2^16 passes.
   */
  function FillRect(g: Lcd, x: I16, y: I16, w: I16, h: I16, color: U16): (ops: seq<Op>)
    ensures ops == [] <==> x >= g.width || y >= g.height
    ensures ops != [] ==> |ops| == 12
  {
    if x >= g.width || y >= g.height then []
    else
      var cw := ClipW(g, x, w);
      var ch := ClipH(g, y, h);
      AddrWindow(g, ToU8(x), ToU8(y), ToU8(x + cw - 1), ToU8(y + ch - 1))
      + [Pixels(cw, ch, color)]
  }

  /** Clipping a span that starts on the screen keeps min(w, size - x) of it. */
  lemma ClipSpan(size: int, x: I16, w: I16)
    requires 0 <= x < size <= TftHeight && w >= 1
    ensures var c := if x + w - 1 >= size then Wrap16(size - x) else w;
      c == Min(w, size - x) && 1 <= c <= TftHeight && x + c <= size
  {
  }

  /** A clipped area is small enough for the `int16_t` pixel count. */
  lemma AreaFits(a: int, b: int)
    requires 1 <= a <= TftHeight && 1 <= b <= TftHeight
    ensures Wrap16(Mul(a, b)) == a * b && ToU16(a * b) == a * b
  {
    MulIsProduct(a, b);
    MulLe(a, TftHeight, b);
    MulLe(b, TftHeight, TftHeight);
  }

  /** The window ST7735_fillRect opens is the one over its clipped rectangle. */
  lemma FillOpens(g: Lcd, x: I16, y: I16, w: I16, h: I16, color: U16)
    requires x < g.width && y < g.height
    ensures WindowOf(FillRect(g, x, y, w, h, color))
      == WindowOf(AddrWindow(g, ToU8(x), ToU8(y), ToU8(x + ClipW(g, x, w) - 1), ToU8(y + ClipH(g, y, h) - 1)))
  {
    var cw := ClipW(g, x, w);
    var ch := ClipH(g, y, h);
    var win := AddrWindow(g, ToU8(x), ToU8(y), ToU8(x + cw - 1), ToU8(y + ch - 1));
    assert FillRect(g, x, y, w, h, color) == win + [Pixels(cw, ch, color)];
    WindowPrefix(win, [Pixels(cw, ch, color)]);
  }

  /** A window whose corners lie on the screen reaches the controller unchanged. */
  lemma ScreenWindow(g: Lcd, x: I16, y: I16, cw: int, ch: int)
    requires Fits(g) && 0 <= x < g.width && 0 <= y < g.height
    requires 1 <= cw && x + cw <= g.width && 1 <= ch && y + ch <= g.height
    ensures WindowOf(AddrWindow(g, ToU8(x), ToU8(y), ToU8(x + cw - 1), ToU8(y + ch - 1)))
      == (x + g.colStart, x + cw - 1 + g.colStart, y + g.rowStart, y + ch - 1 + g.rowStart)
  {
    var x0, y0, x1, y1 := ToU8(x), ToU8(y), ToU8(x + cw - 1), ToU8(y + ch - 1);
    assert x0 == x && y0 == y && x1 == x + cw - 1 && y1 == y + ch - 1 by {
      assert x + cw - 1 < 0x100 && y + ch - 1 < 0x100;
    }
    assert WindowOf(AddrWindow(g, x0, y0, x1, y1))
      == (x0 + g.colStart, x1 + g.colStart, y0 + g.rowStart, y1 + g.rowStart) by {
      WindowRoundTrip(g, x0, y0, x1, y1);
    }
  }

  /**
   * A rectangle with its corner on the screen is clipped to it: the window
   * covers min(w, width - x) columns and min(h, height - y) rows starting at
   * the corner.
   */
  lemma FillClips(g: Lcd, x: I16, y: I16, w: I16, h: I16, color: U16)
    requires Fits(g) && 0 <= x < g.width && 0 <= y < g.height && w >= 1 && h >= 1
    ensures x + Min(w, g.width - x) <= g.width && y + Min(h, g.height - y) <= g.height
    ensures WindowOf(FillRect(g, x, y, w, h, color))
      == (x + g.colStart, x + Min(w, g.width - x) - 1 + g.colStart,
          y + g.rowStart, y + Min(h, g.height - y) - 1 + g.rowStart)
  {
    var cw := ClipW(g, x, w);
    var ch := ClipH(g, y, h);
    assert cw == Min(w, g.width - x) && 1 <= cw && x + cw <= g.width by {
      ClipSpan(g.width, x, w);
    }
    assert ch == Min(h, g.height - y) && 1 <= ch && y + ch <= g.height by {
      ClipSpan(g.height, y, h);
    }
    FillClipped(g, x, y, w, h, color);
  }

  lemma FillClipped(g: Lcd, x: I16, y: I16, w: I16, h: I16, color: U16)
    requires Fits(g) && 0 <= x < g.width && 0 <= y < g.height && w >= 1 && h >= 1
    requires 1 <= ClipW(g, x, w) && x + ClipW(g, x, w) <= g.width
    requires 1 <= ClipH(g, y, h) && y + ClipH(g, y, h) <= g.height
    ensures WindowOf(FillRect(g, x, y, w, h, color))
      == (x + g.colStart, x + ClipW(g, x, w) - 1 + g.colStart, y + g.rowStart, y + ClipH(g, y, h) - 1 + g.rowStart)
  {
    var cw := ClipW(g, x, w);
    var ch := ClipH(g, y, h);
    var win := AddrWindow(g, ToU8(x), ToU8(y), ToU8(x + cw - 1), ToU8(y + ch - 1));
    var t := (x + g.colStart, x + cw - 1 + g.colStart, y + g.rowStart, y + ch - 1 + g.rowStart);
    assert WindowOf(FillRect(g, x, y, w, h, color)) == WindowOf(win) by {
      FillOpens(g, x, y, w, h, color);
    }
    assert WindowOf(win) == t by {
      ScreenWindow(g, x, y, cw, ch);
    }
  }

  /** A rectangle that lies on the screen is filled as given. */
  lemma FillInside(g: Lcd, x: I16, y: I16, w: I16, h: I16, color: U16)
    requires Fits(g) && 0 <= x && 1 <= w && x + w <= g.width && 0 <= y && 1 <= h && y + h <= g.height
    ensures |FillRect(g, x, y, w, h, color)| == 12
    ensures WindowOf(FillRect(g, x, y, w, h, color))
      == (x + g.colStart, x + w - 1 + g.colStart, y + g.rowStart, y + h - 1 + g.rowStart)
  {
    assert ClipW(g, x, w) == w && ClipH(g, y, h) == h;
    assert WindowOf(FillRect(g, x, y, w, h, color))
      == (x + g.colStart, x + w - 1 + g.colStart, y + g.rowStart, y + h - 1 + g.rowStart) by {
      FillClipped(g, x, y, w, h, color);
    }
  }

  /** ... and exactly the pixels of the clipped rectangle are sent. */
  lemma FillCount(g: Lcd, x: I16, y: I16, w: I16, h: I16, color: U16)
    requires Fits(g) && 0 <= x < g.width && 0 <= y < g.height && w >= 1 && h >= 1
    ensures |FillRect(g, x, y, w, h, color)| == 12
    ensures FillRect(g, x, y, w, h, color)[11].Pixels?
    ensures Count(FillRect(g, x, y, w, h, color)[11]) == Min(w, g.width - x) * Min(h, g.height - y)
    ensures FillRect(g, x, y, w, h, color)[11].color == color
  {
    ClipSpan(g.width, x, w);
    ClipSpan(g.height, y, h);
    AreaFits(ClipW(g, x, w), ClipH(g, y, h));
  }

  /** A negative pixel count wraps: `while (w--)` on a negative int16_t runs 2^16 + w times. */
  lemma NegativeFillWraps(g: Lcd, x: I16, y: I16, color: U16)
    requires Fits(g) && 0 <= x < g.width && 0 <= y < g.height
    ensures FillRect(g, x, y, 1, -1, color)[11] == Pixels(1, -1, color)
    ensures Count(FillRect(g, x, y, 1, -1, color)[11]) == 0xFFFF
  {
    MulIsProduct(1, -1);
  }

  // ---------------------------------------------------------------- init list

  /** ST7735_write_byte: bit 8 of the entry selects a command, the low byte is sent. */
  function WriteByte(dat: U16): (op: Op)
    ensures op.Cmd? <==> (dat / StCmd) % 2 == 1
    ensures (op.Cmd? || op.Data?) && op.b == dat % 0x100
  {
    if (dat / StCmd) % 2 == 1 then Cmd(dat % 0x100) else Data(dat % 0x100)
  }

  /** One entry of the init list: a pause of its low nine bits when bit 9 is set, otherwise a byte. */
  function Entry(e: U16): (op: Op)
    ensures op.Sleep? <==> (e / StDelay) % 2 == 1
    ensures op.Sleep? ==> op.ms == e % 0x200
  {
    if (e / StDelay) % 2 == 1 then Sleep(e % 0x200) else WriteByte(e)
  }

  /** The position of the first end marker. */
  function EndAt(lst: seq<U16>): (i: nat)
    requires StEnd in lst
    ensures i < |lst| && lst[i] == StEnd && StEnd !in lst[..i]
  {
    if lst[0] == StEnd then 0 else 1 + EndAt(lst[1..])
  }

  /**
   * The walk in ST7735_init: each entry up to the end marker becomes one
   * operation. The C loop reads until it meets the marker, so the list must
   * hold one.
   */
  function Interpret(lst: seq<U16>): (ops: seq<Op>)
    requires StEnd in lst
    ensures |ops| == EndAt(lst)
    ensures forall i :: 0 <= i < |ops| ==> ops[i] == Entry(lst[i])
  {
    if lst[0] == StEnd then [] else [Entry(lst[0])] + Interpret(lst[1..])
  }

  /** Nothing after the first end marker is read. */
  lemma {:induction false} InterpretStops(lst: seq<U16>, rest: seq<U16>)
    requires StEnd in lst
    ensures StEnd in lst + rest
    ensures Interpret(lst + rest) == Interpret(lst)
  {
    assert (lst + rest)[0] == lst[0];
    if lst[0] != StEnd {
      assert (lst + rest)[1..] == lst[1..] + rest;
      InterpretStops(lst[1..], rest);
    }
  }

  /** A list entry below the end flag: a byte with at most the command and delay flags. */
  type ListWord = x: int | 0 <= x < 0x400

  /**
   * initlst for the ST7735R "mini" panel: fifteen set-up commands, the
   * address ranges, gamma and display on (the entries before the end marker).
   */
  const InitCmds: seq<ListWord> := [
    0x101, 0x20F, 0x111, 0x232, 0x1B1, 0x001, 0x02C, 0x02D, 0x1B2, 0x001, 0x02C, 0x02D,
    0x1B3, 0x001, 0x02C, 0x02D, 0x001, 0x02C, 0x02D, 0x1B4, 0x007, 0x1C0, 0x0A2, 0x002,
    0x084, 0x1C1, 0x0C5, 0x1C2, 0x00A, 0x000, 0x1C3, 0x08A, 0x02A, 0x1C4, 0x08A, 0x0EE,
    0x1C5, 0x00E, 0x120, 0x136, 0x0C8, 0x13A, 0x005, 0x12A, 0x000, 0x000, 0x000, 0x07F,
    0x12B, 0x000, 0x000, 0x000, 0x09F, 0x1E0, 0x002, 0x01C, 0x007, 0x012, 0x037, 0x032,
    0x029, 0x02D, 0x029, 0x025, 0x02B, 0x039, 0x000, 0x001, 0x003, 0x010, 0x1E1, 0x003,
    0x01D, 0x007, 0x006, 0x02E, 0x02C, 0x029, 0x02D, 0x02E, 0x02E, 0x037, 0x03F, 0x000,
    0x000, 0x002, 0x010, 0x113, 0x20A, 0x129, 0x20A]

  /** initlst as the firmware stores it, closed by the end marker. */
  const InitList: seq<U16> := InitCmds + [StEnd]

  /** A list closed by its only end marker is walked to the marker. */
  lemma {:induction false} EndsOnce(body: seq<U16>)
    requires StEnd !in body
    ensures StEnd in body + [StEnd] && EndAt(body + [StEnd]) == |body|
  {
    var lst := body + [StEnd];
    assert lst[|body|] == StEnd;
    if body != [] {
      assert lst[0] == body[0];
      assert lst[1..] == body[1..] + [StEnd];
      EndsOnce(body[1..]);
    }
  }

  /** The firmware's list holds the marker only at its end, so the walk reads it whole. */
  lemma InitListEnds()
    ensures StEnd in InitList && EndAt(InitList) == |InitList| - 1
  {
    assert StEnd !in InitCmds;
    EndsOnce(InitCmds);
  }

  /**
   * ST7735_init over a command list (the firmware passes InitList): the
   * default portrait geometry, the list's operations, then rotation 0. The
   * reset pulse on the RS pin and its two 10 ms waits are GPIO and are not
   * in the trace.
   */
  function Init(lst: seq<U16>): (r: (Lcd, seq<Op>))
    requires StEnd in lst
    ensures r.0 == Lcd(0, Offset, TftWidth, TftHeight, 0)
    ensures |r.1| == EndAt(lst) + 2
    ensures forall i :: 0 <= i < EndAt(lst) ==> r.1[i] == Entry(lst[i])
    ensures r.1[EndAt(lst)..] == [Cmd(MadCtl), Data(MadCtlArg(0))]
  {
    var rot := SetRotation(0);
    (rot.0, Interpret(lst) + rot.1)
  }
}
