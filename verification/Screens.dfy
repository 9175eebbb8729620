/**
What the text writer of kernel/src/vga_text_buffer.rs does to the screen, as functions on
values. The font is a parameter: sixteen rows of a fixed width for every character,
substitutes included.
*/
module Screens {
  import opened Layouts
  import opened ColorCodes

  const CHAR_HEIGHT: nat := 16
  const LINE_SPACING: nat := 2
  const BORDER: nat := 1

  datatype PixelFormat = Rgb | Bgr | U8

  datatype Info = Info(width: nat, height: nat, stride: nat, bpp: nat, format: PixelFormat)

  type Raster = seq<seq<nat>>

  /** A font of glyphs `width` pixels wide, with intensities of one byte. */
  datatype Font = Font(width: nat, glyph: char -> Raster) {
    ghost predicate Valid() {
      width > 0 && forall c :: GoodRaster(glyph(c))
    }
    predicate GoodRaster(r: Raster) {
      |r| == CHAR_HEIGHT && forall i :: 0 <= i < CHAR_HEIGHT ==> |r[i]| == width
    }
  }

  /** What the writer needs of the frame it draws on. */
  ghost predicate GoodFrame(font: Font, info: Info, length: nat) {
    && font.Valid()
    && font.width + BORDER <= info.width <= info.stride && CHAR_HEIGHT + BORDER <= info.height
    && 1 <= info.bpp <= 4
    && info.height * info.stride * info.bpp <= length
  }

  // ----- pixels ------------------------------------------------------------------------

  function RgbOf(c: Color): seq<nat> {
    match c
    case Black => [0x00, 0x00, 0x00, 0]
    case Blue => [0x00, 0x00, 0xFF, 0]
    case Green => [0x00, 0xFF, 0x00, 0]
    case Cyan => [0x00, 0xFF, 0xFF, 0]
    case Red => [0xFF, 0x00, 0x00, 0]
    case Magenta => [0xFF, 0x00, 0xFF, 0]
    case Brown => [0xFF, 0xFF, 0x80, 0]
    case LightGray => [0x55, 0x55, 0x55, 0]
    case DarkGray => [0xAA, 0xAA, 0xAA, 0]
    case LightBlue => [0x00, 0x00, 0x80, 0]
    case LightGreen => [0x00, 0x80, 0x80, 0]
    case LightCyan => [0x00, 0x80, 0x80, 0]
    case LightRed => [0x80, 0x00, 0x00, 0]
    case Pink => [0xFF, 0xCC, 0xCC, 0]
    case Yellow => [0xFF, 0xFF, 0x00, 0]
    case White => [0xFF, 0xFF, 0xFF, 0]
  }

  /** `get_color`: the bytes of a pixel. */
  function PixelBytes(c: Color, intensity: nat, format: PixelFormat): (r: seq<nat>)
    ensures |r| == 4 && (intensity == 0 ==> r == [0, 0, 0, 0])
  {
    var rgb := RgbOf(c);
    var s := [rgb[0] * intensity / 255, rgb[1] * intensity / 255, rgb[2] * intensity / 255, rgb[3] * intensity / 255];
    match format
    case Rgb => s
    case Bgr => [s[2], s[1], s[0], s[3]]
    case U8 => [if intensity > 200 then 0xf else 0, 0, 0, 0]
  }

  /** Row and column of the pixel that byte `i` of the framebuffer belongs to. */
  function RowOf(info: Info, i: nat): nat
    requires info.bpp > 0 && info.stride > 0
  {
    i / info.bpp / info.stride
  }

  function ColumnOf(info: Info, i: nat): nat
    requires info.bpp > 0 && info.stride > 0
  {
    i / info.bpp % info.stride
  }

  function Offset(info: Info, x: nat, y: nat): nat {
    (y * info.stride + x) * info.bpp
  }

  /** The bytes written for a pixel are exactly those at its row and column. */
  lemma PixelOfByte(info: Info, x: nat, y: nat, i: nat)
    requires info.bpp > 0 && x < info.stride
    ensures Offset(info, x, y) <= i < Offset(info, x, y) + info.bpp <==> RowOf(info, i) == y && ColumnOf(info, i) == x
    ensures Offset(info, x, y) <= i < Offset(info, x, y) + info.bpp ==> i - Offset(info, x, y) == i % info.bpp
  {
    var p := y * info.stride + x;
    if Offset(info, x, y) <= i < Offset(info, x, y) + info.bpp {
      DivModUnique(i, info.bpp, p, i - p * info.bpp);
      DivModUnique(p, info.stride, y, x);
    }
    if RowOf(info, i) == y && ColumnOf(info, i) == x {
      var q := i / info.bpp;
      assert q == q / info.stride * info.stride + q % info.stride == p;
      assert i == q * info.bpp + i % info.bpp;
    }
  }

  /** A visible pixel lies inside the buffer. */
  lemma PixelInBuffer(font: Font, info: Info, length: nat, x: nat, y: nat)
    requires GoodFrame(font, info, length) && x < info.stride && y < info.height
    ensures Offset(info, x, y) + info.bpp <= length
  {
    MulLe(y + 1, info.height, info.stride);
    assert y * info.stride + x + 1 <= (y + 1) * info.stride;
    MulLe(y * info.stride + x + 1, info.height * info.stride, info.bpp);
    assert (y * info.stride + x + 1) * info.bpp == Offset(info, x, y) + info.bpp;
  }

  // ----- screens -----------------------------------------------------------------------

  predicate Drawable(info: Info) {
    0 < info.bpp <= 4 && info.stride > 0
  }

  datatype Screen = Screen(fb: seq<nat>, x: nat, y: nat, lastWidth: nat, color: Color, state: WriterState)

  /** Glyph pixel (`r`, `c`) comes before (`row`, `column`) in drawing order. */
  predicate Drawn(r: nat, c: nat, row: nat, column: nat) {
    r < row || (r == row && c < column)
  }

  /** Byte `i` after the glyph at (`x`, `y`) has been drawn up to (`row`, `column`). */
  function ByteAfter(s: Screen, info: Info, raster: Raster, row: nat, column: nat, i: nat): nat
    requires Drawable(info) && i < |s.fb|
  {
    var r, c := RowOf(info, i), ColumnOf(info, i);
    if s.y <= r < s.y + |raster| && s.x <= c < s.x + |raster[r - s.y]| && Drawn(r - s.y, c - s.x, row, column)
    then PixelBytes(s.color, raster[r - s.y][c - s.x], info.format)[i % info.bpp]
    else s.fb[i]
  }

  /** The framebuffer with the whole glyph drawn. */
  function Blit(s: Screen, info: Info, raster: Raster): (fb: seq<nat>)
    requires Drawable(info)
    ensures |fb| == |s.fb| && forall i :: 0 <= i < |fb| ==> fb[i] == ByteAfter(s, info, raster, |raster|, 0, i)
  {
    seq(|s.fb|, i requires 0 <= i < |s.fb| => ByteAfter(s, info, raster, |raster|, 0, i))
  }

  function Newline(s: Screen): Screen {
    s.(y := s.y + CHAR_HEIGHT + LINE_SPACING, x := BORDER)
  }

  function Clear(s: Screen): (s': Screen)
    ensures |s'.fb| == |s.fb|
  {
    s.(x := BORDER, y := BORDER, fb := seq(|s.fb|, _ => 0))
  }

  /** Where a glyph goes: on a new line if it would reach the right edge, on a cleared screen if it would
      reach the bottom. */
  function Place(s: Screen, font: Font, info: Info): (s': Screen)
    ensures |s'.fb| == |s.fb|
  {
    var s1 := if s.x + font.width >= info.width then Newline(s) else s;
    if s1.y + CHAR_HEIGHT + BORDER >= info.height then Clear(s1) else s1
  }

  function Draw(s: Screen, font: Font, info: Info, c: char): (s': Screen)
    requires Drawable(info)
    ensures |s'.fb| == |s.fb|
  {
    s.(fb := Blit(s, info, font.glyph(c)), lastWidth := font.width, x := s.x + font.width)
  }

  function WriteChar(s: Screen, font: Font, info: Info, c: char): (s': Screen)
    requires Drawable(info)
    ensures |s'.fb| == |s.fb|
  {
    var (console, shown) := Accept(Console(s.state, s.color), c);
    var s1 := s.(state := console.state, color := console.color);
    if !shown then s1
    else if c == '\n' then Newline(s1)
    else if c == '\r' then s1.(x := BORDER)
    else Draw(Place(s1, font, info), font, info, c)
  }

  /** `write_string`. */
  function WriteString(s: Screen, font: Font, info: Info, text: string): (s': Screen)
    requires Drawable(info)
    ensures |s'.fb| == |s.fb|
    decreases |text|
  {
    if text == [] then s else WriteString(WriteChar(s, font, info, text[0]), font, info, text[1..])
  }

  /** `backspace`; `None` is the panic of an underflowing cursor. */
  function Backspace(s: Screen, font: Font, info: Info): Option<Screen>
    requires Drawable(info)
  {
    if s.x < s.lastWidth then None
    else
      var s1 := WriteChar(s.(x := s.x - s.lastWidth), font, info, ' ');
      if s1.x < s1.lastWidth then None else Some(s1.(x := s1.x - s1.lastWidth))
  }

  predicate Visible(s: Screen, font: Font, info: Info) {
    s.x + font.width <= info.width && s.y + CHAR_HEIGHT <= info.height
  }

  /** Wherever the cursor is, a placed glyph lies wholly in the visible rows and columns: exactly on frames
      that hold one glyph and its border. */
  lemma PlacedVisibleExact(font: Font, info: Info)
    ensures (forall s: Screen {:trigger Place(s, font, info)} :: Visible(Place(s, font, info), font, info)) <==>
              font.width + BORDER <= info.width && CHAR_HEIGHT + BORDER <= info.height
  {
    var corner := Screen([], BORDER, BORDER, 0, White, Normal);
    assert Visible(Place(corner, font, info), font, info) ==>
        font.width + BORDER <= info.width && CHAR_HEIGHT + BORDER <= info.height;
  }
}
