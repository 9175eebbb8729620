/**
The framebuffer text writer of kernel/src/vga_text_buffer.rs, which draws in place.
*/
module TextWriter {
  import opened Layouts
  import opened ColorCodes
  import opened S = Screens

  // ----- drawing in place --------------------------------------------------------------

  /** Writing one more pixel of the glyph. */
  lemma NextPixel(s: Screen, font: Font, info: Info, raster: Raster, row: nat, column: nat, i: nat)
    requires GoodFrame(font, info, |s.fb|) && font.GoodRaster(raster) && i < |s.fb|
    requires row < CHAR_HEIGHT && column < font.width && s.x + font.width <= info.width
    ensures ByteAfter(s, info, raster, row, column + 1, i) ==
              var offset := Offset(info, s.x + column, s.y + row);
              if offset <= i < offset + info.bpp
              then PixelBytes(s.color, raster[row][column], info.format)[i - offset]
              else ByteAfter(s, info, raster, row, column, i)
  {
    PixelOfByte(info, s.x + column, s.y + row, i);
  }

  /** The end of a row is the start of the next. */
  lemma NextRow(s: Screen, font: Font, info: Info, raster: Raster, row: nat, i: nat)
    requires GoodFrame(font, info, |s.fb|) && font.GoodRaster(raster) && i < |s.fb| && row < CHAR_HEIGHT
    ensures ByteAfter(s, info, raster, row + 1, 0, i) == ByteAfter(s, info, raster, row, font.width, i)
  {
  }

  // ----- the writer --------------------------------------------------------------------

  class Writer {
    const font: Font
    const info: Info
    const framebuffer: array<nat>
    var x: nat
    var y: nat
    var lastWidth: nat
    var color: Color
    var state: WriterState

    ghost predicate Valid()
      reads this, framebuffer
    {
      GoodFrame(font, info, framebuffer.Length)
    }

    ghost function View(): Screen
      reads this, framebuffer
    {
      Screen(framebuffer[..], x, y, lastWidth, color, state)
    }

    /** The initial writer and `set_fb`. */
    constructor (font: Font, info: Info, framebuffer: array<nat>)
      requires GoodFrame(font, info, framebuffer.Length)
      modifies framebuffer
      ensures Valid() && this.font == font && this.info == info && this.framebuffer == framebuffer
      ensures View() == S.Clear(Screen(old(framebuffer[..]), 0, 0, 0, White, Normal))
    {
      this.font, this.info, this.framebuffer := font, info, framebuffer;
      x, y, lastWidth, color, state := 0, 0, 0, White, Normal;
      new;
      Clear();
    }

    /** `write_pixel`: every byte it writes is inside the framebuffer. */
    method WritePixel(px: nat, py: nat, intensity: nat)
      requires Valid() && px < info.stride && py < info.height
      modifies framebuffer
      ensures forall i :: 0 <= i < framebuffer.Length ==>
                framebuffer[i] == if Offset(info, px, py) <= i < Offset(info, px, py) + info.bpp
                                  then PixelBytes(color, intensity, info.format)[i - Offset(info, px, py)]
                                  else old(framebuffer[i])
    {
      PixelInBuffer(font, info, framebuffer.Length, px, py);
      var offset := Offset(info, px, py);
      var bytes := PixelBytes(color, intensity, info.format);
      for b := 0 to info.bpp
        invariant forall i :: 0 <= i < framebuffer.Length ==>
                    framebuffer[i] == if offset <= i < offset + b then bytes[i - offset] else old(framebuffer[i])
      {
        framebuffer[offset + b] := bytes[b];
      }
    }

    /** The framebuffer is `s` with its glyph drawn up to (`row`, `column`). */
    ghost predicate DrawnUpTo(s: Screen, raster: Raster, row: nat, column: nat)
      requires Drawable(info) && framebuffer.Length == |s.fb|
      reads framebuffer
    {
      forall i :: 0 <= i < framebuffer.Length ==> framebuffer[i] == ByteAfter(s, info, raster, row, column, i)
    }

    /** One row of the glyph. */
    method DrawRow(raster: Raster, row: nat, ghost s: Screen)
      requires Valid() && font.GoodRaster(raster) && row < CHAR_HEIGHT && framebuffer.Length == |s.fb|
      requires x == s.x && y == s.y && color == s.color
      requires x + font.width <= info.width && y + CHAR_HEIGHT <= info.height
      requires DrawnUpTo(s, raster, row, 0)
      modifies framebuffer
      ensures DrawnUpTo(s, raster, row + 1, 0)
    {
      for column := 0 to font.width
        invariant DrawnUpTo(s, raster, row, column)
      {
        ghost var before := framebuffer[..];
        WritePixel(x + column, y + row, raster[row][column]);
        forall i | 0 <= i < framebuffer.Length
          ensures framebuffer[i] == ByteAfter(s, info, raster, row, column + 1, i)
        {
          assert before[i] == ByteAfter(s, info, raster, row, column, i);
          NextPixel(s, font, info, raster, row, column, i);
        }
      }
      forall i | 0 <= i < framebuffer.Length
        ensures framebuffer[i] == ByteAfter(s, info, raster, row + 1, 0, i)
      {
        NextRow(s, font, info, raster, row, i);
      }
    }

    /** `write_rendered_char`. */
    method WriteRenderedChar(c: char)
      requires Valid() && x + font.width <= info.width && y + CHAR_HEIGHT <= info.height
      modifies this, framebuffer
      ensures View() == Draw(old(View()), font, info, c)
    {
      var raster := font.glyph(c);
      ghost var s := View();
      assert font.GoodRaster(raster);
      for row := 0 to CHAR_HEIGHT
        invariant x == s.x && y == s.y && color == s.color && state == s.state
        invariant DrawnUpTo(s, raster, row, 0)
      {
        DrawRow(raster, row, s);
      }
      assert framebuffer[..] == Blit(s, info, raster);
      lastWidth := font.width;
      x := x + lastWidth;
    }

    method Clear()
      modifies this, framebuffer
      ensures View() == S.Clear(old(View()))
    {
      x := BORDER;
      y := BORDER;
      for i := 0 to framebuffer.Length
        invariant forall k :: 0 <= k < i ==> framebuffer[k] == 0
        invariant x == BORDER && y == BORDER
        invariant lastWidth == old(lastWidth) && color == old(color) && state == old(state)
      {
        framebuffer[i] := 0;
      }
      assert framebuffer[..] == seq(framebuffer.Length, _ => 0);
    }

    method Newline()
      modifies this
      ensures View() == S.Newline(old(View()))
    {
      y := y + CHAR_HEIGHT + LINE_SPACING;
      x := BORDER;
    }

    /** `write_char`. */
    method WriteChar(c: char)
      requires Valid()
      modifies this, framebuffer
      ensures View() == S.WriteChar(old(View()), font, info, c)
    {
      var (next, shown) := Feed(state, c);
      state := next;
      if !shown {
        if state.NewColor? {
          color := state.color;
          state := Normal;
        }
        return;
      }
      match c
      case '\n' => Newline();
      case '\r' => x := BORDER;
      case _ =>
        PlacedVisibleExact(font, info);
        assert Visible(Place(View(), font, info), font, info);
        if x + font.width >= info.width { Newline(); }
        if y + CHAR_HEIGHT + BORDER >= info.height { Clear(); }
        WriteRenderedChar(c);
    }

    method WriteString(text: string)
      requires Valid()
      modifies this, framebuffer
      ensures View() == S.WriteString(old(View()), font, info, text)
    {
      for i := 0 to |text|
        invariant S.WriteString(View(), font, info, text[i..]) == S.WriteString(old(View()), font, info, text)
      {
        assert text[i..][1..] == text[i + 1..];
        WriteChar(text[i]);
      }
    }

    /** `backspace`; false is the panic of an underflowing cursor. */
    method Backspace() returns (ok: bool)
      requires Valid()
      modifies this, framebuffer
      ensures ok <==> S.Backspace(old(View()), font, info).Some?
      ensures ok ==> Some(View()) == S.Backspace(old(View()), font, info)
    {
      if x < lastWidth { return false; }
      x := x - lastWidth;
      WriteChar(' ');
      if x < lastWidth { return false; }
      x := x - lastWidth;
      ok := true;
    }
  }
}
