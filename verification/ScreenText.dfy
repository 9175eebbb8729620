/**
Where text appears on the screen, in pixels: every glyph in a cell of its own, lines eighteen
rows apart, and a cleared screen when the next line does not fit.
*/
module ScreenText {
  import opened Layouts
  import opened ColorCodes
  import opened Screens
  import opened ScreenRuns

  // ----- one character -----------------------------------------------------------------

  /** A newline goes eighteen rows down to the left border, a carriage return to the left border; nothing is
      drawn. */
  lemma ControlExact(s: Screen, font: Font, info: Info)
    requires Drawable(info) && s.state == Normal
    ensures WriteChar(s, font, info, '\n') == s.(x := 1, y := s.y + 18)
    ensures WriteChar(s, font, info, '\r') == s.(x := 1)
  {
  }

  /** The next glyph does not fit in the row. */
  predicate Wraps(s: Screen, font: Font, info: Info) { s.x + font.width >= info.width }

  /** The row of the next glyph. */
  function NextRowAt(s: Screen, font: Font, info: Info): nat {
    if Wraps(s, font, info) then s.y + 18 else s.y
  }

  /** That row does not fit on the screen. */
  predicate Clears(s: Screen, font: Font, info: Info) { NextRowAt(s, font, info) + 17 >= info.height }

  function LandX(s: Screen, font: Font, info: Info): nat {
    if Wraps(s, font, info) || Clears(s, font, info) then 1 else s.x
  }

  function LandY(s: Screen, font: Font, info: Info): nat {
    if Clears(s, font, info) then 1 else NextRowAt(s, font, info)
  }

  /** Byte `i` belongs to a pixel of the cell at column `x`, row `y`. */
  predicate InCell(font: Font, info: Info, x: nat, y: nat, i: nat)
    requires Drawable(info)
  {
    y <= i / info.bpp / info.stride < y + 16 && x <= i / info.bpp % info.stride < x + font.width
  }

  /** What byte `i` of that cell is when it shows the glyph of `ch` in a colour. */
  ghost function GlyphByte(font: Font, info: Info, color: Color, ch: char, x: nat, y: nat, i: nat): nat
    requires Drawable(info) && font.Valid() && InCell(font, info, x, y, i)
  {
    assert font.GoodRaster(font.glyph(ch));
    PixelBytes(color, font.glyph(ch)[i / info.bpp / info.stride - y][i / info.bpp % info.stride - x], info.format)
      [i % info.bpp]
  }

  lemma PlaceLands(s: Screen, font: Font, info: Info)
    ensures Place(s, font, info) ==
              s.(x := LandX(s, font, info), y := LandY(s, font, info),
                 fb := if Clears(s, font, info) then seq(|s.fb|, _ => 0) else s.fb)
  {
  }

  /** A printable character, byte for byte: its glyph is drawn in the colour of the writer at the cursor, or
      on the next row if it would reach the right edge, or in the corner of a cleared screen if that row
      would not fit. Nothing else changes, and the cursor moves behind it. */
  lemma GlyphLands(s: Screen, font: Font, info: Info, c: char, i: nat)
    requires Drawable(info) && font.Valid() && s.state == Normal && Printable(c) && i < |s.fb|
    ensures var t := WriteChar(s, font, info, c);
            var x, y := LandX(s, font, info), LandY(s, font, info);
            && t == s.(fb := t.fb, x := x + font.width, y := y, lastWidth := font.width) && |t.fb| == |s.fb|
            && t.fb[i] == if InCell(font, info, x, y, i) then GlyphByte(font, info, s.color, c, x, y, i)
                          else if Clears(s, font, info) then 0 else s.fb[i]
  {
    PlaceLands(s, font, info);
    var p := Place(s, font, info);
    var raster := font.glyph(c);
    assert font.GoodRaster(raster);
    assert WriteChar(s, font, info, c) == Draw(p, font, info, c);
    assert Blit(p, info, raster)[i] == ByteAfter(p, info, raster, |raster|, 0, i);
  }

  /** Where pixel (`c`, `r`) of a cell is in the framebuffer. */
  lemma PixelAt(font: Font, info: Info, x: nat, y: nat, r: nat, c: nat, b: nat, i: nat)
    requires Drawable(info) && r < 16 && c < font.width && x + c < info.stride && b < info.bpp
    requires i == ((y + r) * info.stride + (x + c)) * info.bpp + b
    ensures InCell(font, info, x, y, i)
    ensures i / info.bpp / info.stride == y + r && i / info.bpp % info.stride == x + c && i % info.bpp == b
  {
    PixelOfByte(info, x + c, y + r, i);
  }

  // ----- strings -----------------------------------------------------------------------

  ghost predicate AllPrintable(text: string) {
    forall i :: 0 <= i < |text| ==> Printable(text[i])
  }

  lemma {:induction false} WriteConcat(s: Screen, font: Font, info: Info, a: string, b: string)
    requires Drawable(info)
    ensures WriteString(s, font, info, a + b) == WriteString(WriteString(s, font, info, a), font, info, b)
    decreases |a|
  {
    if a == [] {
      assert a + b == b;
    } else {
      assert (a + b)[1..] == a[1..] + b;
      WriteConcat(WriteChar(s, font, info, a[0]), font, info, a[1..], b);
    }
  }

  lemma WriteSnoc(s: Screen, font: Font, info: Info, text: string)
    requires Drawable(info) && text != []
    ensures var n := |text| - 1;
            WriteString(s, font, info, text)
            == WriteChar(WriteString(s, font, info, text[..n]), font, info, text[n])
  {
    var n := |text| - 1;
    assert text == text[..n] + [text[n]] && [text[n]][1..] == [];
    WriteConcat(s, font, info, text[..n], [text[n]]);
    var s' := WriteString(s, font, info, text[..n]);
    assert WriteString(s', font, info, [text[n]]) == WriteString(WriteChar(s', font, info, text[n]), font, info, []);
  }

  // ----- text that wraps ---------------------------------------------------------------

  /** How many glyphs fit in a row. */
  function PerRow(font: Font, info: Info): nat
    requires font.width > 0 && info.width >= 2
  {
    (info.width - 2) / font.width
  }

  /** Column and row of the `k`-th glyph of a text that starts at the left border. */
  function CellX(font: Font, m: nat, k: nat): nat
    requires m > 0
  {
    1 + k % m * font.width
  }

  function CellY(y: nat, m: nat, k: nat): nat
    requires m > 0
  {
    y + 18 * (k / m)
  }

  /** The rows of the first `n` glyphs fit on the screen. */
  predicate RowsFit(y: nat, m: nat, n: nat, info: Info)
    requires m > 0
  {
    n == 0 || CellY(y, m, n - 1) + 17 < info.height
  }

  lemma DivNext(k: nat, m: nat)
    requires k > 0 && m > 0
    ensures if (k - 1) % m == m - 1 then k % m == 0 && k / m == (k - 1) / m + 1
            else k % m == (k - 1) % m + 1 && k / m == (k - 1) / m
  {
    var q, r := (k - 1) / m, (k - 1) % m;
    assert k - 1 == q * m + r;
    if r == m - 1 {
      assert k == (q + 1) * m + 0;
      DivModUnique(k, m, q + 1, 0);
    } else {
      DivModUnique(k, m, q, r + 1);
    }
  }

  lemma DivMono(j: nat, k: nat, m: nat)
    requires j < k && m > 0
    ensures j / m < k / m || (j / m == k / m && j % m < k % m)
  {
    var q, q' := j / m, k / m;
    assert j == q * m + j % m && k == q' * m + k % m;
    if q > q' {
      MulLe(q' + 1, q, m);
    }
  }

  lemma FitsInRow(font: Font, info: Info, j: nat)
    requires font.width > 0 && info.width >= 2
    ensures 1 + j * font.width < info.width <==> j <= PerRow(font, info)
  {
    var w, n := font.width, info.width - 2;
    var m := n / w;
    assert n == m * w + n % w;
    if j <= m { MulLe(j, m, w); } else { MulLe(m + 1, j, w); }
  }

  lemma RowsFitLess(y: nat, m: nat, n: nat, info: Info)
    requires m > 0 && n > 0 && RowsFit(y, m, n, info)
    ensures RowsFit(y, m, n - 1, info)
  {
    if n > 1 { DivMono(n - 2, n - 1, m); }
  }

  /** Where the cursor is after `k` glyphs. */
  predicate CursorAfter(s: Screen, t: Screen, font: Font, m: nat, k: nat)
    requires m > 0
  {
    && t.state == Normal && t.color == s.color && |t.fb| == |s.fb|
    && if k == 0 then t == s else t.x == CellX(font, m, k - 1) + font.width && t.y == CellY(s.y, m, k - 1)
  }

  /** The next glyph lands in the next cell of the grid. */
  lemma NextCell(s: Screen, t: Screen, font: Font, info: Info, k: nat)
    requires font.width > 0 && info.width >= 2 && PerRow(font, info) > 0 && s.x == 1
    requires s.state == Normal && CursorAfter(s, t, font, PerRow(font, info), k)
    requires RowsFit(s.y, PerRow(font, info), k + 1, info)
    ensures var m := PerRow(font, info);
            && !Clears(t, font, info)
            && LandX(t, font, info) == CellX(font, m, k) && LandY(t, font, info) == CellY(s.y, m, k)
  {
    var m := PerRow(font, info);
    if k == 0 {
      FitsInRow(font, info, 1);
      DivModUnique(0, m, 0, 0);
    } else {
      NextColumnOrRow(font, info, k);
    }
  }

  /** Behind the cell of glyph `k - 1` comes that of glyph `k`, on the same row exactly if it fits there. */
  lemma NextColumnOrRow(font: Font, info: Info, k: nat)
    requires font.width > 0 && info.width >= 2 && PerRow(font, info) > 0 && k > 0
    ensures var m := PerRow(font, info);
            var x := CellX(font, m, k - 1) + font.width;
            if x + font.width >= info.width then CellX(font, m, k) == 1 && k / m == (k - 1) / m + 1
            else CellX(font, m, k) == x && k / m == (k - 1) / m
  {
    var r := (k - 1) % PerRow(font, info);
    DivNext(k, PerRow(font, info));
    FitsInRow(font, info, r + 2);
    assert (r + 2) * font.width == r * font.width + font.width + font.width;
    assert (r + 1) * font.width == r * font.width + font.width;
  }

  lemma {:induction false} GridCursor(s: Screen, font: Font, info: Info, text: string)
    requires Drawable(info) && font.Valid() && info.width >= 2 && PerRow(font, info) > 0
    requires s.state == Normal && s.x == 1 && AllPrintable(text)
    requires RowsFit(s.y, PerRow(font, info), |text|, info)
    ensures CursorAfter(s, WriteString(s, font, info, text), font, PerRow(font, info), |text|)
    decreases |text|
  {
    if text != [] {
      var n := |text| - 1;
      var t := WriteString(s, font, info, text[..n]);
      RowsFitLess(s.y, PerRow(font, info), |text|, info);
      GridCursor(s, font, info, text[..n]);
      WriteSnoc(s, font, info, text);
      NextCell(s, t, font, info, n);
      LandsAtCell(t, font, info, text[n]);
    }
  }

  lemma LandsAtCell(t: Screen, font: Font, info: Info, c: char)
    requires Drawable(info) && font.Valid() && t.state == Normal && Printable(c)
    ensures var t' := WriteChar(t, font, info, c);
            && t'.x == LandX(t, font, info) + font.width && t'.y == LandY(t, font, info)
            && t'.state == Normal && t'.color == t.color && |t'.fb| == |t.fb|
  {
    PlaceLands(t, font, info);
  }

  /** Byte `i` after a text that starts at the left border: what the last glyph over it left. */
  lemma {:induction false} GridElsewhere(s: Screen, font: Font, info: Info, text: string, i: nat)
    requires Drawable(info) && font.Valid() && info.width >= 2 && PerRow(font, info) > 0
    requires s.state == Normal && s.x == 1 && AllPrintable(text)
    requires RowsFit(s.y, PerRow(font, info), |text|, info) && i < |s.fb|
    requires forall k: nat :: k < |text| ==>
               !InCell(font, info, CellX(font, PerRow(font, info), k), CellY(s.y, PerRow(font, info), k), i)
    ensures WriteString(s, font, info, text).fb[i] == s.fb[i]
    decreases |text|
  {
    if text != [] {
      var n := |text| - 1;
      var t := WriteString(s, font, info, text[..n]);
      RowsFitLess(s.y, PerRow(font, info), |text|, info);
      GridElsewhere(s, font, info, text[..n], i);
      GridCursor(s, font, info, text[..n]);
      WriteSnoc(s, font, info, text);
      NextCell(s, t, font, info, n);
      GlyphLands(t, font, info, text[n], i);
    }
  }

  /** Different glyphs of a text have different pixels. */
  lemma CellsApart(font: Font, info: Info, y: nat, m: nat, j: nat, k: nat, i: nat)
    requires Drawable(info) && m > 0 && j < k && InCell(font, info, CellX(font, m, j), CellY(y, m, j), i)
    ensures !InCell(font, info, CellX(font, m, k), CellY(y, m, k), i)
  {
    DivMono(j, k, m);
    if j / m == k / m {
      MulLe(j % m + 1, k % m, font.width);
      assert (j % m + 1) * font.width == j % m * font.width + font.width;
    }
  }

  /** Text on a grid: printed from the left border, with as many lines as it needs and no clearing, the
      `k`-th glyph is in row `k / m` and column `k % m` of the grid, `m` being the number that fits in a
      row. Every byte of that cell shows the glyph, in the colour of the writer, after the whole text. */
  lemma {:induction false} GridShows(s: Screen, font: Font, info: Info, text: string, k: nat, i: nat)
    requires Drawable(info) && font.Valid() && info.width >= 2 && PerRow(font, info) > 0
    requires s.state == Normal && s.x == 1 && AllPrintable(text)
    requires RowsFit(s.y, PerRow(font, info), |text|, info) && k < |text| && i < |s.fb|
    requires InCell(font, info, CellX(font, PerRow(font, info), k), CellY(s.y, PerRow(font, info), k), i)
    ensures var m := PerRow(font, info);
            WriteString(s, font, info, text).fb[i] ==
              GlyphByte(font, info, s.color, text[k], CellX(font, m, k), CellY(s.y, m, k), i)
    decreases |text|
  {
    var n, m := |text| - 1, PerRow(font, info);
    var t := WriteString(s, font, info, text[..n]);
    RowsFitLess(s.y, m, |text|, info);
    GridCursor(s, font, info, text[..n]);
    WriteSnoc(s, font, info, text);
    NextCell(s, t, font, info, n);
    GlyphLands(t, font, info, text[n], i);
    if k < n {
      GridShows(s, font, info, text[..n], k, i);
      CellsApart(font, info, s.y, m, k, n, i);
    }
  }

  // ----- lines -------------------------------------------------------------------------

  lemma NextColumn(k: nat, n: nat, w: nat)
    ensures (n + 1) * w == n * w + w
    ensures k < n ==> k * w + w <= n * w
  {
    if k < n {
      MulLe(k + 1, n, w);
      assert (k + 1) * w == k * w + w;
    }
  }

  lemma {:induction false} RowCursor(s: Screen, font: Font, info: Info, text: string)
    requires Drawable(info) && font.Valid() && s.state == Normal && AllPrintable(text)
    requires s.x + |text| * font.width < info.width && s.y + 17 < info.height
    ensures var t := WriteString(s, font, info, text);
            && t.x == s.x + |text| * font.width && t.y == s.y
            && t.color == s.color && t.state == Normal && |t.fb| == |s.fb|
  {
    PrintedCells(s, font, info, text);
  }

  /** Text that stays on its row: every byte of the cell of the `k`-th glyph, at column `x`, shows it. */
  lemma {:induction false} RowShows(s: Screen, font: Font, info: Info, text: string, k: nat, x: nat, i: nat)
    requires Drawable(info) && font.Valid() && s.state == Normal && AllPrintable(text)
    requires s.x + |text| * font.width < info.width && s.y + 17 < info.height && k < |text| && i < |s.fb|
    requires x == s.x + k * font.width && InCell(font, info, x, s.y, i)
    ensures WriteString(s, font, info, text).fb[i] == GlyphByte(font, info, s.color, text[k], x, s.y, i)
    decreases |text|
  {
    var n := |text| - 1;
    NextColumn(k, n, font.width);
    RowStep(s, font, info, text, s.x + n * font.width, i);
    if k < n { RowShows(s, font, info, text[..n], k, x, i); }
  }

  /** The last glyph of a row, at column `x`, changes its cell and nothing else. */
  lemma {:induction false} RowStep(s: Screen, font: Font, info: Info, text: string, x: nat, i: nat)
    requires Drawable(info) && font.Valid() && s.state == Normal && AllPrintable(text) && text != []
    requires x == s.x + (|text| - 1) * font.width && x + font.width < info.width
    requires s.y + 17 < info.height && i < |s.fb|
    ensures WriteString(s, font, info, text).fb[i] ==
              if InCell(font, info, x, s.y, i) then GlyphByte(font, info, s.color, text[|text| - 1], x, s.y, i)
              else WriteString(s, font, info, text[..|text| - 1]).fb[i]
  {
    var n := |text| - 1;
    RowCursor(s, font, info, text[..n]);
    WriteSnoc(s, font, info, text);
    RowGlyph(WriteString(s, font, info, text[..n]), font, info, text[n], i);
  }

  /** A glyph that fits at the cursor is drawn there. */
  lemma RowGlyph(t: Screen, font: Font, info: Info, c: char, i: nat)
    requires Drawable(info) && font.Valid() && t.state == Normal && Printable(c) && i < |t.fb|
    requires t.x + font.width < info.width && t.y + 17 < info.height
    ensures WriteChar(t, font, info, c).fb[i] ==
              if InCell(font, info, t.x, t.y, i) then GlyphByte(font, info, t.color, c, t.x, t.y, i) else t.fb[i]
  {
    GlyphLands(t, font, info, c, i);
  }

  lemma NewlineBetween(s: Screen, font: Font, info: Info, t: string, u: string)
    requires Drawable(info) && WriteString(s, font, info, t).state == Normal
    ensures var s1 := WriteString(s, font, info, t);
            WriteString(s, font, info, t + "\n" + u) == WriteString(s1.(x := 1, y := s1.y + 18), font, info, u)
  {
    var s1 := WriteString(s, font, info, t);
    WriteConcat(s, font, info, t + "\n", u);
    WriteConcat(s, font, info, t, "\n");
    assert "\n"[1..] == [];
    ControlExact(s1, font, info);
    var s1' := WriteChar(s1, font, info, '\n');
    assert WriteString(s1, font, info, "\n") == WriteString(s1', font, info, []) == s1';
  }

  /** Lines do not overwrite each other: `t`, a newline and `u` leave the screen as after `t` alone, except
      for the cells of `u`, which begin at the left border eighteen rows further down. */
  lemma {:induction false} NextLine(s: Screen, font: Font, info: Info, t: string, u: string)
    requires Drawable(info) && font.Valid() && s.state == Normal && AllPrintable(t) && AllPrintable(u)
    requires s.x + |t| * font.width < info.width && 1 + |u| * font.width < info.width
    requires s.y + 18 + 17 < info.height
    ensures var s1 := WriteString(s, font, info, t);
            var s2 := WriteString(s, font, info, t + "\n" + u);
            && s2.x == 1 + |u| * font.width && s2.y == s.y + 18 && s2.color == s.color && |s2.fb| == |s.fb|
            && (forall i :: 0 <= i < |s.fb| && !InCells(info, s.y + 18, 1, 1 + |u| * font.width, i) ==>
                  s2.fb[i] == s1.fb[i])
            && (forall i :: 0 <= i < |s.fb| && InCells(info, s.y, s.x, s.x + |t| * font.width, i) ==>
                  s2.fb[i] == s1.fb[i])
  {
    var s1 := WriteString(s, font, info, t);
    PrintedCells(s, font, info, t);
    NewlineBetween(s, font, info, t, u);
    PrintedCells(s1.(x := 1, y := s.y + 18), font, info, u);
  }

  /** And the second line is shown there. */
  lemma {:induction false} NextLineShows(s: Screen, font: Font, info: Info, t: string, u: string,
                                         k: nat, x: nat, i: nat)
    requires Drawable(info) && font.Valid() && s.state == Normal && AllPrintable(t) && AllPrintable(u)
    requires s.x + |t| * font.width < info.width && 1 + |u| * font.width < info.width
    requires s.y + 18 + 17 < info.height && k < |u| && i < |s.fb|
    requires x == 1 + k * font.width && InCell(font, info, x, s.y + 18, i)
    ensures |WriteString(s, font, info, t + "\n" + u).fb| == |s.fb|
    ensures WriteString(s, font, info, t + "\n" + u).fb[i] ==
              GlyphByte(font, info, s.color, u[k], x, s.y + 18, i)
  {
    var s1 := WriteString(s, font, info, t);
    RowCursor(s, font, info, t);
    NewlineBetween(s, font, info, t, u);
    RowShows(s1.(x := 1, y := s.y + 18), font, info, u, k, x, i);
  }

  // ----- colours -----------------------------------------------------------------------

  /** A channel that is lit shows the intensity of the glyph. */
  function Lit(d: nat, intensity: nat): nat { if d % 2 == 1 then intensity else 0 }

  /** The eight foreground codes of section 8.3.117 of ECMA-48: after the sequence for code 3`d` the red,
      green and blue channels are lit by bits 0, 1 and 2 of `d`, in the order of the pixel format. */
  lemma AnsiColors(c: Console, d: nat, intensity: nat)
    requires c.state == Normal && d < 8 && intensity <= 255
    ensures var (after, shown) := Show(c, [ESC, '[', '3', '0' + d as char, 'm']);
            && shown == [] && after.state == Normal
            && PixelBytes(after.color, intensity, Rgb) ==
                 [Lit(d, intensity), Lit(d / 2, intensity), Lit(d / 4, intensity), 0]
            && PixelBytes(after.color, intensity, Bgr) ==
                 [Lit(d / 4, intensity), Lit(d / 2, intensity), Lit(d, intensity), 0]
            && PixelBytes(after.color, intensity, U8) == [if intensity > 200 then 0xF else 0, 0, 0, 0]
  {
    ShowFive(c, [ESC, '[', '3', '0' + d as char, 'm']);
    AnsiChannels(d, intensity);
  }

  lemma AnsiChannels(d: nat, intensity: nat)
    requires d < 8 && intensity <= 255
    ensures CodeColor('0' + d as char).Some?
    ensures var rgb := RgbOf(CodeColor('0' + d as char).value);
            forall i :: 0 <= i < 4 ==>
              rgb[i] * intensity / 255 == [Lit(d, intensity), Lit(d / 2, intensity), Lit(d / 4, intensity), 0][i]
  {
    assert 255 * intensity / 255 == intensity;
  }

  /** The reset sequence makes text white. */
  lemma ResetIsWhite(color: Color, intensity: nat)
    requires intensity <= 255
    ensures var (after, shown) := Show(Console(Normal, color), [ESC, '[', '0', 'm']);
            shown == [] && after.state == Normal
            && PixelBytes(after.color, intensity, Rgb) == [intensity, intensity, intensity, 0]
  {
    ResetExact(color, 'm');
    WhitePixel(intensity);
  }

  lemma WhitePixel(intensity: nat)
    requires intensity <= 255
    ensures PixelBytes(White, intensity, Rgb) == [intensity, intensity, intensity, 0]
  {
    assert 0xFF * intensity / 255 == intensity;
  }
}
