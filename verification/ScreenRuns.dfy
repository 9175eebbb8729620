/**
What holds of the screen over whole strings: it shows what the parser shows, and backspaces
undo what was printed.
*/
module ScreenRuns {
  import opened Layouts
  import opened ColorCodes
  import opened Screens

  /** Colour and parser state after a string are those of the parser alone, so what is proved about
      printing and parsing holds on the screen. */
  lemma {:induction false} ScreenFollowsParser(s: Screen, font: Font, info: Info, text: string)
    requires Drawable(info)
    ensures var s' := WriteString(s, font, info, text);
            Console(s'.state, s'.color) == Show(Console(s.state, s.color), text).0
    decreases |text|
  {
    if text != [] { ScreenFollowsParser(WriteChar(s, font, info, text[0]), font, info, text[1..]); }
  }

  /** One shown character on the screen: a control character moves the cursor, any other is drawn. */
  function DrawShown(s: Screen, font: Font, info: Info, sh: Shown): (s': Screen)
    requires Drawable(info)
    ensures |s'.fb| == |s.fb|
  {
    var s1 := s.(color := sh.color);
    if sh.ch == '\n' then Newline(s1)
    else if sh.ch == '\r' then s1.(x := BORDER)
    else Draw(Place(s1, font, info), font, info, sh.ch)
  }

  function DrawAll(s: Screen, font: Font, info: Info, shown: seq<Shown>): Screen
    requires Drawable(info)
    decreases |shown|
  {
    if shown == [] then s else DrawAll(DrawShown(s, font, info, shown[0]), font, info, shown[1..])
  }

  /** The screen without parser state and colour: what can be seen, and where the cursor is. */
  function Seen(s: Screen): Screen { s.(state := Normal, color := White) }

  lemma DrawShownSeen(s: Screen, t: Screen, font: Font, info: Info, sh: Shown)
    requires Drawable(info) && Seen(s) == Seen(t)
    ensures Seen(DrawShown(s, font, info, sh)) == Seen(DrawShown(t, font, info, sh))
  {
    var s1, t1 := Place(s.(color := sh.color), font, info), Place(t.(color := sh.color), font, info);
    var raster := font.glyph(sh.ch);
    assert Seen(s1) == Seen(t1) && s1.color == t1.color;
    assert Blit(s1, info, raster) == Blit(t1, info, raster);
  }

  lemma {:induction false} DrawAllSeen(s: Screen, t: Screen, font: Font, info: Info, shown: seq<Shown>)
    requires Drawable(info) && Seen(s) == Seen(t)
    ensures Seen(DrawAll(s, font, info, shown)) == Seen(DrawAll(t, font, info, shown))
    decreases |shown|
  {
    if shown != [] {
      DrawShownSeen(s, t, font, info, shown[0]);
      DrawAllSeen(DrawShown(s, font, info, shown[0]), DrawShown(t, font, info, shown[0]), font, info, shown[1..]);
    }
  }

  lemma WriteCharShows(s: Screen, font: Font, info: Info, c: char)
    requires Drawable(info)
    ensures var (console, shown) := Accept(Console(s.state, s.color), c);
            Seen(WriteChar(s, font, info, c)) ==
              Seen(if shown then DrawShown(s, font, info, Shown(c, console.color)) else s)
  {
    var (console, shown) := Accept(Console(s.state, s.color), c);
    if shown { DrawShownSeen(s.(state := console.state), s, font, info, Shown(c, console.color)); }
  }

  /** What is on the screen after a string is what the parser shows, glyph by glyph and in its colours. */
  lemma {:induction false} ScreenShows(s: Screen, font: Font, info: Info, text: string)
    requires Drawable(info)
    ensures Seen(WriteString(s, font, info, text)) ==
              Seen(DrawAll(s, font, info, Show(Console(s.state, s.color), text).1))
    decreases |text|
  {
    if text != [] {
      var s1 := WriteChar(s, font, info, text[0]);
      var (console, shown) := Accept(Console(s.state, s.color), text[0]);
      var rest := Show(console, text[1..]).1;
      WriteCharShows(s, font, info, text[0]);
      ScreenShows(s1, font, info, text[1..]);
      if shown {
        var sh := Shown(text[0], console.color);
        assert ([sh] + rest)[1..] == rest;
        DrawAllSeen(s1, DrawShown(s, font, info, sh), font, info, rest);
      } else {
        assert [] + rest == rest;
        DrawAllSeen(s1, s, font, info, rest);
      }
    }
  }

  /** From the printer to the pixels: writing what any nesting of coloured spans prints draws exactly its
      plain text, each glyph in the colour of the latest effective code. */
  lemma PrintedScreen(s: Screen, font: Font, info: Info, span: Span)
    requires Drawable(info) && s.state == Normal && EscFree(span)
    ensures WriteString(s, font, info, Print(span)) ==
              DrawAll(s, font, info, Painted(span, s.color)).(state := Normal, color := After(span, s.color))
    ensures Chars(Painted(span, s.color)) == Plain(span)
  {
    ScreenFollowsParser(s, font, info, Print(span));
    ScreenShows(s, font, info, Print(span));
    PrintParse(span, s.color);
    PaintedIsPlain(span, s.color);
  }

  // ----- backspace ---------------------------------------------------------------------

  /** Exactly when a backspace panics: the cursor is closer to the left edge than the last glyph is wide,
      or the parser swallows the blank and the cursor is closer than twice that. */
  lemma BackspacePanicExact(s: Screen, font: Font, info: Info)
    requires Drawable(info) && !s.state.NewColor?
    ensures Backspace(s, font, info).None? <==>
              || s.x < s.lastWidth
              || ((s.state.FirstCode? || s.state.SecondCode?) && s.x < 2 * s.lastWidth)
  {
  }

  /** The first backspace on a line panics: typing a character, a newline and a backspace is enough. */
  lemma BackspaceAtLineStart(s: Screen, font: Font, info: Info)
    requires Drawable(info) && s.state == Normal && font.width > BORDER
    ensures Backspace(WriteString(s, font, info, "a\n"), font, info).None?
  {
    assert "a\n"[1..] == "\n" && "\n"[1..] == "";
    var s1 := WriteChar(s, font, info, 'a');
    assert WriteString(s, font, info, "a\n") == WriteString(s1, font, info, "\n") == WriteChar(s1, font, info, '\n');
  }

  predicate Printable(c: char) {
    c != ESC && c != '\n' && c != '\r'
  }

  /** Byte `i` belongs to the cells from column `x` up to column `right` of the text row at `y`. */
  predicate InCells(info: Info, y: nat, x: nat, right: nat, i: nat)
    requires Drawable(info)
  {
    y <= RowOf(info, i) < y + CHAR_HEIGHT && x <= ColumnOf(info, i) < right
  }

  /** A space draws nothing. */
  ghost predicate BlankSpace(font: Font) {
    forall r, c :: 0 <= r < |font.glyph(' ')| && 0 <= c < |font.glyph(' ')[r]| ==> font.glyph(' ')[r][c] == 0
  }

  /** The framebuffer with the cells from `left` up to `right` of the text row at `y` black. */
  function Erase(fb: seq<nat>, info: Info, y: nat, left: nat, right: nat): (r: seq<nat>)
    requires Drawable(info)
    ensures |r| == |fb| && forall i :: 0 <= i < |r| ==> r[i] == if InCells(info, y, left, right, i) then 0 else fb[i]
  {
    seq(|fb|, i requires 0 <= i < |fb| => if InCells(info, y, left, right, i) then 0 else fb[i])
  }

  /** The row at the cursor is neither wrapped nor cleared by a glyph starting at column `x`. */
  predicate Room(s: Screen, font: Font, info: Info, x: nat) {
    x + font.width < info.width && s.y + CHAR_HEIGHT + BORDER < info.height
  }

  lemma PrintStep(s: Screen, font: Font, info: Info, c: char)
    requires Drawable(info) && s.state == Normal && Printable(c) && Room(s, font, info, s.x)
    ensures WriteChar(s, font, info, c) == Draw(s, font, info, c)
  {
  }

  /** A backspace blackens the cell left of the cursor and moves there. */
  lemma BackspaceErases(s: Screen, font: Font, info: Info)
    requires Drawable(info) && font.Valid() && BlankSpace(font) && s.state == Normal
    requires s.lastWidth == font.width <= s.x && Room(s, font, info, s.x - font.width)
    ensures Backspace(s, font, info) ==
              Some(s.(x := s.x - font.width, fb := Erase(s.fb, info, s.y, s.x - font.width, s.x)))
  {
    var s1 := s.(x := s.x - font.width);
    PrintStep(s1, font, info, ' ');
    var s2 := Draw(s1, font, info, ' ');
    assert font.GoodRaster(font.glyph(' '));
    var erased := Erase(s.fb, info, s.y, s.x - font.width, s.x);
    forall i | 0 <= i < |s.fb| ensures s2.fb[i] == erased[i] {
      if InCells(info, s.y, s1.x, s.x, i) {
        assert font.glyph(' ')[RowOf(info, i) - s.y][ColumnOf(info, i) - s1.x] == 0;
      }
    }
    assert s2.fb == erased;
  }

  /** `k` backspaces in a row. */
  function Backspaces(s: Screen, font: Font, info: Info, k: nat): Option<Screen>
    requires Drawable(info)
    decreases k
  {
    if k == 0 then Some(s)
    else
      match Backspace(s, font, info)
      case None => None
      case Some(t) => Backspaces(t, font, info, k - 1)
  }

  lemma EraseMore(fb: seq<nat>, info: Info, y: nat, left: nat, middle: nat, right: nat)
    requires Drawable(info) && left <= middle <= right
    ensures Erase(Erase(fb, info, y, middle, right), info, y, left, middle) == Erase(fb, info, y, left, right)
  {
  }

  lemma {:induction false} BackspacesErase(s: Screen, font: Font, info: Info, k: nat)
    requires Drawable(info) && font.Valid() && BlankSpace(font) && s.state == Normal && s.lastWidth == font.width
    requires k * font.width <= s.x < info.width && s.y + CHAR_HEIGHT + BORDER < info.height
    ensures Backspaces(s, font, info, k) ==
              Some(s.(x := s.x - k * font.width, fb := Erase(s.fb, info, s.y, s.x - k * font.width, s.x)))
    decreases k
  {
    if k == 0 {
      assert Erase(s.fb, info, s.y, s.x, s.x) == s.fb;
    } else {
      MulLe(1, k, font.width);
      BackspaceErases(s, font, info);
      var t := Backspace(s, font, info).value;
      assert (k - 1) * font.width == k * font.width - font.width;
      BackspacesErase(t, font, info, k - 1);
      EraseMore(s.fb, info, s.y, s.x - k * font.width, t.x, s.x);
    }
  }

  /** Glyphs that stay on their row change only the cells they pass. */
  lemma {:induction false} PrintedCells(s: Screen, font: Font, info: Info, text: string)
    requires Drawable(info) && font.Valid() && s.state == Normal
    requires forall i :: 0 <= i < |text| ==> Printable(text[i])
    requires s.x + |text| * font.width < info.width && s.y + CHAR_HEIGHT + BORDER < info.height
    ensures var s' := WriteString(s, font, info, text);
            && s' == s.(fb := s'.fb, x := s.x + |text| * font.width,
                        lastWidth := if text == [] then s.lastWidth else font.width)
            && forall i :: 0 <= i < |s.fb| && !InCells(info, s.y, s.x, s.x + |text| * font.width, i) ==>
                 s'.fb[i] == s.fb[i]
    decreases |text|
  {
    if text != [] {
      var k := |text| - 1;
      assert |text| * font.width == font.width + k * font.width;
      MulLe(0, k, font.width);
      PrintStep(s, font, info, text[0]);
      var s1 := WriteChar(s, font, info, text[0]);
      assert font.GoodRaster(font.glyph(text[0]));
      PrintedCells(s1, font, info, text[1..]);
    }
  }

  /** Cells that differ only where they are erased look the same afterwards. */
  lemma EraseForgets(fb: seq<nat>, fb': seq<nat>, info: Info, y: nat, left: nat, right: nat)
    requires Drawable(info) && |fb| == |fb'|
    requires forall i :: 0 <= i < |fb| && !InCells(info, y, left, right, i) ==> fb'[i] == fb[i]
    ensures Erase(fb', info, y, left, right) == Erase(fb, info, y, left, right)
  {
  }

  /** Glyphs printed on one row, followed by as many backspaces: the cursor is back and the cells are
      black. */
  lemma {:induction false} BackspaceUndoes(s: Screen, font: Font, info: Info, text: string)
    requires Drawable(info) && font.Valid() && BlankSpace(font) && s.state == Normal && text != []
    requires forall i :: 0 <= i < |text| ==> Printable(text[i])
    requires s.x + |text| * font.width < info.width && s.y + CHAR_HEIGHT + BORDER < info.height
    ensures Backspaces(WriteString(s, font, info, text), font, info, |text|) ==
              Some(s.(fb := Erase(s.fb, info, s.y, s.x, s.x + |text| * font.width), lastWidth := font.width))
  {
    PrintedCells(s, font, info, text);
    var s' := WriteString(s, font, info, text);
    BackspacesErase(s', font, info, |text|);
    EraseForgets(s.fb, s'.fb, info, s.y, s.x, s.x + |text| * font.width);
  }

  lemma EraseExact(fb: seq<nat>, info: Info, y: nat, left: nat, right: nat)
    requires Drawable(info)
    ensures Erase(fb, info, y, left, right) == fb <==>
              forall i :: 0 <= i < |fb| && InCells(info, y, left, right, i) ==> fb[i] == 0
  {
    var erased := Erase(fb, info, y, left, right);
    if forall i :: 0 <= i < |fb| && InCells(info, y, left, right, i) ==> fb[i] == 0 {
      assert erased == fb;
    } else {
      var i :| 0 <= i < |fb| && InCells(info, y, left, right, i) && fb[i] != 0;
      assert erased[i] != fb[i];
    }
  }

  lemma RestoredExact(s: Screen, font: Font, info: Info, right: nat, undone: Option<Screen>)
    requires Drawable(info)
    requires undone == Some(s.(fb := Erase(s.fb, info, s.y, s.x, right), lastWidth := font.width))
    ensures undone == Some(s.(lastWidth := font.width)) <==>
              forall i :: 0 <= i < |s.fb| && InCells(info, s.y, s.x, right, i) ==> s.fb[i] == 0
  {
    EraseExact(s.fb, info, s.y, s.x, right);
  }

  /** So the screen is as it was exactly if those cells were black before. */
  lemma {:induction false} BackspaceUndoesExact(s: Screen, font: Font, info: Info, text: string, undone: Option<Screen>)
    requires Drawable(info) && font.Valid() && BlankSpace(font) && s.state == Normal && text != []
    requires forall i :: 0 <= i < |text| ==> Printable(text[i])
    requires s.x + |text| * font.width < info.width && s.y + CHAR_HEIGHT + BORDER < info.height
    requires undone == Backspaces(WriteString(s, font, info, text), font, info, |text|)
    ensures undone == Some(s.(lastWidth := font.width)) <==>
              forall i :: 0 <= i < |s.fb| && InCells(info, s.y, s.x, s.x + |text| * font.width, i) ==> s.fb[i] == 0
  {
    BackspaceUndoes(s, font, info, text);
    RestoredExact(s, font, info, s.x + |text| * font.width, undone);
  }
}
