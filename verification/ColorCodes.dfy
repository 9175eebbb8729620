/**
The escape sequences of the console: the parser inside the writer of
kernel/src/vga_text_buffer.rs and the printer of kernel/src/logging.rs, a subset of SGR
(section 8.3.117 of ECMA-48).
*/
module ColorCodes {
  import opened Layouts

  const ESC: char := '\U{1B}'

  datatype Color =
    | Black | Blue | Green | Cyan | Red | Magenta | Brown | LightGray
    | DarkGray | LightBlue | LightGreen | LightCyan | LightRed | Pink | Yellow | White

  // ----- parser ------------------------------------------------------------------------

  datatype WriterState =
    | Normal
    | Escape
    | FirstCode
    | SecondCode(first: char)
    | Finishing(one: char, two: char)
    | NewColor(color: Color)

  function CodeColor(c: char): Option<Color> {
    match c
    case '0' => Some(Black)
    case '1' => Some(Red)
    case '2' => Some(Green)
    case '3' => Some(Yellow)
    case '4' => Some(Blue)
    case '5' => Some(Magenta)
    case '6' => Some(Cyan)
    case '7' => Some(White)
    case _ => None
  }

  /** `WriterState::feed`: the next state, and whether the character is to be shown. */
  function Feed(s: WriterState, ch: char): (WriterState, bool) {
    match s
    case Normal => if ch != ESC then (Normal, true) else (Escape, false)
    case Escape => if ch != '[' then (Normal, true) else (FirstCode, false)
    case FirstCode => if ch == '0' then (Finishing(ch, ch), false) else (SecondCode(ch), false)
    case SecondCode(first) => (Finishing(first, ch), false)
    case Finishing(first, second) =>
      if ch != 'm' then (Normal, true)
      else if first == '0' then (NewColor(White), false)
      else if first != '3' then (Normal, false)
      else (match CodeColor(second)
            case Some(color) => (NewColor(color), false)
            case None => (Normal, false))
    case NewColor(_) => (s, true)
  }

  /** The part of the writer that decides what is shown, and in which colour. */
  datatype Console = Console(state: WriterState, color: Color)

  /** The head of `write_char`: a colour that was just parsed is taken over at once. */
  function Accept(c: Console, ch: char): (Console, bool) {
    var (state, shown) := Feed(c.state, ch);
    if !shown && state.NewColor? then (Console(Normal, state.color), false)
    else (Console(state, c.color), shown)
  }

  datatype Shown = Shown(ch: char, color: Color)

  function Show(c: Console, text: string): (Console, seq<Shown>)
    decreases |text|
  {
    if text == [] then (c, [])
    else
      var (c', shown) := Accept(c, text[0]);
      var (c'', rest) := Show(c', text[1..]);
      (c'', (if shown then [Shown(text[0], c'.color)] else []) + rest)
  }

  function Chars(shown: seq<Shown>): (r: string)
    ensures |r| == |shown| && forall i :: 0 <= i < |r| ==> r[i] == shown[i].ch
  {
    seq(|shown|, i requires 0 <= i < |shown| => shown[i].ch)
  }

  lemma {:induction false} ShowConcat(c: Console, a: string, b: string)
    ensures var (c', s) := Show(c, a);
            var (c'', t) := Show(c', b);
            Show(c, a + b) == (c'', s + t)
    decreases |a|
  {
    if a == [] {
      assert a + b == b;
      assert [] + Show(c, b).1 == Show(c, b).1;
    } else {
      var (c', shown) := Accept(c, a[0]);
      assert (a + b)[1..] == a[1..] + b;
      ShowConcat(c', a[1..], b);
      var head := if shown then [Shown(a[0], c'.color)] else [];
      var s, t := Show(c', a[1..]).1, Show(Show(c', a[1..]).0, b).1;
      assert head + (s + t) == head + s + t;
    }
  }

  /** Between characters no parsed colour is left waiting. */
  lemma {:induction false} ColorNeverPending(c: Console, text: string)
    requires !c.state.NewColor?
    ensures !Show(c, text).0.state.NewColor?
    decreases |text|
  {
    if text != [] { ColorNeverPending(Accept(c, text[0]).0, text[1..]); }
  }

  /** A character that is not shown changes the console and nothing else. */
  lemma ShowSilent(c: Console, t: string)
    requires t != [] && !Accept(c, t[0]).1
    ensures Show(c, t) == Show(Accept(c, t[0]).0, t[1..])
  {
    var (c'', rest) := Show(Accept(c, t[0]).0, t[1..]);
    assert [] + rest == rest;
  }

  function Steps(c: Console, text: string, k: nat): Console
    requires k <= |text|
  {
    if k == 0 then c else Accept(Steps(c, text, k - 1), text[k - 1]).0
  }

  lemma {:induction false} ShowSteps(c: Console, text: string, k: nat)
    requires k <= |text|
    ensures Show(c, text[..k]).0 == Steps(c, text, k)
  {
    if k > 0 {
      ShowSteps(c, text, k - 1);
      assert text[..k] == text[..k - 1] + [text[k - 1]];
      ShowConcat(c, text[..k - 1], [text[k - 1]]);
      assert [text[k - 1]][1..] == [];
    }
  }

  /** How many characters the parser needs to be back to normal text. */
  function Resync(s: WriterState, text: string): nat
    requires |text| >= 4
  {
    match s
    case Normal => 0
    case Escape => if text[0] != '[' then 1 else if text[1] == '0' then 3 else 4
    case FirstCode => if text[0] == '0' then 2 else 3
    case SecondCode(_) => 2
    case _ => 1
  }

  /** Whatever comes in, the parser is back to normal text within four characters. */
  lemma Resynchronises(c: Console, text: string)
    requires |text| >= 4 && !c.state.NewColor?
    ensures Resync(c.state, text) <= 4 && Show(c, text[..Resync(c.state, text)]).0.state == Normal
  {
    var k := Resync(c.state, text);
    ShowSteps(c, text, k);
    assert Steps(c, text, 0) == c;
    var s1 := Steps(c, text, 1);
    var s2 := Steps(c, text, 2);
    var s3 := Steps(c, text, 3);
    var s4 := Steps(c, text, 4);
    assert s1 == Accept(c, text[0]).0 && s2 == Accept(s1, text[1]).0;
    assert s3 == Accept(s2, text[2]).0 && s4 == Accept(s3, text[3]).0;
  }

  /** An escape character followed by anything but a bracket is dropped, and what follows it is shown. */
  lemma LoneEscape(color: Color, ch: char)
    requires ch != '['
    ensures Show(Console(Normal, color), [ESC, ch]) == (Console(Normal, color), [Shown(ch, color)])
  {
    assert [ESC, ch][1..] == [ch] && [ch][1..] == [];
    ShowSilent(Console(Normal, color), [ESC, ch]);
    ShowLast(Console(Escape, color), ch);
  }

  lemma ShowLast(c: Console, ch: char)
    ensures var (c', shown) := Accept(c, ch);
            Show(c, [ch]) == (c', if shown then [Shown(ch, c'.color)] else [])
  {
    var (c', shown) := Accept(c, ch);
    assert [ch][1..] == [] && Show(c', []) == (c', []);
    var head := if shown then [Shown(ch, c'.color)] else [];
    assert head + [] == head;
  }

  /** A sequence of two code characters that does not end in an `m` is dropped, and its last character is
      shown; one that does changes the colour exactly if it is 3 and a digit below 8. */
  lemma SequenceExact(color: Color, a: char, b: char, ch: char)
    requires a != '0'
    ensures var shown := Show(Console(Normal, color), [ESC, '[', a, b, ch]);
            if ch != 'm' then shown == (Console(Normal, color), [Shown(ch, color)])
            else shown == (Console(Normal, if a == '3' && '0' <= b <= '7' then CodeColor(b).value else color), [])
  {
    var t := [ESC, '[', a, b, ch];
    assert t[1..] == ['[', a, b, ch] && ['[', a, b, ch][1..] == [a, b, ch];
    assert [a, b, ch][1..] == [b, ch] && [b, ch][1..] == [ch];
    ShowSilent(Console(Normal, color), t);
    ShowSilent(Console(Escape, color), ['[', a, b, ch]);
    ShowSilent(Console(FirstCode, color), [a, b, ch]);
    ShowSilent(Console(SecondCode(a), color), [b, ch]);
    ShowLast(Console(Finishing(a, b), color), ch);
  }

  /** The same for the reset sequence, which has one code character. */
  lemma ResetExact(color: Color, ch: char)
    ensures Show(Console(Normal, color), [ESC, '[', '0', ch]) ==
              if ch == 'm' then (Console(Normal, White), []) else (Console(Normal, color), [Shown(ch, color)])
  {
    var t := [ESC, '[', '0', ch];
    assert t[1..] == ['[', '0', ch] && ['[', '0', ch][1..] == ['0', ch] && ['0', ch][1..] == [ch];
    ShowSilent(Console(Normal, color), t);
    ShowSilent(Console(Escape, color), ['[', '0', ch]);
    ShowSilent(Console(FirstCode, color), ['0', ch]);
    ShowLast(Console(Finishing('0', '0'), color), ch);
  }

  // ----- printer -----------------------------------------------------------------------

  datatype LogColor =
    | LogBlack | LogRed | LogGreen | LogYellow | LogBlue | LogMagenta | LogCyan | LogWhite | LogDefault

  /** `Color::as_str`. */
  function AsStr(c: LogColor): string {
    match c
    case LogBlack => "30"
    case LogRed => "31"
    case LogGreen => "32"
    case LogYellow => "33"
    case LogBlue => "34"
    case LogMagenta => "35"
    case LogCyan => "36"
    case LogWhite => "37"
    case LogDefault => "39"
  }

  /** `Display for Color`. */
  function ColorCode(c: LogColor): string {
    [ESC] + "[" + AsStr(c) + "m"
  }

  const RESET: string := [ESC] + "[0m"

  /** Text with `Colored` parts, nested and concatenated at will. */
  datatype Span = Text(text: string) | Colored(color: LogColor, inner: Span) | Join(left: Span, right: Span)

  /** What `Display` writes. */
  function Print(s: Span): string {
    match s
    case Text(t) => t
    case Colored(c, inner) => ColorCode(c) + Print(inner) + RESET
    case Join(l, r) => Print(l) + Print(r)
  }

  function Plain(s: Span): string {
    match s
    case Text(t) => t
    case Colored(_, inner) => Plain(inner)
    case Join(l, r) => Plain(l) + Plain(r)
  }

  /** The colour a code selects; the default code has no effect on the writer. */
  function Effect(c: LogColor, current: Color): Color {
    match c
    case LogBlack => Black
    case LogRed => Red
    case LogGreen => Green
    case LogYellow => Yellow
    case LogBlue => Blue
    case LogMagenta => Magenta
    case LogCyan => Cyan
    case LogWhite => White
    case LogDefault => current
  }

  function After(s: Span, current: Color): Color {
    match s
    case Text(_) => current
    case Colored(_, _) => White
    case Join(l, r) => After(r, After(l, current))
  }

  function InColor(text: string, color: Color): (r: seq<Shown>)
    ensures |r| == |text| && forall i :: 0 <= i < |text| ==> r[i] == Shown(text[i], color)
  {
    seq(|text|, i requires 0 <= i < |text| => Shown(text[i], color))
  }

  /** The plain text, each character in the colour of the latest effective code. */
  function Painted(s: Span, current: Color): seq<Shown> {
    match s
    case Text(t) => InColor(t, current)
    case Colored(c, inner) => Painted(inner, Effect(c, current))
    case Join(l, r) => Painted(l, current) + Painted(r, After(l, current))
  }

  lemma {:induction false} PaintedIsPlain(s: Span, current: Color)
    ensures Chars(Painted(s, current)) == Plain(s)
  {
    match s
    case Text(t) =>
    case Colored(c, inner) => PaintedIsPlain(inner, Effect(c, current));
    case Join(l, r) =>
      PaintedIsPlain(l, current);
      PaintedIsPlain(r, After(l, current));
  }

  lemma {:induction false} ShowPlain(t: string, color: Color)
    requires ESC !in t
    ensures Show(Console(Normal, color), t) == (Console(Normal, color), InColor(t, color))
    decreases |t|
  {
    if t != [] {
      ShowPlain(t[1..], color);
      assert [Shown(t[0], color)] + InColor(t[1..], color) == InColor(t, color);
    }
  }

  /** A code sequence shows nothing and has its effect. */
  lemma ShowCode(c: LogColor, color: Color)
    ensures Show(Console(Normal, color), ColorCode(c)) == (Console(Normal, Effect(c, color)), [])
  {
    var code := ColorCode(c);
    assert code == [ESC, '[', '3', AsStr(c)[1], 'm'];
    ShowFive(Console(Normal, color), code);
  }

  lemma ShowReset(color: Color)
    ensures Show(Console(Normal, color), RESET) == (Console(Normal, White), [])
  {
    assert RESET == [ESC, '[', '0', 'm'] && RESET[1..] == ['[', '0', 'm'];
    assert ['[', '0', 'm'][1..] == ['0', 'm'] && ['0', 'm'][1..] == ['m'] && ['m'][1..] == [];
    ShowSilent(Console(Normal, color), RESET);
    ShowSilent(Console(Escape, color), ['[', '0', 'm']);
    ShowSilent(Console(FirstCode, color), ['0', 'm']);
    ShowSilent(Console(Finishing('0', '0'), color), ['m']);
  }

  lemma ShowFive(c: Console, t: string)
    requires |t| == 5 && t[0] == ESC && t[1] == '[' && t[2] == '3' && t[4] == 'm' && c.state == Normal
    ensures Show(c, t) == (Console(Normal, if CodeColor(t[3]).Some? then CodeColor(t[3]).value else c.color), [])
  {
    assert t[1..][1..] == t[2..] && t[2..][1..] == t[3..] && t[3..][1..] == t[4..] && t[4..][1..] == [];
    ShowSilent(c, t);
    ShowSilent(Console(Escape, c.color), t[1..]);
    ShowSilent(Console(FirstCode, c.color), t[2..]);
    ShowSilent(Console(SecondCode('3'), c.color), t[3..]);
    ShowSilent(Console(Finishing('3', t[3]), c.color), t[4..]);
  }

  predicate EscFree(s: Span) {
    match s
    case Text(t) => ESC !in t
    case Colored(_, inner) => EscFree(inner)
    case Join(l, r) => EscFree(l) && EscFree(r)
  }

  /** Print, then parse: exactly the plain text is shown, each character in the colour of the latest
      effective code, and the parser is back to normal. */
  lemma {:induction false} PrintParse(s: Span, color: Color)
    requires EscFree(s)
    ensures Show(Console(Normal, color), Print(s)) == (Console(Normal, After(s, color)), Painted(s, color))
  {
    match s
    case Text(t) => ShowPlain(t, color);
    case Colored(c, inner) =>
      var mid := Effect(c, color);
      ShowCode(c, color);
      PrintParse(inner, mid);
      ShowReset(After(inner, mid));
      ShowConcat(Console(Normal, color), ColorCode(c) + Print(inner), RESET);
      ShowConcat(Console(Normal, color), ColorCode(c), Print(inner));
      assert [] + Painted(inner, mid) + [] == Painted(inner, mid);
    case Join(l, r) =>
      PrintParse(l, color);
      PrintParse(r, After(l, color));
      ShowConcat(Console(Normal, color), Print(l), Print(r));
  }

  /** Never more characters are shown than written, and fewer if an escape character is met in text. */
  lemma {:induction false} ShownAtMost(c: Console, t: string)
    ensures |Show(c, t).1| <= |t|
    ensures c.state == Normal && ESC in t ==> |Show(c, t).1| < |t|
    decreases |t|
  {
    if t != [] {
      var c' := Accept(c, t[0]).0;
      ShownAtMost(c', t[1..]);
      assert ESC in t ==> t[0] == ESC || ESC in t[1..];
    }
  }

  /** Plain text is shown as it is exactly if it contains no escape character. */
  lemma ShownVerbatimExact(t: string, color: Color)
    ensures Chars(Show(Console(Normal, color), t).1) == t <==> ESC !in t
  {
    if ESC in t {
      ShownAtMost(Console(Normal, color), t);
    } else {
      ShowPlain(t, color);
    }
  }

  datatype Level = Error | Warn | Info | Debug | Trace

  /** `Level::stylized`. */
  function Stylized(level: Level): LogColor {
    match level
    case Error => LogRed
    case Warn => LogYellow
    case Info => LogGreen
    case Debug => LogMagenta
    case Trace => LogBlue
  }

  /** How a level is displayed. */
  function LevelName(level: Level): string {
    match level
    case Error => "ERROR"
    case Warn => "WARN"
    case Info => "INFO"
    case Debug => "DEBUG"
    case Trace => "TRACE"
  }

  function LogHead(target: string, level: Level): Span {
    Join(Join(Text("["), Colored(LogWhite, Text(target))),
         Join(Text("] ["), Colored(LogRed, Colored(Stylized(level), Text(LevelName(level))))))
  }

  function LogLine(target: string, level: Level, message: Span): Span {
    Join(Join(LogHead(target, level), Text("] ")), Join(message, Text("\n")))
  }

  /** What `Log::log` prints on the screen. */
  function LogOutput(target: string, level: Level, message: Span): string {
    if level == Trace then "" else Print(LogLine(target, level, message))
  }

  lemma {:induction false} AfterWhite(s: Span)
    ensures After(s, White) == White
  {
    if s.Join? {
      AfterWhite(s.left);
      AfterWhite(s.right);
    }
  }

  /** The colour of the level's name on the screen. */
  function LevelColor(level: Level): Color {
    match level
    case Error => Red
    case Warn => Yellow
    case Info => Green
    case Debug => Magenta
    case Trace => Blue
  }

  /** The code of the level overrides the red in front of it. */
  lemma LevelPainted(level: Level)
    ensures Painted(Colored(LogRed, Colored(Stylized(level), Text(LevelName(level)))), White)
            == InColor(LevelName(level), LevelColor(level))
  {
    var name := Text(LevelName(level));
    var styled := Colored(Stylized(level), name);
    assert Painted(Colored(LogRed, styled), White) == Painted(styled, Red) == Painted(name, LevelColor(level));
  }

  lemma LogHeadPainted(target: string, level: Level, color: Color)
    requires ESC !in target
    ensures EscFree(LogHead(target, level)) && After(LogHead(target, level), color) == White
    ensures Painted(LogHead(target, level), color) ==
              InColor("[", color) + InColor(target, White)
              + (InColor("] [", White) + InColor(LevelName(level), LevelColor(level)))
  {
    var where := Join(Text("["), Colored(LogWhite, Text(target)));
    var what := Colored(LogRed, Colored(Stylized(level), Text(LevelName(level))));
    assert EscFree(Text(target)) && EscFree(Colored(LogWhite, Text(target))) && EscFree(where);
    assert ESC !in LevelName(level) && EscFree(Colored(Stylized(level), Text(LevelName(level)))) && EscFree(what);
    assert EscFree(Join(Text("] ["), what));
    assert After(Join(Text("] ["), what), After(where, color)) == White;
    assert Painted(Colored(LogWhite, Text(target)), color) == Painted(Text(target), White) == InColor(target, White);
    assert Painted(where, color) == InColor("[", color) + InColor(target, White);
    LevelPainted(level);
    assert After(where, color) == White;
    assert Painted(LogHead(target, level), color) == Painted(where, color) + Painted(Join(Text("] ["), what), White);
    assert Painted(Join(Text("] ["), what), White)
           == InColor("] [", White) + InColor(LevelName(level), LevelColor(level));
  }

  /** A record on the screen: target, level and message as written, all in white but the bracket, which has
      the colour found, the level's name and the coloured spans of the message. It leaves the console in
      white normal text. Traces show nothing. */
  lemma LogLineShows(target: string, level: Level, message: Span, color: Color)
    requires ESC !in target && EscFree(message)
    ensures Show(Console(Normal, color), LogOutput(target, level, message)) ==
              if level == Trace then (Console(Normal, color), [])
              else (Console(Normal, White),
                    InColor("[", color) + InColor(target, White)
                    + (InColor("] [", White) + InColor(LevelName(level), LevelColor(level)))
                    + InColor("] ", White) + (Painted(message, White) + InColor("\n", White)))
  {
    if level != Trace {
      AfterWhite(message);
      LogHeadPainted(target, level, color);
      var head, tail := LogHead(target, level), Join(message, Text("\n"));
      assert EscFree(tail) && EscFree(Join(head, Text("] ")));
      assert After(Join(head, Text("] ")), color) == White && After(tail, White) == White;
      assert Painted(tail, White) == Painted(message, White) + InColor("\n", White);
      assert Painted(Join(head, Text("] ")), color) == Painted(head, color) + InColor("] ", White);
      PrintParse(LogLine(target, level, message), color);
    }
  }
}
