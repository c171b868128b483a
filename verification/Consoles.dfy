/** The console: characters drawn into the framebuffer at a cursor. */
module Consoles {
  import opened Pages
  import opened Screens
  import opened TextGrid

  /** The ASCII characters of a string, printed with the given colours; others are skipped. */
  function Glyphs(s: string, fg: Color, bg: Color): seq<Glyph> {
    if s == "" then []
    else Glyphs(s[..|s| - 1], fg, bg) + (if s[|s| - 1] as int < 128 then [Glyph(s[|s| - 1] as int, fg, bg)] else [])
  }

  lemma GlyphsOfPrefix(s: string, i: nat, fg: Color, bg: Color)
    requires i < |s|
    ensures Glyphs(s[..i + 1], fg, bg) ==
            if s[i] as int < 128 then Glyphs(s[..i], fg, bg) + [Glyph(s[i] as int, fg, bg)] else Glyphs(s[..i], fg, bg)
  {
    assert s[..i + 1][..i] == s[..i];
  }

  /** Of a string of ASCII characters every one is printed. */
  lemma {:induction false} GlyphsOfAscii(s: string, fg: Color, bg: Color)
    requires forall i | 0 <= i < |s| :: s[i] as int < 128
    ensures |Glyphs(s, fg, bg)| == |s|
    ensures forall i | 0 <= i < |s| :: Glyphs(s, fg, bg)[i] == Glyph(s[i] as int, fg, bg)
  {
    if s != "" {
      GlyphsOfAscii(s[..|s| - 1], fg, bg);
    }
  }

  /** Any other character is as if it were not there. */
  lemma {:induction false} GlyphsSkip(s: string, c: char, t: string, fg: Color, bg: Color)
    requires c as int >= 128
    ensures Glyphs(s + [c] + t, fg, bg) == Glyphs(s + t, fg, bg)
    decreases |t|
  {
    if t == "" {
      assert s + [c] + t == s + [c] && (s + [c])[..|s|] == s && s + t == s;
    } else {
      var shorter, last := t[..|t| - 1], t[|t| - 1];
      GlyphsSkip(s, c, shorter, fg, bg);
      assert (s + [c] + t)[..|s| + |t|] == s + [c] + shorter;
      assert (s + t)[..|s| + |t| - 1] == s + shorter;
    }
  }

  /** The codes that decide whether a string survives are those of the characters printed. */
  lemma {:induction false} CodesArePrinted(s: string, fg: Color, bg: Color)
    ensures |Codes(s)| == |Glyphs(s, fg, bg)|
    ensures forall i | 0 <= i < |Codes(s)| :: Codes(s)[i] == Glyphs(s, fg, bg)[i].c
  {
    if s != "" {
      CodesArePrinted(s[..|s| - 1], fg, bg);
      CodesOfLast(s[..|s| - 1], s[|s| - 1]);
      assert s[..|s| - 1] + [s[|s| - 1]] == s;
    }
  }

  lemma {:induction false} CodesOfLast(s: string, c: char)
    ensures Codes(s + [c]) == Codes(s) + if c as int < 128 then [c as int] else []
  {
    if s == "" {
      assert s + [c] == [c] && [c][1..] == "";
    } else {
      CodesOfLast(s[1..], c);
      assert (s + [c])[1..] == s[1..] + [c];
    }
  }

  lemma {:induction false} TypeAllAppend(t: Text, a: seq<Glyph>, g: Glyph, z: Size)
    ensures TypeAll(t, a + [g], z) == Type(TypeAll(t, a, z), g, z)
  {
    assert (a + [g])[..|a|] == a;
  }

  /** The codes of the ASCII characters of a string. */
  function Codes(s: string): seq<Byte> {
    if s == "" then [] else (if s[0] as int < 128 then [s[0] as int] else []) + Codes(s[1..])
  }

  lemma CodesOfSuffix(s: string, i: nat)
    requires i < |s|
    ensures Codes(s[i..]) == if s[i] as int < 128 then [s[i] as int] + Codes(s[i + 1..]) else Codes(s[i + 1..])
  {
    assert s[i..][1..] == s[i + 1..];
  }

  lemma SurvivesFirst(width: nat, height: nat, at: (nat, nat), c: Byte, rest: seq<Byte>)
    requires Survives(width, height, at, [c] + rest)
    ensures Moved(width, height, at, c).Some? && Survives(width, height, Moved(width, height, at, c).value, rest)
  {
    assert ([c] + rest)[1..] == rest;
  }

  class Console {
    const screen: Screen
    const font: seq<bv8>
    var cursorX: nat
    var cursorY: nat
    var bgColor: Color
    var fgColor: Color
    /** The text the screen shows. */
    ghost var text: Text

    ghost function Grid(): Size {
      GridOf(screen.width, screen.height)
    }

    /** The framebuffer is the rendering of the text, and the cursor is at the text's cursor, which is inside
        the grid if the grid has any cells. */
    ghost predicate Valid()
      reads this, screen.buffer
    {
      && screen.Valid() && |font| >= 4096
      && cursorX == 9 * text.col && cursorY == 16 * text.row
      && (HasCells(Grid()) ==> Inside(text, Grid()))
      && Rendered(text.cells, text.bg)
    }

    ghost predicate Rendered(cells: map<(nat, nat), Glyph>, bg: Color)
      requires screen.Valid() && |font| >= 4096
      reads screen.buffer
    {
      forall x: nat, y: nat | x < screen.width && y < screen.height ::
        screen.Pixel(x, y) == Shown(font, cells, bg, x, y)
    }

    /** Exactly the 8 by 16 pixels right of (x, y) have changed, to what the font says of the character. */
    twostate predicate Drawn(g: Glyph, x: nat, y: nat)
      requires screen.Valid() && |font| >= 4096
      reads screen.buffer
    {
      && x + 8 < screen.width && y + 15 < screen.height
      && forall x': nat, y': nat | x' < screen.width && y' < screen.height ::
           screen.Pixel(x', y') ==
           if y <= y' < y + 16 && x < x' <= x + 8 then GlyphPixel(font, g, x' - x, y' - y)
           else old(screen.Pixel(x', y'))
    }

    constructor (screen: Screen, font: seq<bv8>, bg: Color, fg: Color)
      requires screen.Valid() && |font| >= 4096
      modifies screen.buffer
      ensures Valid() && this.screen == screen && bgColor == bg && fgColor == fg
      ensures text == Text(map[], bg, 0, 0)
    {
      this.screen, this.font := screen, font;
      cursorX, cursorY := 0, 0;
      bgColor, fgColor := bg, fg;
      text := Text(map[], bg, 0, 0);
      new;
      screen.DrawAll(bg);
    }

    /** Paints everything and moves the cursor to the start. */
    method Clear()
      requires Valid()
      modifies this, screen.buffer
      ensures Valid() && bgColor == old(bgColor) && fgColor == old(fgColor)
      ensures text == Text(map[], bgColor, 0, 0)
    {
      cursorX, cursorY := 0, 0;
      screen.DrawAll(bgColor);
      text := Text(map[], bgColor, 0, 0);
    }

    /** Line `r` of a character: bit i is drawn at distance 8 - i from the cursor. */
    method DrawLine(g: Glyph, x: nat, y: nat, r: nat)
      requires screen.Valid() && |font| >= 4096
      requires x + 8 < screen.width && y < screen.height && r < 16
      modifies screen.buffer
      ensures forall x': nat, y': nat | x' < screen.width && y' < screen.height ::
                screen.Pixel(x', y') == if y' == y && x < x' <= x + 8 then GlyphPixel(font, g, x' - x, r)
                                        else old(screen.Pixel(x', y'))
    {
      var displayByte := font[g.c * 16 + r];
      for i := 0 to 8
        invariant forall x': nat, y': nat | x' < screen.width && y' < screen.height ::
                    screen.Pixel(x', y') == if y' == y && x + 8 - i < x' <= x + 8 then GlyphPixel(font, g, x' - x, r)
                                            else old(screen.Pixel(x', y'))
      {
        if BitSet(displayByte, i) {
          screen.DrawPixel(x + (8 - i), y, g.fg);
        } else {
          screen.DrawPixel(x + (8 - i), y, g.bg);
        }
      }
    }

    /** A character with its 16 lines. */
    method DrawChar(g: Glyph, x: nat, y: nat)
      requires screen.Valid() && |font| >= 4096
      requires x + 8 < screen.width && y + 15 < screen.height
      modifies screen.buffer
      ensures Drawn(g, x, y)
    {
      for r := 0 to 16
        invariant forall x': nat, y': nat | x' < screen.width && y' < screen.height ::
                    screen.Pixel(x', y') ==
                    if y <= y' < y + r && x < x' <= x + 8 then GlyphPixel(font, g, x' - x, y' - y)
                    else old(screen.Pixel(x', y'))
      {
        DrawLine(g, x, y + r, r);
      }
    }

    /** Draws a character into the cell under the cursor. */
    method PutGlyph(g: Glyph)
      requires Valid() && cursorX + 8 < screen.width && cursorY + 15 < screen.height
      modifies this`text, screen.buffer
      ensures Valid() && text == old(text).(cells := old(text.cells)[(text.col, text.row) := g])
      ensures Drawn(g, cursorX, cursorY)
    {
      hide GlyphPixel;
      DrawChar(g, cursorX, cursorY);
      ghost var cells := text.cells[(text.col, text.row) := g];
      forall x: nat, y: nat | x < screen.width && y < screen.height
        ensures screen.Pixel(x, y) == Shown(font, cells, text.bg, x, y)
      {
        CellOfPixel(text.col, text.row, x, y);
        assert old(screen.Pixel(x, y)) == Shown(font, text.cells, text.bg, x, y);
      }
      text := text.(cells := cells);
    }

    /** Prints a character with the given colours: a step of the text grid. The source panics where drawing
        goes off the screen, which on a screen that fits it never does. */
    method PrintCharColored(c: Byte, fg: Color, bg: Color)
      requires Valid()
      requires Fits(screen.width, screen.height)
               || Moved(screen.width, screen.height, (cursorX, cursorY), c).Some?
      modifies this, screen.buffer
      ensures Valid() && bgColor == old(bgColor) && fgColor == old(fgColor)
      ensures text == Type(old(text), Glyph(c, fg, bg), Grid())
      ensures Some((cursorX, cursorY)) == Moved(screen.width, screen.height, (old(cursorX), old(cursorY)), c)
      ensures c != 10 ==> Drawn(Glyph(c, fg, bg), old(cursorX), old(cursorY))
      ensures c == 10 ==> unchanged(screen.buffer)
    {
      hide Rendered, Screen.Valid, Drawable;
      if Fits(screen.width, screen.height) {
        FittingConsoleSurvives(screen.width, screen.height, text, [c]);
      }
      DrawableMeaning(screen.width, screen.height, cursorX, cursorY);
      var x, y := cursorX, cursorY;
      var g := Glyph(c, fg, bg);
      GridArithmetic(screen.width, screen.height, text);
      if c == NEWLINE {
        x := 0;
        y := y + CHAR_HEIGHT;
        if y + CHAR_HEIGHT > screen.height {
          y := 0;
        }
        cursorX, cursorY := x, y;
        text := Type(text, g, Grid());
        return;
      }
      PutGlyph(g);
      x := x + CELL_WIDTH;
      if x + CHAR_WIDTH > screen.width {
        x := 0;
        y := y + CHAR_HEIGHT;
        if y + CHAR_HEIGHT > screen.height {
          y := 0;
        }
      }
      cursorX, cursorY := x, y;
      text := Type(old(text), g, Grid());
    }

    /** Writes the ASCII characters of a string: any string on a screen that fits, otherwise one that the
        screen survives. */
    method WriteStr(s: string)
      requires Valid()
      requires Fits(screen.width, screen.height)
               || Survives(screen.width, screen.height, (cursorX, cursorY), Codes(s))
      modifies this, screen.buffer
      ensures Valid() && bgColor == old(bgColor) && fgColor == old(fgColor)
      ensures text == TypeAll(old(text), Glyphs(s, fgColor, bgColor), Grid())
    {
      assert s[0..] == s;
      if Fits(screen.width, screen.height) {
        FittingConsoleSurvives(screen.width, screen.height, text, Codes(s));
      }
      for i := 0 to |s|
        invariant Valid() && bgColor == old(bgColor) && fgColor == old(fgColor)
        invariant text == TypeAll(old(text), Glyphs(s[..i], fgColor, bgColor), Grid())
        invariant Survives(screen.width, screen.height, (cursorX, cursorY), Codes(s[i..]))
      {
        GlyphsOfPrefix(s, i, fgColor, bgColor);
        CodesOfSuffix(s, i);
        if s[i] as int < 128 {
          SurvivesFirst(screen.width, screen.height, (cursorX, cursorY), s[i] as int, Codes(s[i + 1..]));
          TypeAllAppend(old(text), Glyphs(s[..i], fgColor, bgColor), Glyph(s[i] as int, fgColor, bgColor), Grid());
          PrintCharColored(s[i] as int, fgColor, bgColor);
        }
      }
      assert s[..|s|] == s;
    }
  }

  /** The pixels of a cell are those whose coordinates lead back to it. */
  lemma CellOfPixel(col: nat, row: nat, x: nat, y: nat)
    ensures 9 * col < x <= 9 * col + 8 <==> x >= 1 && (x - 1) % 9 < 8 && (x - 1) / 9 == col
    ensures 9 * col < x <= 9 * col + 8 ==> (x - 1) % 9 + 1 == x - 9 * col
    ensures 16 * row <= y < 16 * row + 16 <==> y / 16 == row
    ensures 16 * row <= y < 16 * row + 16 ==> y % 16 == y - 16 * row
  {
  }

  /** Pixel tests and cell tests agree, on screens of any size. */
  lemma GridArithmetic(width: nat, height: nat, t: Text)
    ensures 9 * t.col + 9 + 8 > width <==> t.col + 1 >= GridOf(width, height).columns
    ensures 16 * t.row + 16 + 16 > height <==> t.row + 1 >= GridOf(width, height).rows
  {
  }

  /** On a screen that fits, a cursor inside the grid survives every text. */
  lemma FittingConsoleSurvives(width: nat, height: nat, t: Text, text: seq<Byte>)
    requires Fits(width, height) && Inside(t, GridOf(width, height))
    ensures Survives(width, height, (9 * t.col, 16 * t.row), text)
  {
    FittingSurvives(width, height, (9 * t.col, 16 * t.row), text);
  }

  // ----- sessions -----

  /** What is done with a console. */
  datatype Action =
    | Write(s: string)
    | Print(c: Byte, fg: Color, bg: Color)
    | Clear
    | Recolor(fg: Color, bg: Color)

  /** What a console shows, and its colours. */
  datatype Shows = Shows(text: Text, fg: Color, bg: Color)

  function NewConsole(bg: Color, fg: Color): Shows {
    Shows(Text(map[], bg, 0, 0), fg, bg)
  }

  function Perform(v: Shows, a: Action, z: Size): Shows {
    match a
    case Write(s) => v.(text := TypeAll(v.text, Glyphs(s, v.fg, v.bg), z))
    case Print(c, fg, bg) => v.(text := Type(v.text, Glyph(c, fg, bg), z))
    case Clear => v.(text := Text(map[], v.bg, 0, 0))
    case Recolor(fg, bg) => v.(fg := fg, bg := bg)
  }

  function PerformAll(v: Shows, actions: seq<Action>, z: Size): Shows {
    if actions == [] then v else Perform(PerformAll(v, actions[..|actions| - 1], z), actions[|actions| - 1], z)
  }

  /** The characters an action prints. */
  function Printed(a: Action): seq<Byte> {
    match a
    case Write(s) => Codes(s)
    case Print(c, _, _) => [c]
    case _ => []
  }

  /** Nothing panics while the actions are performed one after the other. */
  ghost predicate SessionSurvives(width: nat, height: nat, v: Shows, actions: seq<Action>) {
    forall i | 0 <= i < |actions| ::
      var t := PerformAll(v, actions[..i], GridOf(width, height)).text;
      Survives(width, height, (9 * t.col, 16 * t.row), Printed(actions[i]))
  }

  lemma {:induction false} SessionStaysInside(v: Shows, actions: seq<Action>, z: Size)
    requires Inside(v.text, z)
    ensures Inside(PerformAll(v, actions, z).text, z)
  {
    if actions != [] {
      var before := PerformAll(v, actions[..|actions| - 1], z);
      SessionStaysInside(v, actions[..|actions| - 1], z);
      match actions[|actions| - 1]
      case Write(s) => StaysInside(before.text, Glyphs(s, before.fg, before.bg), z);
      case _ =>
    }
  }

  /** On a screen that fits, from any cursor inside the grid, nothing ever panics. */
  lemma FittingSessionSurvives(width: nat, height: nat, v: Shows, actions: seq<Action>)
    requires Fits(width, height) && Inside(v.text, GridOf(width, height))
    ensures SessionSurvives(width, height, v, actions)
  {
    forall i | 0 <= i < |actions|
      ensures var t := PerformAll(v, actions[..i], GridOf(width, height)).text;
              Survives(width, height, (9 * t.col, 16 * t.row), Printed(actions[i]))
    {
      SessionStaysInside(v, actions[..i], GridOf(width, height));
      var t := PerformAll(v, actions[..i], GridOf(width, height)).text;
      FittingConsoleSurvives(width, height, t, Printed(actions[i]));
    }
  }

  lemma {:induction false} CodesOfLetters(s: string)
    requires forall i | 0 <= i < |s| :: s[i] == 'A'
    ensures |Codes(s)| == |s| && forall i | 0 <= i < |s| :: Codes(s)[i] == 65
  {
    if s != "" {
      CodesOfLetters(s[1..]);
    }
  }

  /** A new console survives whatever is done with it on exactly the screens that fit. */
  lemma SessionsSurviveIff(width: nat, height: nat, bg: Color, fg: Color)
    ensures (forall actions :: SessionSurvives(width, height, NewConsole(bg, fg), actions)) <==> Fits(width, height)
  {
    var v := NewConsole(bg, fg);
    if Fits(width, height) {
      forall actions
        ensures SessionSurvives(width, height, v, actions)
      {
        FittingSessionSurvives(width, height, v, actions);
      }
    } else {
      var s := seq(width + 1, _ => 'A');
      CodesOfLetters(s);
      if width % 9 == 8 {
        LineTooLong(width, height, 0, Codes(s));
      } else {
        FirstCharacterTooBig(width, height, Codes(s));
      }
      assert [Write(s)][..0] == [];
      assert !SessionSurvives(width, height, v, [Write(s)]);
    }
  }
}
