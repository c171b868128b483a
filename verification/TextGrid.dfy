/** The console as a grid of character cells with a cursor that wraps around. */
module TextGrid {
  import opened Pages
  import opened Screens

  const CHAR_WIDTH: nat := 8
  const CHAR_HEIGHT: nat := 16
  const CELL_WIDTH: nat := 9

  const NEWLINE: nat := 10

  /** A character and the colours it was printed with. */
  datatype Glyph = Glyph(c: Byte, fg: Color, bg: Color)

  /** The cells printed since the last clear, the colour of everything else, and the cursor. */
  datatype Text = Text(cells: map<(nat, nat), Glyph>, bg: Color, col: nat, row: nat)

  /** A grid of `columns` by `rows` cells. */
  datatype Size = Size(columns: nat, rows: nat)

  function GridOf(width: nat, height: nat): Size {
    Size((width + 1) / CELL_WIDTH, height / CHAR_HEIGHT)
  }

  /** Screens on which no character is ever drawn off the screen. */
  predicate Fits(width: nat, height: nat) {
    width >= 9 && width % 9 != 8 && height >= 16
  }

  function LineBelow(t: Text, z: Size): Text {
    t.(col := 0, row := if t.row + 1 < z.rows then t.row + 1 else 0)
  }

  function Type(t: Text, g: Glyph, z: Size): Text {
    if g.c == NEWLINE then LineBelow(t, z)
    else
      var t1 := t.(cells := t.cells[(t.col, t.row) := g]);
      if t.col + 1 < z.columns then t1.(col := t.col + 1) else LineBelow(t1, z)
  }

  function TypeAll(t: Text, gs: seq<Glyph>, z: Size): Text {
    if gs == [] then t else Type(TypeAll(t, gs[..|gs| - 1], z), gs[|gs| - 1], z)
  }

  // ----- rendering -----

  predicate BitSet(b: bv8, i: nat)
    requires i < 8
  {
    b & (1 << i) != 0
  }

  /** The colour of a character's pixel; columns count from 1, because the source draws bit i at
      distance 8 - i from the cursor. */
  function GlyphPixel(font: seq<bv8>, g: Glyph, dx: nat, dy: nat): Color
    requires |font| >= 4096 && 1 <= dx <= 8 && dy < 16
  {
    if BitSet(font[g.c * 16 + dy], 8 - dx) then g.fg else g.bg
  }

  lemma BitMeaning(b: bv8, i: nat)
    requires i < 8
    ensures BitSet(b, i) <==> (b >> i) & 1 == 1
  {
    match i
    case 0 =>
    case 1 =>
    case 2 =>
    case 3 =>
    case 4 =>
    case 5 =>
    case 6 =>
    case 7 =>
  }

  /** Bit k of line r of character c, which is byte 16 * c + r of the font, decides the pixel 8 - k to the
      right of the cursor: foreground where it is set. */
  lemma GlyphDots(font: seq<bv8>, g: Glyph, k: nat, r: nat)
    requires |font| >= 4096 && k < 8 && r < 16
    ensures GlyphPixel(font, g, 8 - k, r) == if (font[16 * g.c + r] >> k) & 1 == 1 then g.fg else g.bg
  {
    BitMeaning(font[16 * g.c + r], k);
  }

  /** An empty line is all background, a full one all foreground, and one with a single bit set has a single
      foreground pixel. */
  lemma GlyphLines(font: seq<bv8>, g: Glyph, dx: nat, r: nat, k: nat)
    requires |font| >= 4096 && 1 <= dx <= 8 && r < 16 && k < 8
    ensures font[16 * g.c + r] == 0x00 ==> GlyphPixel(font, g, dx, r) == g.bg
    ensures font[16 * g.c + r] == 0xff ==> GlyphPixel(font, g, dx, r) == g.fg
    ensures font[16 * g.c + r] == 1 << k ==> GlyphPixel(font, g, dx, r) == if dx == 8 - k then g.fg else g.bg
  {
    SingleBits(8 - dx, k);
  }

  lemma SingleBits(i: nat, k: nat)
    requires i < 8 && k < 8
    ensures !BitSet(0x00, i) && BitSet(0xff, i) && (BitSet(1 << k, i) <==> i == k)
  {
    match i
    case 0 =>
    case 1 =>
    case 2 =>
    case 3 =>
    case 4 =>
    case 5 =>
    case 6 =>
    case 7 =>
  }

  /** The colour the cells give to pixel (x, y). */
  function Shown(font: seq<bv8>, cells: map<(nat, nat), Glyph>, bg: Color, x: nat, y: nat): Color
    requires |font| >= 4096
  {
    if x >= 1 && (x - 1) % 9 < 8 && ((x - 1) / 9, y / 16) in cells then
      GlyphPixel(font, cells[((x - 1) / 9, y / 16)], (x - 1) % 9 + 1, y % 16)
    else bg
  }

  // ----- the cursor -----

  predicate HasCells(z: Size) {
    z.columns > 0 && z.rows > 0
  }

  predicate Inside(t: Text, z: Size) {
    t.col < z.columns && t.row < z.rows
  }

  /** Typing never moves the cursor off the grid. */
  lemma {:induction false} StaysInside(t: Text, gs: seq<Glyph>, z: Size)
    requires Inside(t, z)
    ensures Inside(TypeAll(t, gs, z), z)
  {
    if gs != [] {
      StaysInside(t, gs[..|gs| - 1], z);
    }
  }

  ghost predicate NoNewline(gs: seq<Glyph>) {
    forall i | 0 <= i < |gs| :: gs[i].c != NEWLINE
  }

  /** Column and row of the n-th character on a grid with wrap-around. */
  function Place(n: nat, z: Size): (nat, nat)
    requires z.columns > 0 && z.rows > 0
  {
    (n % z.columns, n / z.columns % z.rows)
  }

  lemma DivStep(n: nat, k: nat)
    requires k > 0
    ensures if n % k + 1 < k then (n + 1) % k == n % k + 1 && (n + 1) / k == n / k
            else (n + 1) % k == 0 && (n + 1) / k == n / k + 1
  {
    var q, r := n / k, n % k;
    assert n == q * k + r;
    if r + 1 < k {
      DivUnique(n + 1, k, q, r + 1);
    } else {
      assert (q + 1) * k == q * k + k;
      DivUnique(n + 1, k, q + 1, 0);
    }
  }

  lemma DivUnique(n: nat, k: nat, q: nat, r: nat)
    requires k > 0 && r < k && n == q * k + r
    ensures n / k == q && n % k == r
  {
    var p, s := n / k, n % k;
    assert n == p * k + s;
    assert p < q ==> (p + 1) * k <= q * k;
    assert q < p ==> (q + 1) * k <= p * k;
  }

  lemma NextPlace(n: nat, z: Size)
    requires z.columns > 0 && z.rows > 0
    ensures var (col, row) := Place(n, z);
            Place(n + 1, z) == if col + 1 < z.columns then (col + 1, row)
                               else (0, if row + 1 < z.rows then row + 1 else 0)
  {
    DivStep(n, z.columns);
    DivStep(n / z.columns, z.rows);
  }

  /** After n characters and no newline the cursor is at column n mod C, and n / C rows further down, modulo
      R. */
  lemma {:induction false} CursorAfter(t: Text, gs: seq<Glyph>, z: Size)
    requires t.col == 0 && Inside(t, z) && NoNewline(gs)
    ensures (TypeAll(t, gs, z).col, TypeAll(t, gs, z).row) == Place(t.row * z.columns + |gs|, z)
  {
    if gs == [] {
      DivUnique(t.row * z.columns, z.columns, t.row, 0);
      DivUnique(t.row, z.rows, 0, t.row);
    } else {
      CursorAfter(t, gs[..|gs| - 1], z);
      NextPlace(t.row * z.columns + |gs| - 1, z);
    }
  }

  /** A line feed, code 10, draws nothing and moves to the start of the next line; below the last line that is
      the first. */
  lemma LineFeed(t: Text, gs: seq<Glyph>, fg: Color, bg: Color, z: Size)
    requires Inside(t, z)
    ensures var before, after := TypeAll(t, gs, z), TypeAll(t, gs + [Glyph(10, fg, bg)], z);
            after == Text(before.cells, before.bg, 0, (before.row + 1) % z.rows)
  {
    StaysInside(t, gs, z);
    assert (gs + [Glyph(10, fg, bg)])[..|gs|] == gs;
    var row := TypeAll(t, gs, z).row;
    if row + 1 < z.rows {
      DivUnique(row + 1, z.rows, 0, row + 1);
    } else {
      DivUnique(row + 1, z.rows, 1, 0);
    }
  }

  /** In pixels: 16 further down if a whole line still fits there, otherwise at the top. */
  lemma LineFeedMoves(width: nat, height: nat, x: nat, y: nat)
    ensures Moved(width, height, (x, y), 10) == Some((0, if y + 32 <= height then y + 16 else 0))
  {
  }

  /** Two characters share a cell only when a whole number of screenfuls lies between them. */
  lemma SamePlace(i: nat, j: nat, z: Size)
    requires z.columns > 0 && z.rows > 0 && i < j && Place(i, z) == Place(j, z)
    ensures j - i >= z.columns * z.rows
  {
    var c, r := z.columns, z.rows;
    var qi, qj := i / c, j / c;
    var pi, pj := qi / r, qj / r;
    assert i == qi * c + i % c && j == qj * c + j % c;
    assert j - i == (qj - qi) * c;
    assert qi == pi * r + qi % r && qj == pj * r + qj % r;
    assert qj - qi == (pj - pi) * r;
    Screenfuls(pj - pi, r, c);
  }

  lemma Screenfuls(d: int, r: nat, c: nat)
    requires c > 0 && r > 0 && d * r * c > 0
    ensures d * r * c >= c * r
  {
    assert d <= 0 ==> d * r <= 0;
    assert d * r <= 0 ==> d * r * c <= 0;
    assert d >= 1 ==> d * r >= r;
    assert d * r >= r ==> d * r * c >= r * c;
  }

  /** The grid shows the last screenful: each of the last C * R characters is in its cell. */
  lemma {:induction false} LastScreenful(t: Text, gs: seq<Glyph>, z: Size, i: nat)
    requires HasCells(z) && t.col == 0 && t.row == 0 && NoNewline(gs)
    requires i < |gs| <= i + z.columns * z.rows
    ensures Place(i, z) in TypeAll(t, gs, z).cells && TypeAll(t, gs, z).cells[Place(i, z)] == gs[i]
    decreases |gs|
  {
    var shorter := gs[..|gs| - 1];
    CursorAfter(t, shorter, z);
    if i < |shorter| {
      LastScreenful(t, shorter, z, i);
      if Place(i, z) == Place(|shorter|, z) {
        SamePlace(i, |shorter|, z);
        assert false;
      }
    }
  }

  // ----- which screens are safe -----

  /** Pixel i of line r of a character drawn with the cursor at (x, y) is on the screen. */
  predicate OnScreen(width: nat, height: nat, x: nat, y: nat, i: nat, r: nat)
    requires i < 8
  {
    x + (8 - i) < width && y + r < height
  }

  /** No assertion fails while the character is drawn. */
  ghost predicate Drawable(width: nat, height: nat, x: nat, y: nat) {
    forall i: nat, r: nat | i < 8 && r < 16 :: OnScreen(width, height, x, y, i, r)
  }

  lemma DrawableMeaning(width: nat, height: nat, x: nat, y: nat)
    ensures Drawable(width, height, x, y) <==> x + 8 < width && y + 15 < height
  {
    if Drawable(width, height, x, y) {
      assert OnScreen(width, height, x, y, 0, 0) && OnScreen(width, height, x, y, 0, 15);
    }
  }

  function CursorBelow(height: nat, y: nat): nat {
    if y + 16 + 16 > height then 0 else y + 16
  }

  /** The cursor of `print_char_colored` in pixels, or nothing when drawing panics. */
  ghost function Moved(width: nat, height: nat, at: (nat, nat), c: Byte): Option<(nat, nat)> {
    var (x, y) := at;
    if c == NEWLINE then Some((0, CursorBelow(height, y)))
    else if !Drawable(width, height, x, y) then None
    else if x + 9 + 8 > width then Some((0, CursorBelow(height, y)))
    else Some((x + 9, y))
  }

  ghost predicate Survives(width: nat, height: nat, at: (nat, nat), text: seq<Byte>)
    decreases |text|
  {
    text == [] ||
    match Moved(width, height, at, text[0])
    case None => false
    case Some(at') => Survives(width, height, at', text[1..])
  }

  /** The cursor is at a cell of the grid. */
  predicate AtCell(width: nat, height: nat, at: (nat, nat)) {
    at.0 % 9 == 0 && at.0 + 8 <= width && at.1 + 16 <= height
  }

  lemma {:induction false} FittingSurvives(width: nat, height: nat, at: (nat, nat), text: seq<Byte>)
    requires Fits(width, height) && AtCell(width, height, at)
    ensures Survives(width, height, at, text)
    decreases |text|
  {
    if text != [] {
      DrawableMeaning(width, height, at.0, at.1);
      FittingSurvives(width, height, Moved(width, height, at, text[0]).value, text[1..]);
    }
  }

  /** On a screen whose width leaves 8 modulo 9, the last character of the first line panics. */
  lemma {:induction false} LineTooLong(width: nat, height: nat, x: nat, text: seq<Byte>)
    requires width % 9 == 8 && x % 9 == 0 && x + 8 <= width && |text| * 9 + x > width
    requires forall i | 0 <= i < |text| :: text[i] != NEWLINE
    ensures !Survives(width, height, (x, 0), text)
    decreases |text|
  {
    DrawableMeaning(width, height, x, 0);
    if x + 8 < width && Moved(width, height, (x, 0), text[0]).Some? {
      LineTooLong(width, height, x + 9, text[1..]);
    }
  }

  lemma FirstCharacterTooBig(width: nat, height: nat, text: seq<Byte>)
    requires (width < 9 || height < 16) && text != [] && text[0] != NEWLINE
    ensures !Survives(width, height, (0, 0), text)
  {
    DrawableMeaning(width, height, 0, 0);
  }

  /** Every text can be printed on exactly the screens that fit. */
  lemma SurvivesIff(width: nat, height: nat)
    ensures (forall text: seq<Byte> :: Survives(width, height, (0, 0), text)) <==> Fits(width, height)
  {
    if Fits(width, height) {
      forall text: seq<Byte>
        ensures Survives(width, height, (0, 0), text)
      {
        FittingSurvives(width, height, (0, 0), text);
      }
    } else if width % 9 == 8 {
      var text: seq<Byte> := seq(width + 1, _ => 65);
      LineTooLong(width, height, 0, text);
    } else {
      var text: seq<Byte> := seq(1, _ => 65);
      FirstCharacterTooBig(width, height, text);
    }
  }
}
