/**
 The text terminal of `vga.c`: an 80x25 screen with a cursor, and the unbounded paper
 that it shows the last 25 rows of.
 */
module Terminal {

  const WIDTH := 80
  const HEIGHT := 25
  const CELLS := 2000
  const NEWLINE: bv8 := 10
  const TAB: bv8 := 9
  const BACKSPACE: bv8 := 8
  const BLANK_CHAR: bv8 := 32

  function Entry(c: bv8, attr: bv8): (e: bv16) {
    (c as bv16) | ((attr as bv16) << 8)
  }

  function Attribute(foreground: bv8, background: bv8): (attr: bv8) {
    (background << 4) | foreground
  }

  /** What the hardware shows of a cell: the character in its low byte, in the colour of its high one. */
  function CharOf(cell: bv16): (c: bv8) {
    (cell & 0xFF) as bv8
  }

  function ColorOf(cell: bv16): (attr: bv8) {
    (cell >> 8) as bv8
  }

  lemma EntryShows(c: bv8, attr: bv8)
    ensures CharOf(Entry(c, attr)) == c && ColorOf(Entry(c, attr)) == attr
  {
  }

  /** In an attribute the low half is the foreground and the high half the background, for the 16 colours. */
  lemma AttributeHalves(foreground: bv8, background: bv8)
    requires foreground < 16 && background < 16
    ensures Attribute(foreground, background) & 0x0F == foreground
    ensures Attribute(foreground, background) >> 4 == background
  {
  }

  /** A cell determines the character and the colour it was made from. */
  lemma EntryInjective(c: bv8, attr: bv8, c': bv8, attr': bv8)
    requires Entry(c, attr) == Entry(c', attr')
    ensures c == c' && attr == attr'
  {
  }

  datatype Op =
    | WriteChar(c: bv8)
    | SetColor(foreground: bv8, background: bv8)
    | SetPosition(row: int, col: int)
    | Clear

  // ---------- The screen, as the driver keeps it ----------

  datatype Screen = Screen(cells: seq<bv16>, x: int, y: int, color: bv8)

  predicate OnScreen(s: Screen) {
    |s.cells| == CELLS && 0 <= s.x < WIDTH && 0 <= s.y < HEIGHT
  }

  function Blank(color: bv8): (e: bv16) {
    Entry(BLANK_CHAR, color)
  }

  function ScrollCells(cells: seq<bv16>, color: bv8): (r: seq<bv16>)
    requires |cells| == CELLS
    ensures |r| == CELLS
  {
    seq(CELLS, k requires 0 <= k < CELLS => if k < CELLS - WIDTH then cells[k + WIDTH] else Blank(color))
  }

  function PutCell(s: Screen, x: int, e: bv16): (r: Screen)
    requires |s.cells| == CELLS && 0 <= x < WIDTH && 0 <= s.y < HEIGHT
  {
    s.(cells := s.cells[s.y * WIDTH + x := e])
  }

  /** Where the character itself goes; the cursor may leave the screen. */
  function PlaceChar(s: Screen, c: bv8): (r: Screen)
    requires OnScreen(s)
    ensures |r.cells| == CELLS && r.color == s.color
    ensures 0 <= r.x <= WIDTH && 0 <= r.y <= HEIGHT && (r.y == HEIGHT ==> r.x == 0)
  {
    if c == NEWLINE then s.(x := 0, y := s.y + 1)
    else if c == TAB then s.(x := (s.x + 8) / 8 * 8)
    else if c == BACKSPACE then
      var x := if s.x > 0 then s.x - 1 else s.x;
      PutCell(s, x, Blank(s.color)).(x := x)
    else PutCell(s, s.x, Entry(c, s.color)).(x := s.x + 1)
  }

  /** Line wrapping, then vertical scrolling. */
  function Settle(s: Screen): (r: Screen)
    requires |s.cells| == CELLS
  {
    var w := if s.x >= WIDTH then s.(x := 0, y := s.y + 1) else s;
    if w.y >= HEIGHT then w.(cells := ScrollCells(w.cells, w.color), y := HEIGHT - 1) else w
  }

  function ScreenStep(s: Screen, op: Op): (r: Screen)
    requires OnScreen(s)
    ensures OnScreen(r)
  {
    match op
    case WriteChar(c) => Settle(PlaceChar(s, c))
    case SetColor(fg, bg) => s.(color := Attribute(fg, bg))
    case SetPosition(row, col) =>
      if 0 <= row < HEIGHT && 0 <= col < WIDTH then s.(x := col, y := row) else s
    case Clear => Screen(seq(CELLS, _ => Blank(s.color)), 0, 0, s.color)
  }

  function ScreenRun(s: Screen, ops: seq<Op>): (r: Screen)
    requires OnScreen(s)
    ensures OnScreen(r)
  {
    if ops == [] then s else ScreenStep(ScreenRun(s, ops[..|ops| - 1]), ops[|ops| - 1])
  }

  // ---------- The paper ----------

  type Row = r: seq<bv16> | |r| == WIDTH witness seq(WIDTH, _ => 0)

  /** An endless roll written from the top; the cursor's row is counted from the start of the roll. */
  datatype Paper = Paper(rows: seq<Row>, x: int, y: int, color: bv8)

  /** The number of rows that have left the window. */
  function Top(p: Paper): int {
    |p.rows| - HEIGHT
  }

  predicate OnPaper(p: Paper) {
    0 <= Top(p) <= p.y < |p.rows| && 0 <= p.x < WIDTH
  }

  function BlankRow(color: bv8): (r: Row) {
    seq(WIDTH, _ => Blank(color))
  }

  function WriteCell(p: Paper, x: int, e: bv16): (r: Paper)
    requires OnPaper(p) && 0 <= x < WIDTH
  {
    p.(rows := p.rows[p.y := p.rows[p.y][x := e]])
  }

  /** Down to the start of the next row, which is pulled off the roll if need be. */
  function NextLine(p: Paper): (r: Paper)
    requires OnPaper(p)
    ensures OnPaper(r)
  {
    p.(x := 0, y := p.y + 1, rows := if p.y + 1 == |p.rows| then p.rows + [BlankRow(p.color)] else p.rows)
  }

  /** To column `x` of this row, or to the next line if there is no such column. */
  function MoveTo(p: Paper, x: int): (r: Paper)
    requires OnPaper(p) && 0 <= x
    ensures OnPaper(r)
  {
    if x < WIDTH then p.(x := x) else NextLine(p)
  }

  function PaperStep(p: Paper, op: Op): (r: Paper)
    requires OnPaper(p)
    ensures OnPaper(r)
  {
    match op
    case WriteChar(c) =>
      if c == NEWLINE then NextLine(p)
      else if c == TAB then MoveTo(p, (p.x / 8 + 1) * 8)
      else if c == BACKSPACE then
        var x := if p.x == 0 then 0 else p.x - 1;
        WriteCell(p, x, Blank(p.color)).(x := x)
      else MoveTo(WriteCell(p, p.x, Entry(c, p.color)), p.x + 1)
    case SetColor(fg, bg) => p.(color := Attribute(fg, bg))
    case SetPosition(row, col) =>
      if 0 <= row < HEIGHT && 0 <= col < WIDTH then p.(x := col, y := Top(p) + row) else p
    case Clear => p.(rows := p.rows + seq(HEIGHT, _ => BlankRow(p.color)), x := 0, y := |p.rows|)
  }

  function PaperRun(p: Paper, ops: seq<Op>): (r: Paper)
    requires OnPaper(p)
    ensures OnPaper(r)
  {
    if ops == [] then p else PaperStep(PaperRun(p, ops[..|ops| - 1]), ops[|ops| - 1])
  }

  // ---------- The window ----------

  function Flat(rows: seq<Row>): (cells: seq<bv16>)
    requires |rows| == HEIGHT
    ensures |cells| == CELLS
  {
    seq(CELLS, k requires 0 <= k < CELLS => rows[k / WIDTH][k % WIDTH])
  }

  /** What a screen over the last 25 rows shows. */
  function Window(p: Paper): (s: Screen)
    requires OnPaper(p)
    ensures OnScreen(s)
  {
    Screen(Flat(p.rows[Top(p)..]), p.x, p.y - Top(p), p.color)
  }

  lemma WindowOfWrite(p: Paper, x: int, e: bv16)
    requires OnPaper(p) && 0 <= x < WIDTH
    ensures Window(WriteCell(p, x, e)) == PutCell(Window(p), x, e)
  {
  }

  lemma WindowOfNextLine(p: Paper)
    requires OnPaper(p)
    ensures Window(NextLine(p)) == Settle(Window(p).(x := 0, y := p.y - Top(p) + 1))
  {
    if p.y + 1 == |p.rows| {
      var p', t := NextLine(p), Top(p);
      forall k | 0 <= k < CELLS
        ensures Flat(p'.rows[t + 1..])[k] == ScrollCells(Flat(p.rows[t..]), p.color)[k]
      {
        if k < CELLS - WIDTH {
          assert (k + WIDTH) / WIDTH == k / WIDTH + 1 && (k + WIDTH) % WIDTH == k % WIDTH;
        } else {
          assert k / WIDTH == HEIGHT - 1;
        }
      }
    }
  }

  /** The driver's step is the paper's step seen through the window. */
  lemma StepRefines(p: Paper, op: Op)
    requires OnPaper(p)
    ensures Window(PaperStep(p, op)) == ScreenStep(Window(p), op)
  {
    match op
    case WriteChar(c) => CharRefines(p, c);
    case SetColor(_, _) =>
    case SetPosition(_, _) =>
    case Clear =>
      var p' := PaperStep(p, op);
      assert p'.rows[Top(p')..] == seq(HEIGHT, _ => BlankRow(p.color));
  }

  lemma CharRefines(p: Paper, c: bv8)
    requires OnPaper(p)
    ensures Window(PaperStep(p, WriteChar(c))) == Settle(PlaceChar(Window(p), c))
  {
    if c == NEWLINE {
      WindowOfNextLine(p);
    } else if c == TAB {
      MoveRefines(p, (p.x / 8 + 1) * 8);
    } else if c == BACKSPACE {
      WindowOfWrite(p, if p.x == 0 then 0 else p.x - 1, Blank(p.color));
    } else {
      WindowOfWrite(p, p.x, Entry(c, p.color));
      MoveRefines(WriteCell(p, p.x, Entry(c, p.color)), p.x + 1);
    }
  }

  lemma MoveRefines(p: Paper, x: int)
    requires OnPaper(p) && 0 <= x
    ensures Window(MoveTo(p, x)) == Settle(Window(p).(x := x))
  {
    if x >= WIDTH {
      WindowOfNextLine(p);
    }
  }

  /** Over every sequence of operations the screen shows the last 25 rows of the paper. */
  lemma {:induction false} ScreenShowsPaper(p: Paper, ops: seq<Op>)
    requires OnPaper(p)
    ensures ScreenRun(Window(p), ops) == Window(PaperRun(p, ops))
  {
    if ops != [] {
      var n := |ops| - 1;
      ScreenShowsPaper(p, ops[..n]);
      StepRefines(PaperRun(p, ops[..n]), ops[n]);
    }
  }

  /** Any screen is the window of some paper, so that holds from any start. */
  function Lift(s: Screen): (p: Paper)
    requires OnScreen(s)
    ensures OnPaper(p) && Top(p) == 0
  {
    Paper(seq(HEIGHT, i requires 0 <= i < HEIGHT => s.cells[WIDTH * i..WIDTH * i + WIDTH]), s.x, s.y, s.color)
  }

  lemma WindowOfLift(s: Screen)
    requires OnScreen(s)
    ensures Window(Lift(s)) == s
  {
  }

  /** The same, from any screen: its rows are taken as the first 25 of the roll. */
  lemma AnyScreenShowsPaper(s: Screen, ops: seq<Op>)
    requires OnScreen(s)
    ensures ScreenRun(s, ops) == Window(PaperRun(Lift(s), ops))
  {
    WindowOfLift(s);
    ScreenShowsPaper(Lift(s), ops);
  }

  /** A row that has left the window never changes again, and none comes back. */
  lemma {:induction false} ScrolledOffStays(p: Paper, ops: seq<Op>, i: nat)
    requires OnPaper(p) && i < Top(p)
    ensures Top(p) <= Top(PaperRun(p, ops))
    ensures PaperRun(p, ops).rows[i] == p.rows[i]
  {
    if ops != [] {
      ScrolledOffStays(p, ops[..|ops| - 1], i);
    }
  }

  // ---------- Layout of plain text ----------

  predicate Plain(text: seq<bv8>) {
    forall k :: 0 <= k < |text| ==> text[k] != NEWLINE && text[k] != TAB && text[k] != BACKSPACE
  }

  /** Clears the screen and writes a text. */
  function TextOps(text: seq<bv8>): (ops: seq<Op>)
    ensures |ops| == |text| + 1
  {
    if text == [] then [Clear] else TextOps(text[..|text| - 1]) + [WriteChar(text[|text| - 1])]
  }

  /** `text` is laid out from row `r` on, 80 characters to a row, and the cursor stands after it. */
  predicate LaidOut(q: Paper, r: nat, text: seq<bv8>, color: bv8) {
    var n := |text|;
    && OnPaper(q) && q.color == color && q.x == n % WIDTH && q.y == r + n / WIDTH
    && |q.rows| == (if n / WIDTH < HEIGHT then r + HEIGHT else r + n / WIDTH + 1)
    && forall k :: 0 <= k < n ==> q.rows[r + k / WIDTH][k % WIDTH] == Entry(text[k], color)
  }

  lemma {:induction false} TextOnPaper(p: Paper, text: seq<bv8>)
    requires OnPaper(p) && Plain(text)
    ensures LaidOut(PaperRun(p, TextOps(text)), |p.rows|, text, p.color)
  {
    var n := |text|;
    if n == 0 {
      assert TextOps(text)[..0] == [];
    } else {
      var before, c := text[..n - 1], text[n - 1];
      assert TextOps(text)[..n] == TextOps(before);
      TextOnPaper(p, before);
      OneMoreChar(PaperRun(p, TextOps(before)), |p.rows|, before, c, p.color);
      assert before + [c] == text;
    }
  }

  lemma OneMoreChar(q: Paper, r: nat, text: seq<bv8>, c: bv8, color: bv8)
    requires LaidOut(q, r, text, color) && Plain([c])
    ensures LaidOut(PaperStep(q, WriteChar(c)), r, text + [c], color)
  {
    assert Plain([c]) && [c][0] == c;
    var n, q', t := |text|, PaperStep(q, WriteChar(c)), text + [c];
    NextColumn(n);
    forall k | 0 <= k < n + 1 ensures q'.rows[r + k / WIDTH][k % WIDTH] == Entry(t[k], color) {
      if k < n {
        SamePlace(k, n);
      }
    }
  }

  lemma NextColumn(n: nat)
    ensures if n % WIDTH + 1 < WIDTH then (n + 1) % WIDTH == n % WIDTH + 1 && (n + 1) / WIDTH == n / WIDTH
            else (n + 1) % WIDTH == 0 && (n + 1) / WIDTH == n / WIDTH + 1
  {
  }

  lemma SamePlace(k: nat, n: nat)
    requires k < n
    ensures k / WIDTH <= n / WIDTH
    ensures k / WIDTH == n / WIDTH ==> k % WIDTH != n % WIDTH
  {
  }

  /** The rows of a text of `n` characters that have scrolled away. */
  function RowsGone(n: nat): (m: nat) {
    if n < CELLS then 0 else n / WIDTH - (HEIGHT - 1)
  }

  lemma WindowOfText(q: Paper, r: nat, text: seq<bv8>, color: bv8)
    requires LaidOut(q, r, text, color)
    ensures Top(q) == r + RowsGone(|text|)
    ensures WIDTH * (q.y - Top(q)) + q.x == |text| - WIDTH * RowsGone(|text|)
  {
  }

  lemma CellOfText(q: Paper, r: nat, text: seq<bv8>, color: bv8, k: nat)
    requires LaidOut(q, r, text, color) && WIDTH * RowsGone(|text|) <= k < |text|
    ensures k - WIDTH * RowsGone(|text|) < CELLS
    ensures Window(q).cells[k - WIDTH * RowsGone(|text|)] == Entry(text[k], color)
  {
  }

  /**
   What the user sees: after a clear and any plain text, from any screen, the cells show
   the text in reading order, in the current colour, less the rows that have scrolled away, of
   which there are none while the text is shorter than the screen.
   */
  lemma ScreenShowsText(s: Screen, text: seq<bv8>, k: nat)
    requires OnScreen(s) && Plain(text)
    ensures var gone, t := WIDTH * RowsGone(|text|), ScreenRun(s, TextOps(text));
            && 80 * t.y + t.x == |text| - gone
            && (gone <= k < |text| ==>
                  k - gone < CELLS && CharOf(t.cells[k - gone]) == text[k] && ColorOf(t.cells[k - gone]) == s.color)
  {
    var p := Lift(s);
    var q := PaperRun(p, TextOps(text));
    AnyScreenShowsPaper(s, TextOps(text));
    TextOnPaper(p, text);
    WindowOfText(q, |p.rows|, text, s.color);
    if WIDTH * RowsGone(|text|) <= k < |text| {
      CellOfText(q, |p.rows|, text, s.color, k);
      EntryShows(text[k], s.color);
    }
  }

  // ---------- Control characters and the cursor ----------

  predicate ShowsBlank(cell: bv16, color: bv8) {
    CharOf(cell) == 32 && ColorOf(cell) == color
  }

  lemma BlankShows(color: bv8)
    ensures ShowsBlank(Blank(color), color)
  {
    EntryShows(32, color);
  }

  /**
   A line feed goes to the start of the next row; from the last one all rows move up, and a
   blank one follows.
   */
  lemma LineFeed(s: Screen)
    requires OnScreen(s)
    ensures var t := ScreenStep(s, WriteChar(10));
            && t.x == 0 && t.color == s.color
            && (s.y < 24 ==> t.y == s.y + 1 && t.cells == s.cells)
            && (s.y == 24 ==>
                  && t.y == 24 && (forall k :: 0 <= k < 1920 ==> t.cells[k] == s.cells[k + 80])
                  && forall k :: 1920 <= k < 2000 ==> ShowsBlank(t.cells[k], s.color))
  {
    BlankShows(s.color);
    if s.y == 24 {
      assert ScreenStep(s, WriteChar(10)).cells == ScrollCells(s.cells, s.color);
    }
  }

  /**
   A tab writes nothing and goes to the next multiple of eight; behind the last one in the row
   it is a line feed.
   */
  lemma TabStop(s: Screen)
    requires OnScreen(s)
    ensures var t := ScreenStep(s, WriteChar(9));
            if s.x >= 72 then t == ScreenStep(s, WriteChar(10))
            else t == s.(x := t.x) && t.x % 8 == 0 && s.x < t.x <= s.x + 8
  {
  }

  /** The screen with `e` in the cell at the cursor. */
  function AtCursor(s: Screen, e: bv16): (t: Screen)
    requires OnScreen(s)
    ensures OnScreen(t)
  {
    s.(cells := s.cells[80 * s.y + s.x := e])
  }

  /** A character that is not the last in its row. */
  lemma PlainStep(s: Screen, c: bv8)
    requires OnScreen(s) && c != 10 && c != 9 && c != 8 && s.x < 79
    ensures ScreenStep(s, WriteChar(c)) == AtCursor(s, Entry(c, s.color)).(x := s.x + 1)
  {
  }

  /** A backspace undoes a character: cursor and colour are as before, and its cell is blank. */
  lemma BackspaceUndoes(s: Screen, c: bv8)
    requires OnScreen(s) && c != 10 && c != 9 && c != 8 && s.x < 79
    ensures var t := ScreenStep(ScreenStep(s, WriteChar(c)), WriteChar(8));
            t == AtCursor(s, t.cells[80 * s.y + s.x]) && ShowsBlank(t.cells[80 * s.y + s.x], s.color)
  {
    var u := ScreenStep(s, WriteChar(c));
    PlainStep(s, c);
    assert ScreenStep(u, WriteChar(8)) == AtCursor(s, Blank(s.color));
    BlankShows(s.color);
  }

  /** In the first column it stays there, and blanks the cell it stands on. */
  lemma BackspaceAtStart(s: Screen)
    requires OnScreen(s) && s.x == 0
    ensures var t := ScreenStep(s, WriteChar(8));
            t == AtCursor(s, t.cells[80 * s.y]) && ShowsBlank(t.cells[80 * s.y], s.color)
  {
    BlankShows(s.color);
    assert ScreenStep(s, WriteChar(8)) == AtCursor(s, Blank(s.color));
  }

  /**
   A character after a colour change and a cursor move shows at that row and column in those
   colours, and nothing else changes but the colour and the cursor, which stands behind it.
   */
  lemma PlacedAndColored(s: Screen, fg: bv8, bg: bv8, row: nat, col: nat, c: bv8)
    requires OnScreen(s) && row < 25 && col < 79 && fg < 16 && bg < 16 && c != 10 && c != 9 && c != 8
    ensures var t := ScreenStep(ScreenStep(ScreenStep(s, SetColor(fg, bg)), SetPosition(row, col)), WriteChar(c));
            var cell := t.cells[80 * row + col];
            && CharOf(cell) == c && ColorOf(cell) & 0x0F == fg && ColorOf(cell) >> 4 == bg
            && t == Screen(s.cells[80 * row + col := cell], col + 1, row, t.color)
  {
    var u := ScreenStep(ScreenStep(s, SetColor(fg, bg)), SetPosition(row, col));
    PlainStep(u, c);
    EntryShows(c, u.color);
    AttributeHalves(fg, bg);
  }

  /** A clear shows blanks in the current colour everywhere, and puts the cursor at the start. */
  lemma Cleared(s: Screen)
    requires OnScreen(s)
    ensures var t := ScreenStep(s, Clear);
            && t.x == 0 && t.y == 0 && t.color == s.color
            && forall k :: 0 <= k < 2000 ==> ShowsBlank(t.cells[k], s.color)
  {
    BlankShows(s.color);
  }
}
