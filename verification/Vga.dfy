/** The driver of `vga.c` on its buffer of cells, updated in place and proved against the screen's steps. */
module Vga {
  import opened Terminal

  class Driver {
    const cells: array<bv16>
    var x: int
    var y: int
    var color: bv8

    ghost function Shown(): (s: Screen)
      reads this, cells
    {
      Screen(cells[..], x, y, color)
    }

    /** Takes over the buffer as it is, with the cursor at the top left, white on black. */
    constructor (buffer: array<bv16>)
      requires buffer.Length == CELLS
      ensures Shown() == Screen(buffer[..], 0, 0, 0x0F) && cells == buffer
    {
      cells := buffer;
      x, y, color := 0, 0, 0x0F;
    }

    /** Copies every row to the one above it and clears the last. */
    method ScrollDown()
      requires cells.Length == CELLS
      modifies this`y, cells
      ensures cells[..] == ScrollCells(old(cells[..]), color) && y == HEIGHT - 1
    {
      var row := 0;
      while row < HEIGHT - 1
        invariant 0 <= row <= HEIGHT - 1
        invariant forall k :: 0 <= k < CELLS ==>
                    cells[k] == if k < row * WIDTH then old(cells[k + WIDTH]) else old(cells[k])
      {
        var col := 0;
        while col < WIDTH
          invariant 0 <= col <= WIDTH
          invariant forall k :: 0 <= k < CELLS ==>
                      cells[k] == if k < row * WIDTH + col then old(cells[k + WIDTH]) else old(cells[k])
        {
          cells[row * WIDTH + col] := cells[(row + 1) * WIDTH + col];
          col := col + 1;
        }
        row := row + 1;
      }
      var col := 0;
      while col < WIDTH
        invariant 0 <= col <= WIDTH
        invariant forall k :: 0 <= k < CELLS - WIDTH ==> cells[k] == old(cells[k + WIDTH])
        invariant forall k :: CELLS - WIDTH <= k < CELLS - WIDTH + col ==> cells[k] == Blank(color)
      {
        cells[(HEIGHT - 1) * WIDTH + col] := Blank(color);
        col := col + 1;
      }
      y := HEIGHT - 1;
    }

    method WriteChar(c: bv8)
      requires OnScreen(Shown())
      modifies this, cells
      ensures Shown() == ScreenStep(old(Shown()), Op.WriteChar(c))
    {
      if c == NEWLINE {
        x, y := 0, y + 1;
      } else if c == TAB {
        x := (x + 8) / 8 * 8;
      } else if c == BACKSPACE {
        if x > 0 {
          x := x - 1;
        }
        cells[y * WIDTH + x] := Blank(color);
      } else {
        cells[y * WIDTH + x] := Entry(c, color);
        x := x + 1;
      }
      assert Shown() == PlaceChar(old(Shown()), c);
      if x >= WIDTH {
        x, y := 0, y + 1;
      }
      if y >= HEIGHT {
        ScrollDown();
      }
    }

    method ClearScreen()
      requires cells.Length == CELLS && OnScreen(Shown())
      modifies this, cells
      ensures Shown() == ScreenStep(old(Shown()), Clear)
    {
      var row := 0;
      while row < HEIGHT
        invariant 0 <= row <= HEIGHT
        invariant color == old(color)
        invariant forall k :: 0 <= k < row * WIDTH ==> cells[k] == Blank(color)
      {
        var col := 0;
        while col < WIDTH
          invariant 0 <= col <= WIDTH
          invariant color == old(color)
          invariant forall k :: 0 <= k < row * WIDTH + col ==> cells[k] == Blank(color)
        {
          cells[row * WIDTH + col] := Blank(color);
          col := col + 1;
        }
        row := row + 1;
      }
      x, y := 0, 0;
    }

    method SetColor(foreground: bv8, background: bv8)
      requires OnScreen(Shown())
      modifies this`color
      ensures Shown() == ScreenStep(old(Shown()), Op.SetColor(foreground, background))
    {
      color := (background << 4) | foreground;
    }

    method SetPosition(row: int, col: int)
      requires OnScreen(Shown())
      modifies this`x, this`y
      ensures Shown() == ScreenStep(old(Shown()), Op.SetPosition(row, col))
    {
      if 0 <= row < HEIGHT && 0 <= col < WIDTH {
        x, y := col, row;
      }
    }

    /** Writes the characters of a NUL-terminated string, in order. */
    method WriteString(str: seq<bv8>)
      requires OnScreen(Shown()) && 0 in str
      modifies this, cells
      ensures exists n: nat ::
                && n < |str| && str[n] == 0 && 0 !in str[..n]
                && Shown() == ScreenRun(old(Shown()), CharOps(str[..n]))
    {
      var i := 0;
      while str[i] != 0
        invariant 0 <= i < |str| && 0 !in str[..i]
        invariant OnScreen(Shown()) && Shown() == ScreenRun(old(Shown()), CharOps(str[..i]))
        decreases |str| - i
      {
        assert str[..i + 1][..i] == str[..i];
        WriteChar(str[i]);
        i := i + 1;
        assert str[..i] == str[..i - 1] + [str[i - 1]];
      }
    }
  }

  function CharOps(text: seq<bv8>): (ops: seq<Op>) {
    if text == [] then [] else CharOps(text[..|text| - 1]) + [Op.WriteChar(text[|text| - 1])]
  }
}
