/**
 * The first click prototype, src/app.ts: a fixed 3-by-3 board built in order (no
 * shuffle, no win check), the clamps `fixCol` / `fixRow`, and a click that moves
 * an item next to the hole into it.
 */
module App {
  import opened Wrappers
  import opened Board

  const ROW_COUNT: nat := 3
  const COL_COUNT: nat := 3

  /** `fixCol`: clamps a column index onto the board; one already on it is kept. */
  function FixCol(col: int): (c: int)
    ensures 0 <= c < COL_COUNT
    ensures 0 <= col < COL_COUNT ==> c == col
  {
    if col <= 0 then 0
    else if col >= COL_COUNT - 1 then COL_COUNT - 1
    else col
  }

  /** `fixRow`: clamps a row index onto the board; one already on it is kept. */
  function FixRow(row: int): (r: int)
    ensures 0 <= r < ROW_COUNT
    ensures 0 <= row < ROW_COUNT ==> r == row
  {
    if row <= 0 then 0
    else if row >= ROW_COUNT - 1 then ROW_COUNT - 1
    else row
  }

  /** The clamped index is the board index nearest to the given one. */
  lemma FixNearest(x: int, v: int)
    ensures 0 <= v < COL_COUNT ==> Abs(FixCol(x) - x) <= Abs(v - x)
    ensures 0 <= v < ROW_COUNT ==> Abs(FixRow(x) - x) <= Abs(v - x)
  {
  }

  /** Clamping twice is clamping once, and clamping never reverses two indices. */
  lemma FixIdempotentMonotone(x: int, y: int)
    ensures FixCol(FixCol(x)) == FixCol(x) && FixRow(FixRow(x)) == FixRow(x)
    ensures x <= y ==> FixCol(x) <= FixCol(y) && FixRow(x) <= FixRow(y)
  {
  }

  /** `Pintu`: the board of items; the canvas, its size and the drawing are not modelled. */
  class Pintu {
    var items: array2<Item>

    ghost predicate Valid()
      reads this, items
    {
      items.Length0 == ROW_COUNT && items.Length1 == COL_COUNT &&
      ValidBoard(Grid(items), ROW_COUNT)
    }

    /** `itemsInited`: the board in order, hole at the top-left corner. */
    constructor(palette: seq<seq<string>>)
      requires Square(palette, ROW_COUNT)
      ensures Valid() && fresh(items)
      ensures Grid(items) == SolvedGrid(ROW_COUNT, palette)
      ensures Solved(Grid(items)) && Hole(Grid(items)) == Some(Pos(0, 0))
    {
      var a := CreateItems(ROW_COUNT, palette);
      items := a;
      SolvedGridFacts(ROW_COUNT, palette);
    }

    /**
     * `handleClick` from the clicked cell on (the pixel-to-cell arithmetic is not
     * modelled, and this version has no bounds check, so the cell must be on the
     * board): a click next to the hole, in its row or its column, swaps the clicked
     * item into the hole; any other click, the hole's own cell included, does nothing.
     */
    method HandleClick(row: int, col: int) returns (moved: bool)
      requires Valid() && 0 <= row < ROW_COUNT && 0 <= col < COL_COUNT
      modifies items
      ensures Valid()
      ensures var g := old(Grid(items)); var h := Hole(g);
        h.Some? && moved == Adjacent(h.value, Pos(row, col)) &&
        Grid(items) == (if moved then SwapCells(g, h.value, Pos(row, col)) else g)
      ensures moved ==> Hole(Grid(items)) == Some(Pos(row, col))
    {
      ghost var g := Grid(items);
      ExactlyOneHole(g, ROW_COUNT);
      moved := TryMove(items, row, col);
      if moved {
        SwapPreservesValid(g, ROW_COUNT, Hole(g).value, Pos(row, col));
        MoveRelocatesHole(g, ROW_COUNT, Pos(row, col));
      }
    }
  }
}
