/**
 * The puzzle board of the grid prototypes: a square grid of items with one item tagged
 * fixed (the hole), the row-major scan for the hole, the unconditional swap of two
 * cells, the click move rule and the win condition. src/app.ts has all of `createItems`,
 * `findFixedItemPos`, `swapItem` and the move rule; src/app/pintu.ts has the same
 * `findFixedItemPos`, `swapItem` and move rule, and builds the board inline in
 * `createState`, sized by the level; src/core.ts has `createItems` and a scan that
 * returns the fixed item itself. Each piece is modelled once here.
 */
module Board {
  import opened Wrappers
  import opened Seqs

  /** `ItemTag`: 0 marks the fixed cell (the hole), 1 a movable tile. */
  datatype Tag = Fixed | Movable

  /** A tile: the number of its home cell, its colour (cosmetic) and its tag. */
  datatype Item = Item(id: nat, color: string, tag: Tag)

  datatype Pos = Pos(row: int, col: int)

  /** `FIXED_INDEX` / `fixedNo`: the id that is tagged fixed on a new board. */
  const FIXED_INDEX: nat := 0

  /** The colour a new board gives the fixed item. */
  const HOLE_COLOR: string := "#ffffff"

  /** The value of a board: its rows, top to bottom. */
  type Cells = seq<seq<Item>>

  /** The board held in a two-dimensional array, as rows. */
  function Grid(a: array2<Item>): (g: Cells)
    reads a
    ensures |g| == a.Length0 && Rectangular(g, a.Length1)
    ensures forall i, j :: 0 <= i < a.Length0 && 0 <= j < a.Length1 ==> g[i][j] == a[i, j]
  {
    seq(a.Length0, i requires 0 <= i < a.Length0 reads a =>
      seq(a.Length1, j requires 0 <= j < a.Length1 reads a => a[i, j]))
  }

  ghost predicate Square<T>(g: seq<seq<T>>, n: nat)
  {
    |g| == n && Rectangular(g, n)
  }

  predicate InBounds(g: Cells, p: Pos)
  {
    0 <= p.row < |g| && 0 <= p.col < |g[p.row]|
  }

  function Cell(g: Cells, p: Pos): Item
    requires InBounds(g, p)
  {
    g[p.row][p.col]
  }

  function SetCell(g: Cells, p: Pos, v: Item): Cells
    requires InBounds(g, p)
  {
    g[p.row := g[p.row][p.col := v]]
  }

  /**
   * `swapItem` on the value of the board: the two cells trade contents and no
   * other cell changes (the first write goes to `from`, the second to `to`).
   */
  function SwapCells(g: Cells, from: Pos, to: Pos): (r: Cells)
    requires InBounds(g, from) && InBounds(g, to)
    ensures |r| == |g| && forall i :: 0 <= i < |g| ==> |r[i]| == |g[i]|
    ensures Cell(r, from) == Cell(g, to) && Cell(r, to) == Cell(g, from)
    ensures forall i, j :: 0 <= i < |g| && 0 <= j < |g[i]| && Pos(i, j) != from && Pos(i, j) != to ==>
      r[i][j] == g[i][j]
  {
    var fromItem, toItem := Cell(g, from), Cell(g, to);
    SetCell(SetCell(g, from, toItem), to, fromItem)
  }

  /** `p` comes before `q` in row-major order. */
  predicate Before(p: Pos, q: Pos)
  {
    p.row < q.row || (p.row == q.row && p.col < q.col)
  }

  /** The first column at or after `j` whose item is fixed. */
  function FirstFixedInRow(r: seq<Item>, j: nat): (c: Option<nat>)
    decreases |r| - j
    ensures c.None? <==> forall k :: j <= k < |r| ==> r[k].tag != Fixed
    ensures c.Some? ==> (j <= c.value < |r| && r[c.value].tag == Fixed &&
                         forall k :: j <= k < c.value ==> r[k].tag != Fixed)
  {
    if j >= |r| then None
    else if r[j].tag == Fixed then Some(j)
    else FirstFixedInRow(r, j + 1)
  }

  /** The first fixed cell, in row-major order, among rows `i` and after. */
  function HoleFrom(g: Cells, i: nat): (h: Option<Pos>)
    decreases |g| - i
    ensures h.None? <==> forall a, b :: i <= a < |g| && 0 <= b < |g[a]| ==> g[a][b].tag != Fixed
    ensures h.Some? ==> (i <= h.value.row && InBounds(g, h.value) && Cell(g, h.value).tag == Fixed &&
                         forall a, b :: i <= a < |g| && 0 <= b < |g[a]| && Before(Pos(a, b), h.value) ==>
                           g[a][b].tag != Fixed)
  {
    if i >= |g| then None
    else match FirstFixedInRow(g[i], 0)
      case Some(j) => Some(Pos(i, j))
      case None => HoleFrom(g, i + 1)
  }

  /**
   * What `findFixedItemPos` finds: the first cell in row-major order whose item is
   * tagged fixed, or nothing (`undefined`) when no item is.
   */
  function Hole(g: Cells): (h: Option<Pos>)
    ensures h.None? <==> forall a, b :: 0 <= a < |g| && 0 <= b < |g[a]| ==> g[a][b].tag != Fixed
    ensures h.Some? ==> (InBounds(g, h.value) && Cell(g, h.value).tag == Fixed &&
                         forall a, b :: 0 <= a < |g| && 0 <= b < |g[a]| && Before(Pos(a, b), h.value) ==>
                           g[a][b].tag != Fixed)
  {
    HoleFrom(g, 0)
  }

  /** A fixed cell with no fixed cell before it is the one the scan finds. */
  lemma HoleIsFirst(g: Cells, p: Pos)
    requires InBounds(g, p) && Cell(g, p).tag == Fixed
    requires forall a, b :: 0 <= a < |g| && 0 <= b < |g[a]| && Before(Pos(a, b), p) ==> g[a][b].tag != Fixed
    ensures Hole(g) == Some(p)
  {
    var h := Hole(g).value;
    assert !Before(h, p);
    assert !Before(p, h);
  }

  /** The click move rule: same row at column distance 1, or same column at row distance 1. */
  predicate Adjacent(h: Pos, p: Pos)
  {
    (p.row == h.row && Abs(p.col - h.col) == 1) || (p.col == h.col && Abs(p.row - h.row) == 1)
  }

  function Abs(x: int): nat
  {
    if x < 0 then -x else x
  }

  /** The item a new board puts at row-major number `no`. */
  function NewItem(no: nat, color: string): Item
  {
    if no == FIXED_INDEX then Item(no, HOLE_COLOR, Fixed) else Item(no, color, Movable)
  }

  /** The board `createItems` builds: the item numbered `i * n + j` at (i, j). */
  function SolvedGrid(n: nat, palette: seq<seq<string>>): (g: Cells)
    requires Square(palette, n)
    ensures Square(g, n)
  {
    seq(n, i requires 0 <= i < n =>
      seq(n, j requires 0 <= j < n => NewItem(i * n + j, palette[i][j])))
  }

  function IdOf(it: Item): nat
  {
    it.id
  }

  /** The ids in row-major order (the list `check` builds). */
  function RowMajorIds(g: Cells): seq<nat>
  {
    Image(IdOf, Flatten(g))
  }

  /** The win condition: the row-major ids are 0, 1, ..., N-1. */
  predicate Solved(g: Cells)
  {
    RowMajorIds(g) == Range(|Flatten(g)|)
  }

  /** An item is tagged fixed exactly when it carries the fixed id. */
  ghost predicate TagFollowsId(g: Cells)
  {
    forall i, j :: 0 <= i < |g| && 0 <= j < |g[i]| ==> (g[i][j].tag == Fixed <==> g[i][j].id == FIXED_INDEX)
  }

  /**
   * The board invariant: an n-by-n grid whose ids are 0..n*n-1, each once, and
   * whose only fixed item is the one with the fixed id.
   */
  ghost predicate ValidBoard(g: Cells, n: nat)
  {
    Square(g, n) && TagFollowsId(g) && multiset(RowMajorIds(g)) == multiset(Range(n * n))
  }

  /** `createItems` / the first loop of `createState`. */
  method CreateItems(n: nat, palette: seq<seq<string>>) returns (a: array2<Item>)
    requires Square(palette, n)
    ensures fresh(a) && a.Length0 == n && a.Length1 == n && Grid(a) == SolvedGrid(n, palette)
  {
    a := new Item[n, n];
    var i := 0;
    while i < n
      invariant 0 <= i <= n
      invariant forall r, c :: 0 <= r < i && 0 <= c < n ==> a[r, c] == NewItem(r * n + c, palette[r][c])
    {
      var j := 0;
      while j < n
        invariant 0 <= j <= n
        invariant forall r, c :: 0 <= r < i && 0 <= c < n ==> a[r, c] == NewItem(r * n + c, palette[r][c])
        invariant forall c :: 0 <= c < j ==> a[i, c] == NewItem(i * n + c, palette[i][c])
      {
        a[i, j] := NewItem(i * n + j, palette[i][j]);
        j := j + 1;
      }
      i := i + 1;
    }
    assert forall r :: 0 <= r < n ==> Grid(a)[r] == SolvedGrid(n, palette)[r];
  }

  /** `findFixedItemPos`: the row-major scan for the first fixed item. */
  method FindFixedItemPos(a: array2<Item>) returns (p: Option<Pos>)
    ensures p == Hole(Grid(a))
  {
    var i := 0;
    while i < a.Length0
      invariant 0 <= i <= a.Length0
      invariant forall r, c :: 0 <= r < i && 0 <= c < a.Length1 ==> a[r, c].tag != Fixed
    {
      var j := 0;
      while j < a.Length1
        invariant 0 <= j <= a.Length1
        invariant forall c :: 0 <= c < j ==> a[i, c].tag != Fixed
      {
        if a[i, j].tag == Fixed {
          HoleIsFirst(Grid(a), Pos(i, j));
          return Some(Pos(i, j));
        }
        j := j + 1;
      }
      i := i + 1;
    }
    return None;
  }

  /** `swapItem`: exchanges the contents of two cells, whatever they hold. */
  method SwapItem(a: array2<Item>, from: Pos, to: Pos)
    requires 0 <= from.row < a.Length0 && 0 <= from.col < a.Length1
    requires 0 <= to.row < a.Length0 && 0 <= to.col < a.Length1
    modifies a
    ensures Grid(a) == SwapCells(old(Grid(a)), from, to)
  {
    ghost var g := Grid(a);
    var fromItem := a[from.row, from.col];
    var toItem := a[to.row, to.col];
    a[from.row, from.col] := toItem;
    a[to.row, to.col] := fromItem;
    ghost var r := SwapCells(g, from, to);
    assert forall i :: 0 <= i < a.Length0 ==> Grid(a)[i] == r[i];
  }

  /**
   * The cell-level part of a click: find the hole; a click on the hole itself does
   * nothing; a click in the hole's row at column distance 1, or in its column at
   * row distance 1, swaps the clicked item into the hole; any other click does nothing.
   */
  method TryMove(a: array2<Item>, row: int, col: int) returns (moved: bool)
    requires 0 <= row < a.Length0 && 0 <= col < a.Length1
    modifies a
    ensures var h := Hole(old(Grid(a)));
      moved == (h.Some? && Adjacent(h.value, Pos(row, col)))
    ensures Grid(a) == if moved then SwapCells(old(Grid(a)), Hole(old(Grid(a))).value, Pos(row, col))
      else old(Grid(a))
  {
    var pos := FindFixedItemPos(a);
    if pos.Some? && pos.value.row == row && pos.value.col == col {
      return false;
    }
    if pos.Some? && row == pos.value.row && Abs(col - pos.value.col) == 1 {
      SwapItem(a, pos.value, Pos(row, col));
      moved := true;
    } else if pos.Some? && col == pos.value.col && Abs(row - pos.value.row) == 1 {
      SwapItem(a, pos.value, Pos(row, col));
      moved := true;
    } else {
      moved := false;
    }
  }

  // ---------------------------------------------------------------------------
  // Properties of the board value
  // ---------------------------------------------------------------------------

  /** Cell (i, j) of a square board is entry i * n + j of its row-major list. */
  lemma FlatIndex(g: Cells, n: nat, i: int, j: int)
    requires Square(g, n) && 0 <= i < n && 0 <= j < n
    ensures |Flatten(g)| == n * n && 0 <= i * n + j < n * n
    ensures Flatten(g)[i * n + j] == g[i][j]
  {
    RowMajorBound(i, j, n, n);
    RowMajorIndex(i, j, n);
    FlattenAt(g, n, i * n + j);
  }

  lemma SetCellMultiset(g: Cells, p: Pos, v: Item)
    requires InBounds(g, p)
    ensures multiset(Flatten(SetCell(g, p, v))) + multiset{Cell(g, p)} == multiset(Flatten(g)) + multiset{v}
  {
    var r := g[p.row];
    FlattenUpdateRow(g, p.row, r[p.col := v]);
    var m, m', rm, rm' := multiset(Flatten(g)), multiset(Flatten(SetCell(g, p, v))), multiset(r), multiset(r[p.col := v]);
    assert m' + rm == m + rm';
    assert rm' + multiset{r[p.col]} == rm + multiset{v};
    forall e
      ensures (m' + multiset{r[p.col]})[e] == (m + multiset{v})[e]
    {
      assert (m' + rm)[e] == (m + rm')[e];
      assert (rm' + multiset{r[p.col]})[e] == (rm + multiset{v})[e];
    }
  }

  /** A swap moves items around and neither creates nor loses one. */
  lemma SwapCellsMultiset(g: Cells, a: Pos, b: Pos)
    requires InBounds(g, a) && InBounds(g, b)
    ensures multiset(Flatten(SwapCells(g, a, b))) == multiset(Flatten(g))
  {
    var x, y := Cell(g, a), Cell(g, b);
    var g1 := SetCell(g, a, y);
    SetCellMultiset(g, a, y);
    assert Cell(g1, b) == y;
    SetCellMultiset(g1, b, x);
    ExchangeBack(multiset(Flatten(g)), multiset(Flatten(g1)), multiset(Flatten(SwapCells(g, a, b))), x, y);
  }

  /** `swapItem` applied twice to the same cells restores the board. */
  lemma {:induction false} SwapCellsTwice(g: Cells, a: Pos, b: Pos)
    requires InBounds(g, a) && InBounds(g, b)
    ensures SwapCells(SwapCells(g, a, b), a, b) == g
    ensures SwapCells(SwapCells(g, a, b), b, a) == g
  {
    var r1 := SwapCells(SwapCells(g, a, b), a, b);
    var r2 := SwapCells(SwapCells(g, a, b), b, a);
    assert forall i :: 0 <= i < |g| ==> r1[i] == g[i];
    assert forall i :: 0 <= i < |g| ==> r2[i] == g[i];
  }

  /** Any rearrangement of the items of a valid board is a valid board. */
  lemma RearrangedValid(g: Cells, g2: Cells, n: nat)
    requires ValidBoard(g, n) && Square(g2, n)
    requires multiset(Flatten(g2)) == multiset(Flatten(g))
    ensures ValidBoard(g2, n)
  {
    ImageMultiset(IdOf, Flatten(g2), Flatten(g));
    forall i, j | 0 <= i < |g2| && 0 <= j < |g2[i]|
      ensures g2[i][j].tag == Fixed <==> g2[i][j].id == FIXED_INDEX
    {
      FlattenHas(g2, i, j);
      FlattenMember(g, g2[i][j]);
    }
  }

  /** A swap keeps a valid board valid. */
  lemma SwapPreservesValid(g: Cells, n: nat, a: Pos, b: Pos)
    requires ValidBoard(g, n) && InBounds(g, a) && InBounds(g, b)
    ensures ValidBoard(SwapCells(g, a, b), n)
  {
    SwapCellsMultiset(g, a, b);
    RearrangedValid(g, SwapCells(g, a, b), n);
  }

  /** A valid board has a fixed item, so the scan finds one. */
  lemma SomeFixed(g: Cells, n: nat)
    requires ValidBoard(g, n) && n > 0
    ensures Hole(g).Some?
  {
    var ids := RowMajorIds(g);
    MulAtLeast(n, n);
    RangeCount(n * n, FIXED_INDEX);
    FlattenLength(g, n);
    assert FIXED_INDEX in multiset(ids);
    var k :| 0 <= k < |ids| && ids[k] == FIXED_INDEX;
    FlattenAt(g, n, k);
    assert g[k / n][k % n].tag == Fixed;
  }

  /** Two fixed cells of a valid board are the same cell, since the fixed id occurs once. */
  lemma FixedUnique(g: Cells, n: nat, p: Pos, q: Pos)
    requires ValidBoard(g, n) && InBounds(g, p) && InBounds(g, q)
    requires Cell(g, p).tag == Fixed && Cell(g, q).tag == Fixed
    ensures p == q
  {
    var a := FixedIdAt(g, n, p);
    var b := FixedIdAt(g, n, q);
    RangeCount(n * n, FIXED_INDEX);
    OccursOnce(RowMajorIds(g), FIXED_INDEX, a, b);
    RowMajorIndex(p.row, p.col, n);
    RowMajorIndex(q.row, q.col, n);
  }

  /** A fixed cell of a valid board holds the fixed id in the row-major id list. */
  lemma FixedIdAt(g: Cells, n: nat, p: Pos) returns (k: nat)
    requires ValidBoard(g, n) && InBounds(g, p) && Cell(g, p).tag == Fixed
    ensures k == p.row * n + p.col && k < n * n && |RowMajorIds(g)| == n * n
    ensures RowMajorIds(g)[k] == FIXED_INDEX
  {
    FlatIndex(g, n, p.row, p.col);
    k := p.row * n + p.col;
  }

  /** A valid board has exactly one fixed item, and the scan finds it. */
  lemma ExactlyOneHole(g: Cells, n: nat)
    requires ValidBoard(g, n) && n > 0
    ensures Hole(g).Some?
    ensures forall i, j :: 0 <= i < n && 0 <= j < n && g[i][j].tag == Fixed ==> Pos(i, j) == Hole(g).value
  {
    SomeFixed(g, n);
    var h := Hole(g).value;
    forall i, j | 0 <= i < n && 0 <= j < n && g[i][j].tag == Fixed
      ensures Pos(i, j) == h
    {
      FixedUnique(g, n, Pos(i, j), h);
    }
  }

  /** After a move the hole is at the clicked cell. */
  lemma MoveRelocatesHole(g: Cells, n: nat, p: Pos)
    requires ValidBoard(g, n) && Hole(g).Some? && InBounds(g, p)
    ensures Hole(SwapCells(g, Hole(g).value, p)) == Some(p)
  {
    var g2 := SwapCells(g, Hole(g).value, p);
    SwapPreservesValid(g, n, Hole(g).value, p);
    ExactlyOneHole(g2, n);
  }

  /**
   * A move can be taken back: after the hole moves to the clicked cell, the old
   * hole cell is adjacent to it and clicking it restores the board.
   */
  lemma MoveIsReversible(g: Cells, n: nat, p: Pos)
    requires ValidBoard(g, n) && Hole(g).Some? && InBounds(g, p) && Adjacent(Hole(g).value, p)
    ensures var g2 := SwapCells(g, Hole(g).value, p);
      Hole(g2) == Some(p) && Adjacent(p, Hole(g).value) && SwapCells(g2, p, Hole(g).value) == g
  {
    MoveRelocatesHole(g, n, p);
    SwapCellsTwice(g, Hole(g).value, p);
  }

  /** A board whose every item is at its home cell is solved. */
  lemma HomeSolved(g: Cells, n: nat)
    requires Square(g, n)
    requires forall i, j :: 0 <= i < n && 0 <= j < n ==> g[i][j].id == i * n + j
    ensures Solved(g)
  {
    FlattenLength(g, n);
    var ids := RowMajorIds(g);
    forall k | 0 <= k < n * n
      ensures ids[k] == Range(n * n)[k]
    {
      FlattenAt(g, n, k);
      DivModSplit(k, n);
    }
  }

  /** On a solved board the item at (i, j) is the one numbered i * n + j. */
  lemma SolvedHome(g: Cells, n: nat, i: int, j: int)
    requires Square(g, n) && Solved(g) && 0 <= i < n && 0 <= j < n
    ensures g[i][j].id == i * n + j
  {
    FlatIndex(g, n, i, j);
  }

  /** The win condition holds exactly when every item is at its home cell. */
  lemma SolvedIffHome(g: Cells, n: nat)
    requires Square(g, n)
    ensures Solved(g) <==> forall i, j :: 0 <= i < n && 0 <= j < n ==> g[i][j].id == i * n + j
  {
    if Solved(g) {
      forall i, j | 0 <= i < n && 0 <= j < n
        ensures g[i][j].id == i * n + j
      {
        SolvedHome(g, n, i, j);
      }
    } else if forall i, j :: 0 <= i < n && 0 <= j < n ==> g[i][j].id == i * n + j {
      HomeSolved(g, n);
    }
  }

  /** The board `createItems` builds is valid, solved, and its hole is (0, 0). */
  lemma SolvedGridFacts(n: nat, palette: seq<seq<string>>)
    requires Square(palette, n)
    ensures var g := SolvedGrid(n, palette);
      ValidBoard(g, n) && Solved(g) &&
      (forall i, j :: 0 <= i < n && 0 <= j < n ==> (g[i][j].tag == Fixed <==> i == 0 && j == 0)) &&
      (n > 0 ==> Hole(g) == Some(Pos(0, 0)) && Cell(g, Pos(0, 0)) == Item(FIXED_INDEX, HOLE_COLOR, Fixed))
  {
    var g := SolvedGrid(n, palette);
    HomeSolved(g, n);
    FlattenLength(g, n);
    assert RowMajorIds(g) == Range(n * n);
    assert TagFollowsId(g);
    forall i, j | 0 <= i < n && 0 <= j < n
      ensures g[i][j].tag == Fixed <==> i == 0 && j == 0
    {
      if i > 0 {
        MulAtLeast(i, n);
      }
    }
    if n > 0 {
      HoleIsFirst(g, Pos(0, 0));
    }
  }

  /** One move away from a solved board is never solved. */
  lemma OneMoveFromSolved(g: Cells, n: nat, p: Pos)
    requires ValidBoard(g, n) && Solved(g) && Hole(g).Some? && InBounds(g, p) && p != Hole(g).value
    ensures !Solved(SwapCells(g, Hole(g).value, p))
  {
    var h := Hole(g).value;
    var g2 := SwapCells(g, h, p);
    SolvedIffHome(g, n);
    SolvedIffHome(g2, n);
    RowMajorIndex(p.row, p.col, n);
    RowMajorIndex(h.row, h.col, n);
  }
}
