/**
  The 2048 board: tiles, cells, the 4x4 grid, and the grid helpers the engine
  relies on (listing the empty cells, rotating by a multiple of 90 degrees),
  together with the totals and id bounds used to state what a move preserves.
*/
module Board {

  const GridSize: nat := 4
  const WinTileValue: nat := 2048

  /** A tile. `id` is drawn from a fresh-id supply (a counter); `isNew` and
      `isMerged` are the presentation flags the engine sets. */
  datatype Tile = Tile(value: nat, id: nat, isNew: bool, isMerged: bool)

  /** A slot of the board: `Empty` stands for the source's `null`. */
  datatype Cell = Empty | Full(tile: Tile)

  /** Rows of cells, row 0 at the top, column 0 at the left. */
  type Grid = seq<seq<Cell>>

  datatype Direction = Up | Down | Left | Right

  datatype Pos = Pos(row: nat, col: nat)

  predicate WellFormed(g: Grid)
  {
    |g| == GridSize && forall r :: 0 <= r < |g| ==> |g[r]| == GridSize
  }

  // ---------------------------------------------------------------------
  // Empty cells, in row-major order (getEmptyCells)
  // ---------------------------------------------------------------------

  /** The flat row-major index of a position. */
  function Flat(p: Pos): nat
  {
    p.row * GridSize + p.col
  }

  /** Empty cells at flat row-major index `k` and after, in increasing order. */
  function EmptyCellsFrom(g: Grid, k: nat): seq<Pos>
    requires WellFormed(g) && k <= GridSize * GridSize
    decreases GridSize * GridSize - k
  {
    if k == GridSize * GridSize then []
    else
      var p := Pos(k / GridSize, k % GridSize);
      (if g[p.row][p.col].Empty? then [p] else []) + EmptyCellsFrom(g, k + 1)
  }

  /** `getEmptyCells`: the positions of the empty cells, scanned row by row
      and, within a row, column by column, so each listed at most once and in
      row-major order. */
  function EmptyCells(g: Grid): (cells: seq<Pos>)
    requires WellFormed(g)
    ensures |cells| <= GridSize * GridSize
    ensures forall i :: 0 <= i < |cells| ==> OnBoard(cells[i])
    ensures forall i, j :: 0 <= i < j < |cells| ==> Flat(cells[i]) < Flat(cells[j])
  {
    EmptyCellsFromOrder(g, 0);
    EmptyCellsFrom(g, 0)
  }

  lemma {:induction false} EmptyCellsFromOrder(g: Grid, k: nat)
    requires WellFormed(g) && k <= GridSize * GridSize
    ensures |EmptyCellsFrom(g, k)| <= GridSize * GridSize - k
    ensures forall i :: 0 <= i < |EmptyCellsFrom(g, k)| ==>
      OnBoard(EmptyCellsFrom(g, k)[i]) && k <= Flat(EmptyCellsFrom(g, k)[i])
    ensures forall i, j :: 0 <= i < j < |EmptyCellsFrom(g, k)| ==>
      Flat(EmptyCellsFrom(g, k)[i]) < Flat(EmptyCellsFrom(g, k)[j])
    decreases GridSize * GridSize - k
  {
    if k < GridSize * GridSize {
      EmptyCellsFromOrder(g, k + 1);
      var p := Pos(k / GridSize, k % GridSize);
      FlatIndex(k, p);
      var rest := EmptyCellsFrom(g, k + 1);
      assert EmptyCellsFrom(g, k) == (if g[p.row][p.col].Empty? then [p] else []) + rest;
    }
  }

  predicate IsEmptyAt(g: Grid, p: Pos)
    requires WellFormed(g)
  {
    p.row < GridSize && p.col < GridSize && g[p.row][p.col].Empty?
  }

  lemma {:induction false} EmptyCellsFromMembers(g: Grid, k: nat)
    requires WellFormed(g) && k <= GridSize * GridSize
    ensures forall p :: p in EmptyCellsFrom(g, k) <==>
      IsEmptyAt(g, p) && k <= p.row * GridSize + p.col
    decreases GridSize * GridSize - k
  {
    if k < GridSize * GridSize {
      EmptyCellsFromMembers(g, k + 1);
      var q := Pos(k / GridSize, k % GridSize);
      assert EmptyCellsFrom(g, k) == (if g[q.row][q.col].Empty? then [q] else []) + EmptyCellsFrom(g, k + 1);
      forall p | OnBoard(p)
        ensures p == q <==> k == p.row * GridSize + p.col
      {
        FlatIndex(k, p);
      }
    }
  }

  /** The listing holds exactly the empty cells of the board. */
  lemma EmptyCellsMembers(g: Grid)
    requires WellFormed(g)
    ensures forall p :: p in EmptyCells(g) <==> IsEmptyAt(g, p)
  {
    EmptyCellsFromMembers(g, 0);
  }

  /** No cell is listed exactly when every cell holds a tile. */
  lemma NoEmptyCells(g: Grid)
    requires WellFormed(g)
    ensures |EmptyCells(g)| == 0 <==> forall p :: OnBoard(p) ==> g[p.row][p.col].Full?
  {
    var cells := EmptyCells(g);
    EmptyCellsMembers(g);
    if |cells| > 0 {
      assert cells[0] in cells;
    } else {
      forall p | OnBoard(p)
        ensures g[p.row][p.col].Full?
      {
        assert p !in cells;
      }
    }
  }

  /** The board with one cell replaced. */
  function Place(g: Grid, p: Pos, c: Cell): (g': Grid)
    requires WellFormed(g) && p.row < GridSize && p.col < GridSize
    ensures WellFormed(g')
  {
    g[p.row := g[p.row][p.col := c]]
  }

  /** Flat row-major indices and positions determine each other. */
  lemma FlatIndex(k: nat, p: Pos)
    requires p.col < GridSize
    ensures (k / GridSize == p.row && k % GridSize == p.col) <==> k == p.row * GridSize + p.col
  {
  }

  /** Reading the board with one cell replaced. */
  lemma PlaceAt(g: Grid, p: Pos, c: Cell, q: Pos)
    requires WellFormed(g) && OnBoard(p) && OnBoard(q)
    ensures Place(g, p, c)[q.row][q.col] == if q == p then c else g[q.row][q.col]
  {
  }

  lemma {:induction false} PlaceFromCount(g: Grid, p: Pos, t: Tile, k: nat)
    requires WellFormed(g) && IsEmptyAt(g, p) && k <= GridSize * GridSize
    ensures |EmptyCellsFrom(Place(g, p, Full(t)), k)| ==
      if k <= p.row * GridSize + p.col then |EmptyCellsFrom(g, k)| - 1
      else |EmptyCellsFrom(g, k)|
    decreases GridSize * GridSize - k
  {
    if k < GridSize * GridSize {
      var q := Pos(k / GridSize, k % GridSize);
      var filled: Grid := Place(g, p, Full(t));
      PlaceFromCount(g, p, t, k + 1);
      assert q == p <==> k == p.row * GridSize + p.col by {
        FlatIndex(k, p);
      }
      PlaceAt(g, p, Full(t), q);
      assert |EmptyCellsFrom(filled, k)| ==
        (if filled[q.row][q.col].Empty? then 1 else 0) + |EmptyCellsFrom(filled, k + 1)|;
      assert |EmptyCellsFrom(g, k)| ==
        (if g[q.row][q.col].Empty? then 1 else 0) + |EmptyCellsFrom(g, k + 1)|;
    }
  }

  /** Filling an empty cell removes exactly one entry from the listing. */
  lemma PlaceCount(g: Grid, p: Pos, t: Tile)
    requires WellFormed(g) && IsEmptyAt(g, p)
    ensures |EmptyCells(Place(g, p, Full(t)))| == |EmptyCells(g)| - 1
  {
    PlaceFromCount(g, p, t, 0);
  }

  // ---------------------------------------------------------------------
  // Rotation by a multiple of 90 degrees (rotateGrid)
  // ---------------------------------------------------------------------

  /** Clockwise rotation by `degrees` (90, 180 or 270); any other angle gives
      a copy of the board. */
  function Rotate(g: Grid, degrees: int): (r: Grid)
    requires WellFormed(g)
    ensures WellFormed(r)
  {
    if degrees == 90 then
      seq(GridSize, i requires 0 <= i < GridSize => seq(GridSize, j requires 0 <= j < GridSize => g[GridSize - 1 - j][i]))
    else if degrees == 180 then
      seq(GridSize, i requires 0 <= i < GridSize => seq(GridSize, j requires 0 <= j < GridSize => g[GridSize - 1 - i][GridSize - 1 - j]))
    else if degrees == 270 then
      seq(GridSize, i requires 0 <= i < GridSize => seq(GridSize, j requires 0 <= j < GridSize => g[j][GridSize - 1 - i]))
    else
      g
  }

  predicate SameGrid(a: Grid, b: Grid)
    requires WellFormed(a) && WellFormed(b)
  {
    forall i, j :: 0 <= i < GridSize && 0 <= j < GridSize ==> a[i][j] == b[i][j]
  }

  lemma SameGridEqual(a: Grid, b: Grid)
    requires WellFormed(a) && WellFormed(b) && SameGrid(a, b)
    ensures a == b
  {
    forall i | 0 <= i < GridSize ensures a[i] == b[i] {
      assert forall j :: 0 <= j < GridSize ==> a[i][j] == b[i][j];
    }
  }

  /** Every rotation used before a slide is undone by the one used after it,
      and four quarter turns give back the board. */
  lemma RotationRoundTrips(g: Grid)
    requires WellFormed(g)
    ensures Rotate(Rotate(g, 270), 90) == g
    ensures Rotate(Rotate(g, 90), 270) == g
    ensures Rotate(Rotate(g, 180), 180) == g
    ensures Rotate(Rotate(Rotate(Rotate(g, 90), 90), 90), 90) == g
  {
    SameGridEqual(Rotate(Rotate(g, 270), 90), g);
    SameGridEqual(Rotate(Rotate(g, 90), 270), g);
    SameGridEqual(Rotate(Rotate(g, 180), 180), g);
    var h := Rotate(Rotate(g, 90), 90);
    assert SameGrid(h, Rotate(g, 180));
    SameGridEqual(h, Rotate(g, 180));
    SameGridEqual(Rotate(Rotate(h, 90), 90), g);
  }

  predicate OnBoard(p: Pos)
  {
    p.row < GridSize && p.col < GridSize
  }

  /** The cell of the original board that rotation by `degrees` brings to `p`. */
  function RotatedFrom(degrees: int, p: Pos): Pos
    requires OnBoard(p)
  {
    if degrees == 90 then Pos(GridSize - 1 - p.col, p.row)
    else if degrees == 180 then Pos(GridSize - 1 - p.row, GridSize - 1 - p.col)
    else if degrees == 270 then Pos(p.col, GridSize - 1 - p.row)
    else p
  }

  /** Where rotation by `degrees` takes the cell at `p`. */
  function RotatedTo(degrees: int, p: Pos): Pos
    requires OnBoard(p)
  {
    if degrees == 90 then Pos(p.col, GridSize - 1 - p.row)
    else if degrees == 180 then Pos(GridSize - 1 - p.row, GridSize - 1 - p.col)
    else if degrees == 270 then Pos(GridSize - 1 - p.col, p.row)
    else p
  }

  /** Rotation fills every place from one cell of the original board. */
  lemma RotateAt(g: Grid, degrees: int, p: Pos)
    requires WellFormed(g) && OnBoard(p)
    ensures OnBoard(RotatedFrom(degrees, p))
    ensures Rotate(g, degrees)[p.row][p.col] == g[RotatedFrom(degrees, p).row][RotatedFrom(degrees, p).col]
  {
  }

  /** Rotation moves every cell of the original board to one place: the
      position maps are inverse to each other. */
  lemma RotateTo(g: Grid, degrees: int, p: Pos)
    requires WellFormed(g) && OnBoard(p)
    ensures OnBoard(RotatedTo(degrees, p)) && RotatedFrom(degrees, RotatedTo(degrees, p)) == p
    ensures Rotate(g, degrees)[RotatedTo(degrees, p).row][RotatedTo(degrees, p).col] == g[p.row][p.col]
  {
    RotateAt(g, degrees, RotatedTo(degrees, p));
  }

  // ---------------------------------------------------------------------
  // Totals over cells and tiles
  // ---------------------------------------------------------------------

  /** The value a cell contributes to the board's total. */
  function Value(c: Cell): nat
  {
    if c.Full? then c.tile.value else 0
  }

  /** The value a cell contributes if it holds a tile created by a merge. */
  function MergedValue(c: Cell): nat
  {
    if c.Full? && c.tile.isMerged then c.tile.value else 0
  }

  function RowTotal(row: seq<Cell>, w: Cell -> nat): nat
  {
    if row == [] then 0 else w(row[0]) + RowTotal(row[1..], w)
  }

  function GridTotal(g: Grid, w: Cell -> nat): nat
  {
    if g == [] then 0 else RowTotal(g[0], w) + GridTotal(g[1..], w)
  }

  lemma RowTotalOfFour(row: seq<Cell>, w: Cell -> nat)
    requires |row| == GridSize
    ensures RowTotal(row, w) == w(row[0]) + w(row[1]) + w(row[2]) + w(row[3])
  {
    assert row[1..][1..][1..][1..] == [];
    assert RowTotal(row[3..], w) == w(row[3]) by { assert row[3..][1..] == []; }
    assert RowTotal(row[2..], w) == w(row[2]) + RowTotal(row[3..], w) by { assert row[2..][1..] == row[3..]; }
    assert RowTotal(row[1..], w) == w(row[1]) + RowTotal(row[2..], w) by { assert row[1..][1..] == row[2..]; }
  }

  /** The total of a board is the sum over its sixteen cells. */
  function CellSum(g: Grid, w: Cell -> nat): nat
    requires WellFormed(g)
  {
    w(g[0][0]) + w(g[0][1]) + w(g[0][2]) + w(g[0][3]) +
    w(g[1][0]) + w(g[1][1]) + w(g[1][2]) + w(g[1][3]) +
    w(g[2][0]) + w(g[2][1]) + w(g[2][2]) + w(g[2][3]) +
    w(g[3][0]) + w(g[3][1]) + w(g[3][2]) + w(g[3][3])
  }

  lemma GridTotalIsCellSum(g: Grid, w: Cell -> nat)
    requires WellFormed(g)
    ensures GridTotal(g, w) == CellSum(g, w)
  {
    RowTotalOfFour(g[0], w);
    RowTotalOfFour(g[1], w);
    RowTotalOfFour(g[2], w);
    RowTotalOfFour(g[3], w);
    assert g[1..][1..][1..][1..] == [];
    assert GridTotal(g[3..], w) == RowTotal(g[3], w) by { assert g[3..][1..] == []; }
    assert GridTotal(g[2..], w) == RowTotal(g[2], w) + GridTotal(g[3..], w) by { assert g[2..][1..] == g[3..]; }
    assert GridTotal(g[1..], w) == RowTotal(g[1], w) + GridTotal(g[2..], w) by { assert g[1..][1..] == g[2..]; }
  }

  lemma {:induction false} RowTotalUpdate(row: seq<Cell>, i: nat, x: Cell, w: Cell -> nat)
    requires i < |row|
    ensures RowTotal(row[i := x], w) + w(row[i]) == RowTotal(row, w) + w(x)
    decreases i
  {
    if i == 0 {
      assert row[i := x][1..] == row[1..];
    } else {
      assert row[i := x][1..] == row[1..][i - 1 := x];
      RowTotalUpdate(row[1..], i - 1, x, w);
    }
  }

  lemma {:induction false} GridTotalUpdate(g: Grid, r: nat, row: seq<Cell>, w: Cell -> nat)
    requires r < |g|
    ensures GridTotal(g[r := row], w) + RowTotal(g[r], w) == GridTotal(g, w) + RowTotal(row, w)
    decreases r
  {
    if r == 0 {
      assert g[r := row][1..] == g[1..];
    } else {
      assert g[r := row][1..] == g[1..][r - 1 := row];
      GridTotalUpdate(g[1..], r - 1, row, w);
    }
  }

  /** Replacing one cell changes a total by the difference of the two cells. */
  lemma PlaceTotal(g: Grid, p: Pos, c: Cell, w: Cell -> nat)
    requires WellFormed(g) && OnBoard(p)
    ensures GridTotal(Place(g, p, c), w) + w(g[p.row][p.col]) == GridTotal(g, w) + w(c)
  {
    RowTotalUpdate(g[p.row], p.col, c, w);
    GridTotalUpdate(g, p.row, g[p.row][p.col := c], w);
  }

  /** Rotation only rearranges cells, so every cell-wise total is kept. */
  lemma RotateKeepsTotal(g: Grid, degrees: int, w: Cell -> nat)
    requires WellFormed(g)
    ensures GridTotal(Rotate(g, degrees), w) == GridTotal(g, w)
  {
    GridTotalIsCellSum(g, w);
    GridTotalIsCellSum(Rotate(g, degrees), w);
  }

  // ---------------------------------------------------------------------
  // Ids drawn from the supply
  // ---------------------------------------------------------------------

  /** Every tile on the board carries an id the supply has already issued. */
  predicate IdsBelow(g: Grid, supply: nat)
  {
    forall r, c :: 0 <= r < |g| && 0 <= c < |g[r]| && g[r][c].Full? ==> g[r][c].tile.id < supply
  }

  lemma RotateKeepsIdsBelow(g: Grid, degrees: int, supply: nat)
    requires WellFormed(g) && IdsBelow(g, supply)
    ensures IdsBelow(Rotate(g, degrees), supply)
  {
  }

  /** No two tiles on the board carry the same id. */
  ghost predicate UniqueIds(g: Grid)
    requires WellFormed(g)
  {
    forall p, q :: OnBoard(p) && OnBoard(q) && p != q && g[p.row][p.col].Full? && g[q.row][q.col].Full? ==>
      g[p.row][p.col].tile.id != g[q.row][q.col].tile.id
  }

  /** Rotation moves tiles without duplicating one, so ids stay unique. */
  lemma RotateKeepsUniqueIds(g: Grid, degrees: int)
    requires WellFormed(g) && UniqueIds(g)
    ensures UniqueIds(Rotate(g, degrees))
  {
    var r: Grid := Rotate(g, degrees);
    forall p: Pos, q: Pos | OnBoard(p) && OnBoard(q) && p != q && r[p.row][p.col].Full? && r[q.row][q.col].Full?
      ensures r[p.row][p.col].tile.id != r[q.row][q.col].tile.id
    {
      RotateAt(g, degrees, p);
      RotateAt(g, degrees, q);
    }
  }

  /** Some tile on the board has reached the winning value. */
  predicate HasWinningTile(g: Grid)
  {
    exists r, c :: 0 <= r < |g| && 0 <= c < |g[r]| && g[r][c].Full? && g[r][c].tile.value >= WinTileValue
  }
}
