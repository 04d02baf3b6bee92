/**
  The game engine around the slide: creating the board, spawning tiles,
  starting a game, telling a won or a lost board, and one move of the game
  (`applyMove`) with its score, best score, move count and status rule.

  The two calls of `Math.random()` a spawn makes are parameters (`Draw`s), and
  tile ids come from a counter, the id supply, threaded through every
  operation that creates tiles.
*/
module Game {
  import opened Board
  import opened Slide

  datatype Status = Playing | Won | Lost

  datatype GameState = GameState(grid: Grid, score: nat, bestScore: nat, status: Status, moveCount: nat)

  /** A game state together with the id supply left after producing it. */
  datatype Step = Step(state: GameState, supply: nat)

  /** A board after a spawn, with the id supply left. */
  datatype Spawned = Spawned(grid: Grid, supply: nat)

  /** One value of `Math.random()`: the fraction `num / den`, in [0, 1). */
  datatype Draw = Draw(num: nat, den: nat)
  {
    predicate Valid()
    {
      num < den
    }
  }

  // ---------------------------------------------------------------------
  // Random choices
  // ---------------------------------------------------------------------

  /** Multiplying by the same factor keeps order. */
  lemma MulMono(a: nat, b: nat, c: nat)
    requires a <= b
    ensures a * c <= b * c
  {
    assert b * c == a * c + (b - a) * c;
  }

  /** Integer division is the floor: `x / y` is the `k` with
      `k * y <= x < (k + 1) * y`. */
  lemma FloorDiv(x: nat, y: nat, k: nat)
    requires 0 < y
    ensures x / y == k <==> k * y <= x < (k + 1) * y
  {
    var q := x / y;
    assert x == q * y + x % y && 0 <= x % y < y;
    assert (q + 1) * y == q * y + y;
    if k * y <= x < (k + 1) * y {
      if k + 1 <= q {
        MulMono(k + 1, q, y);
      }
      if q + 1 <= k {
        MulMono(q + 1, k, y);
      }
    }
  }

  /** A fraction below one, scaled by `n`, stays below `n`. */
  lemma ScaledBelow(num: nat, den: nat, n: nat)
    requires num < den && 0 < n
    ensures num * n / den < n
  {
    var x := num * n;
    FloorDiv(x, den, x / den);
    MulMono(num + 1, den, n);
    assert (num + 1) * n == x + n;
    if n <= x / den {
      MulMono(n, x / den, den);
    }
  }

  /** `Math.floor(Math.random() * n)`: an index among `n` choices. */
  function PickIndex(d: Draw, n: nat): (i: nat)
    requires d.Valid() && n > 0
    ensures i < n
  {
    ScaledBelow(d.num, d.den, n);
    d.num * n / d.den
  }

  /** The index is the `k` whose slice [k / n, (k + 1) / n) of [0, 1) holds
      the draw, so each of the `n` choices is equally likely. */
  lemma PickIndexSlice(d: Draw, n: nat, k: nat)
    requires d.Valid() && n > 0
    ensures PickIndex(d, n) == k <==> k * d.den <= d.num * n < (k + 1) * d.den
  {
    FloorDiv(d.num * n, d.den, k);
  }

  /** `Math.random() < 0.9 ? 2 : 4`, with 0.9 as the exact fraction 9 / 10. */
  function SpawnValue(d: Draw): (v: nat)
    requires d.Valid()
    ensures v == 2 || v == 4
  {
    if d.num * 10 < d.den * 9 then 2 else 4
  }

  /** Of the ten equally likely draws 0/10, ..., 9/10, nine spawn a 2. */
  lemma SpawnValueOdds()
    ensures (set k: nat | k < 10 && SpawnValue(Draw(k, 10)) == 2) == {0, 1, 2, 3, 4, 5, 6, 7, 8}
    ensures (set k: nat | k < 10 && SpawnValue(Draw(k, 10)) == 4) == {9}
  {
  }

  // ---------------------------------------------------------------------
  // Creating boards and spawning tiles
  // ---------------------------------------------------------------------

  /** `createEmptyGrid`. */
  function CreateEmptyGrid(): (g: Grid)
    ensures WellFormed(g)
  {
    seq(GridSize, _ => seq(GridSize, _ => Empty))
  }

  lemma {:induction false} EmptyGridFrom(k: nat)
    requires k <= GridSize * GridSize
    ensures |EmptyCellsFrom(CreateEmptyGrid(), k)| == GridSize * GridSize - k
    decreases GridSize * GridSize - k
  {
    if k < GridSize * GridSize {
      EmptyGridFrom(k + 1);
    }
  }

  /** Every cell of a new board is empty: all sixteen are listed, and no tile
      is on it. */
  lemma EmptyGridIsEmpty()
    ensures |EmptyCells(CreateEmptyGrid())| == GridSize * GridSize
    ensures forall p :: OnBoard(p) ==> IsEmptyAt(CreateEmptyGrid(), p)
    ensures GridTotal(CreateEmptyGrid(), Value) == 0
  {
    EmptyGridFrom(0);
    GridTotalIsCellSum(CreateEmptyGrid(), Value);
  }

  /** The new tile of a spawn. */
  function SpawnedTile(kind: Draw, supply: nat): Tile
    requires kind.Valid()
  {
    Tile(SpawnValue(kind), supply, true, false)
  }

  /** `spawnRandomTile`: `where` picks one of the empty cells, listed in
      row-major order, and `kind` decides the value; a board without an
      empty cell is returned as it is and uses no id. */
  function Spawn(g: Grid, where: Draw, kind: Draw, supply: nat): (s: Spawned)
    requires WellFormed(g) && where.Valid() && kind.Valid()
    ensures WellFormed(s.grid)
  {
    var empties := EmptyCells(g);
    if |empties| == 0 then Spawned(g, supply)
    else
      EmptyCellsMembers(g);
      var p := empties[PickIndex(where, |empties|)];
      assert p in empties;
      Spawned(Place(g, p, Full(SpawnedTile(kind, supply))), supply + 1)
  }

  /** `spawnRandomTile` as the source writes it: copy the board, assign the
      chosen cell. */
  method SpawnRandomTile(grid: Grid, where: Draw, kind: Draw, supply: nat) returns (newGrid: Grid, next: nat)
    requires WellFormed(grid) && where.Valid() && kind.Valid()
    ensures Spawned(newGrid, next) == Spawn(grid, where, kind, supply)
  {
    var emptyCells := EmptyCells(grid);
    if |emptyCells| == 0 {
      return grid, supply;
    }
    EmptyCellsMembers(grid);
    var cell := emptyCells[PickIndex(where, |emptyCells|)];
    assert cell in emptyCells;
    var value := SpawnValue(kind);
    newGrid := grid;
    newGrid := newGrid[cell.row := newGrid[cell.row][cell.col := Full(Tile(value, supply, true, false))]];
    next := supply + 1;
  }

  /** Where a spawn on a board with an empty cell puts its tile. */
  lemma SpawnedAt(g: Grid, where: Draw, kind: Draw, supply: nat) returns (p: Pos)
    requires WellFormed(g) && where.Valid() && kind.Valid() && |EmptyCells(g)| > 0
    ensures IsEmptyAt(g, p) && OnBoard(p)
    ensures Spawn(g, where, kind, supply) == Spawned(Place(g, p, Full(SpawnedTile(kind, supply))), supply + 1)
  {
    var empties := EmptyCells(g);
    EmptyCellsMembers(g);
    p := empties[PickIndex(where, |empties|)];
    assert p in empties;
  }

  /** A spawn on a board with an empty cell fills exactly one previously
      empty cell with a new tile of value 2 or 4, marked new and not merged,
      carrying the supply's next id, and leaves every other cell as it was. */
  lemma SpawnFillsOneEmptyCell(g: Grid, where: Draw, kind: Draw, supply: nat)
    requires WellFormed(g) && where.Valid() && kind.Valid() && |EmptyCells(g)| > 0
    ensures var s := Spawn(g, where, kind, supply);
      s.supply == supply + 1 &&
      |EmptyCells(s.grid)| == |EmptyCells(g)| - 1 &&
      exists p :: IsEmptyAt(g, p) &&
        s.grid[p.row][p.col] == Full(SpawnedTile(kind, supply)) &&
        forall q :: OnBoard(q) && q != p ==> s.grid[q.row][q.col] == g[q.row][q.col]
  {
    var p := SpawnedAt(g, where, kind, supply);
    PlaceCount(g, p, SpawnedTile(kind, supply));
    forall q | OnBoard(q)
      ensures Spawn(g, where, kind, supply).grid[q.row][q.col] == if q == p then Full(SpawnedTile(kind, supply)) else g[q.row][q.col]
    {
      PlaceAt(g, p, Full(SpawnedTile(kind, supply)), q);
    }
  }

  /** A spawn on a board without an empty cell changes nothing. */
  lemma SpawnOnFullBoard(g: Grid, where: Draw, kind: Draw, supply: nat)
    requires WellFormed(g) && where.Valid() && kind.Valid()
    requires forall p :: OnBoard(p) ==> g[p.row][p.col].Full?
    ensures Spawn(g, where, kind, supply) == Spawned(g, supply)
  {
    NoEmptyCells(g);
  }

  /** Every empty cell can receive the new tile: the draw k / n, with n the
      number of empty cells and k the cell's place in the listing, picks it. */
  lemma SpawnReachesEveryEmptyCell(g: Grid, kind: Draw, supply: nat, p: Pos)
    requires WellFormed(g) && kind.Valid() && IsEmptyAt(g, p)
    ensures exists k: nat, n: nat :: (k < n &&
      Spawn(g, Draw(k, n), kind, supply).grid[p.row][p.col] == Full(SpawnedTile(kind, supply)))
  {
    EmptyCellsMembers(g);
    var empties := EmptyCells(g);
    var k :| 0 <= k < |empties| && empties[k] == p;
    var n := |empties|;
    assert (k + 1) * n == k * n + n;
    PickIndexSlice(Draw(k, n), n, k);
    PlaceAt(g, p, Full(SpawnedTile(kind, supply)), p);
  }

  /** A spawn adds the new tile's value to the board's total. */
  lemma SpawnTotal(g: Grid, where: Draw, kind: Draw, supply: nat)
    requires WellFormed(g) && where.Valid() && kind.Valid()
    ensures GridTotal(Spawn(g, where, kind, supply).grid, Value) ==
      GridTotal(g, Value) + if |EmptyCells(g)| > 0 then SpawnValue(kind) else 0
  {
    if |EmptyCells(g)| > 0 {
      var p := SpawnedAt(g, where, kind, supply);
      PlaceTotal(g, p, Full(SpawnedTile(kind, supply)), Value);
    }
  }

  /** A spawn keeps every tile of the board, so it keeps a winning tile. */
  lemma SpawnKeepsWin(g: Grid, where: Draw, kind: Draw, supply: nat)
    requires WellFormed(g) && where.Valid() && kind.Valid() && HasWinningTile(g)
    ensures HasWinningTile(Spawn(g, where, kind, supply).grid)
  {
    if |EmptyCells(g)| > 0 {
      var p := SpawnedAt(g, where, kind, supply);
      var r, c :| 0 <= r < |g| && 0 <= c < |g[r]| && g[r][c].Full? && g[r][c].tile.value >= WinTileValue;
      PlaceAt(g, p, Full(SpawnedTile(kind, supply)), Pos(r, c));
    }
  }

  /** A spawn keeps every tile and adds one with the supply's next id, so
      every id on the board stays issued by the supply. */
  lemma SpawnKeepsIdsBelow(g: Grid, where: Draw, kind: Draw, supply: nat)
    requires WellFormed(g) && where.Valid() && kind.Valid() && IdsBelow(g, supply)
    ensures IdsBelow(Spawn(g, where, kind, supply).grid, Spawn(g, where, kind, supply).supply)
  {
    if |EmptyCells(g)| > 0 {
      var p := SpawnedAt(g, where, kind, supply);
      var s := Spawn(g, where, kind, supply);
      forall r, c | 0 <= r < |s.grid| && 0 <= c < |s.grid[r]| && s.grid[r][c].Full?
        ensures s.grid[r][c].tile.id < s.supply
      {
        PlaceAt(g, p, Full(SpawnedTile(kind, supply)), Pos(r, c));
      }
    }
  }

  /** No tile on the board is worth more than `bound`. */
  predicate ValuesAtMost(g: Grid, bound: nat)
    requires WellFormed(g)
  {
    forall r, c :: 0 <= r < GridSize && 0 <= c < GridSize && g[r][c].Full? ==> g[r][c].tile.value <= bound
  }

  /** Values no larger than `bound` stay so through a spawn, when `bound`
      is at least 4. */
  lemma SpawnKeepsValuesAtMost(g: Grid, where: Draw, kind: Draw, supply: nat, bound: nat)
    requires WellFormed(g) && where.Valid() && kind.Valid()
    requires ValuesAtMost(g, bound) && 4 <= bound
    ensures ValuesAtMost(Spawn(g, where, kind, supply).grid, bound)
  {
    if |EmptyCells(g)| > 0 {
      var p := SpawnedAt(g, where, kind, supply);
      var s := Spawn(g, where, kind, supply);
      forall r, c | 0 <= r < GridSize && 0 <= c < GridSize && s.grid[r][c].Full?
        ensures s.grid[r][c].tile.value <= bound
      {
        PlaceAt(g, p, Full(SpawnedTile(kind, supply)), Pos(r, c));
      }
    }
  }

  // ---------------------------------------------------------------------
  // A new game
  // ---------------------------------------------------------------------

  /** `initializeGame`: an empty board, two spawns, score and best score 0,
      playing, no move made. */
  function InitializeGame(where1: Draw, kind1: Draw, where2: Draw, kind2: Draw, supply: nat): (init: Step)
    requires where1.Valid() && kind1.Valid() && where2.Valid() && kind2.Valid()
    ensures WellFormed(init.state.grid)
  {
    var first := Spawn(CreateEmptyGrid(), where1, kind1, supply);
    var second := Spawn(first.grid, where2, kind2, first.supply);
    Step(GameState(second.grid, 0, 0, Playing, 0), second.supply)
  }

  // ---------------------------------------------------------------------
  // Won and lost boards
  // ---------------------------------------------------------------------

  /** `isGameWon`: the board scanned row by row for a tile of at least the
      winning value. */
  method IsGameWon(grid: Grid) returns (won: bool)
    requires WellFormed(grid)
    ensures won <==> HasWinningTile(grid)
  {
    for row := 0 to GridSize
      invariant forall r, c :: 0 <= r < row && 0 <= c < GridSize ==>
        !(grid[r][c].Full? && grid[r][c].tile.value >= WinTileValue)
    {
      for col := 0 to GridSize
        invariant forall r, c :: 0 <= r < row && 0 <= c < GridSize ==>
          !(grid[r][c].Full? && grid[r][c].tile.value >= WinTileValue)
        invariant forall c :: 0 <= c < col ==>
          !(grid[row][c].Full? && grid[row][c].tile.value >= WinTileValue)
      {
        if grid[row][col].Full? && grid[row][col].tile.value >= WinTileValue {
          return true;
        }
      }
    }
    return false;
  }

  /** The tile at (r, c) has a right neighbour of the same value. */
  predicate MatchesRight(g: Grid, r: nat, c: nat)
    requires WellFormed(g) && r < GridSize && c < GridSize
  {
    c < GridSize - 1 && g[r][c].Full? && g[r][c + 1].Full? && g[r][c + 1].tile.value == g[r][c].tile.value
  }

  /** The tile at (r, c) has a neighbour below of the same value. */
  predicate MatchesBelow(g: Grid, r: nat, c: nat)
    requires WellFormed(g) && r < GridSize && c < GridSize
  {
    r < GridSize - 1 && g[r][c].Full? && g[r + 1][c].Full? && g[r + 1][c].tile.value == g[r][c].tile.value
  }

  /** The tile at (r, c), if any, can merge with neither its right nor its
      lower neighbour. */
  predicate Stuck(g: Grid, r: nat, c: nat)
    requires WellFormed(g) && r < GridSize && c < GridSize
  {
    !MatchesRight(g, r, c) && !MatchesBelow(g, r, c)
  }

  /** Every cell before (row, col) in row-major order is stuck. */
  predicate StuckBefore(g: Grid, row: nat, col: nat)
    requires WellFormed(g)
  {
    forall r: nat, c: nat :: r < GridSize && c < GridSize && (r < row || (r == row && c < col)) ==> Stuck(g, r, c)
  }

  /** The row-major scan of stuck cells advances by one cell. */
  lemma StuckStep(g: Grid, row: nat, col: nat)
    requires WellFormed(g) && row < GridSize && col < GridSize
    requires StuckBefore(g, row, col) && Stuck(g, row, col)
    ensures StuckBefore(g, row, col + 1)
  {
  }

  /** A row scanned to its end is the start of the next one. */
  lemma StuckNextRow(g: Grid, row: nat)
    requires WellFormed(g) && StuckBefore(g, row, GridSize)
    ensures StuckBefore(g, row + 1, 0)
  {
  }

  /** The board is full and no two horizontally or vertically adjacent tiles
      have the same value. */
  predicate IsLocked(g: Grid)
    requires WellFormed(g)
  {
    |EmptyCells(g)| == 0 && StuckBefore(g, GridSize, 0)
  }

  /** `isGameLost`: not lost while a cell is empty; otherwise the board is
      scanned row by row for a tile whose right or lower neighbour has its
      value. */
  method IsGameLost(grid: Grid) returns (lost: bool)
    requires WellFormed(grid)
    ensures lost <==> IsLocked(grid)
  {
    if |EmptyCells(grid)| > 0 {
      return false;
    }
    for row := 0 to GridSize
      invariant StuckBefore(grid, row, 0)
    {
      for col := 0 to GridSize
        invariant StuckBefore(grid, row, col)
      {
        var current := grid[row][col];
        if current.Empty? {
          StuckStep(grid, row, col);
          continue;
        }
        if col < GridSize - 1 && grid[row][col + 1].Full? && grid[row][col + 1].tile.value == current.tile.value {
          assert !Stuck(grid, row, col);
          return false;
        }
        if row < GridSize - 1 && grid[row + 1][col].Full? && grid[row + 1][col].tile.value == current.tile.value {
          assert !Stuck(grid, row, col);
          return false;
        }
        StuckStep(grid, row, col);
      }
      StuckNextRow(grid, row);
    }
    return true;
  }

  /** `q` is the right or the lower neighbour of `p`. */
  predicate Adjacent(p: Pos, q: Pos)
  {
    (p.row == q.row && p.col + 1 == q.col) || (p.col == q.col && p.row + 1 == q.row)
  }

  /** On a full board, no tile matches its right or lower neighbour exactly
      when adjacent tiles always differ in value. */
  lemma NoMatchesApart(g: Grid)
    requires WellFormed(g) && forall p :: OnBoard(p) ==> g[p.row][p.col].Full?
    ensures StuckBefore(g, GridSize, 0) <==>
      (forall p, q :: OnBoard(p) && OnBoard(q) && Adjacent(p, q) ==>
        g[p.row][p.col].tile.value != g[q.row][q.col].tile.value)
  {
    if StuckBefore(g, GridSize, 0) {
      forall p, q | OnBoard(p) && OnBoard(q) && Adjacent(p, q)
        ensures g[p.row][p.col].tile.value != g[q.row][q.col].tile.value
      {
        assert Stuck(g, p.row, p.col);
      }
    }
    if forall p, q :: OnBoard(p) && OnBoard(q) && Adjacent(p, q) ==>
        g[p.row][p.col].tile.value != g[q.row][q.col].tile.value {
      forall r: nat, c: nat | r < GridSize && c < GridSize
        ensures Stuck(g, r, c)
      {
        if c + 1 < GridSize {
          assert Adjacent(Pos(r, c), Pos(r, c + 1)) && OnBoard(Pos(r, c)) && OnBoard(Pos(r, c + 1));
        }
        if r + 1 < GridSize {
          assert Adjacent(Pos(r, c), Pos(r + 1, c)) && OnBoard(Pos(r, c)) && OnBoard(Pos(r + 1, c));
        }
      }
    }
  }

  /** A board is locked exactly when every cell holds a tile and no two
      horizontally or vertically adjacent tiles have the same value. */
  lemma LockedMeansFullAndStuck(g: Grid)
    requires WellFormed(g)
    ensures IsLocked(g) <==>
      (forall p :: OnBoard(p) ==> g[p.row][p.col].Full?) &&
      (forall p, q :: OnBoard(p) && OnBoard(q) && Adjacent(p, q) ==>
        g[p.row][p.col].tile.value != g[q.row][q.col].tile.value)
  {
    NoEmptyCells(g);
    if forall p :: OnBoard(p) ==> g[p.row][p.col].Full? {
      NoMatchesApart(g);
    }
  }

  // ---------------------------------------------------------------------
  // One move
  // ---------------------------------------------------------------------

  /** `isValidMove`: the JSON texts of the two boards differ. Every tile
      object lists its four fields in the same order, so the texts differ
      exactly when the boards differ, merge and new flags included. */
  predicate IsValidMove(oldGrid: Grid, newGrid: Grid)
  {
    oldGrid != newGrid
  }

  /** On two 4x4 boards a move is effective exactly when some cell differs,
      a tile's flags or id counting as much as its value. */
  lemma IsValidMoveCells(oldGrid: Grid, newGrid: Grid)
    requires WellFormed(oldGrid) && WellFormed(newGrid)
    ensures IsValidMove(oldGrid, newGrid) <==>
      exists p :: OnBoard(p) && oldGrid[p.row][p.col] != newGrid[p.row][p.col]
  {
    if !exists p :: OnBoard(p) && oldGrid[p.row][p.col] != newGrid[p.row][p.col] {
      forall i, j | 0 <= i < GridSize && 0 <= j < GridSize
        ensures oldGrid[i][j] == newGrid[i][j]
      {
        assert OnBoard(Pos(i, j));
      }
      SameGridEqual(oldGrid, newGrid);
    }
  }

  function Max(a: nat, b: nat): nat
  {
    if a >= b then a else b
  }

  /** The status after an effective move onto `grid`: a lost game stays
      lost, a won game never plays again, a game becomes won only from
      playing with a winning tile on the board, becomes lost only on a locked
      board, and stays playing only without a winning tile on an unlocked
      board. */
  function NextStatus(status: Status, grid: Grid): (s: Status)
    requires WellFormed(grid)
    ensures status == Lost ==> s == Lost
    ensures status == Won ==> s != Playing
    ensures s == Won && status != Won ==> status == Playing && HasWinningTile(grid)
    ensures s == Lost && status != Lost ==> IsLocked(grid)
    ensures s == Playing ==> status == Playing && !HasWinningTile(grid) && !IsLocked(grid)
  {
    if HasWinningTile(grid) && status == Playing then Won
    else if IsLocked(grid) then Lost
    else status
  }

  /** `applyMove`. `supply` is the id supply before the move; `where` and
      `kind` are the two draws of the spawn. */
  function ApplyMove(state: GameState, direction: Direction, supply: nat, where: Draw, kind: Draw): (next: Step)
    requires WellFormed(state.grid) && where.Valid() && kind.Valid()
    ensures WellFormed(next.state.grid)
  {
    var out := SlideAndMergeOf(state.grid, direction, supply);
    if !IsValidMove(state.grid, out.newGrid) then Step(state, out.supply)
    else
      var spawned := Spawn(out.newGrid, where, kind, out.supply);
      var newScore := state.score + out.mergedScore;
      Step(GameState(spawned.grid, newScore, Max(state.bestScore, newScore),
                     NextStatus(state.status, spawned.grid), state.moveCount + 1),
           spawned.supply)
  }

  /** A move that leaves the board as it was changes nothing: no spawn, no
      score, no status change, no move counted. */
  lemma IneffectiveMoveKeepsState(state: GameState, direction: Direction, supply: nat, where: Draw, kind: Draw)
    requires WellFormed(state.grid) && where.Valid() && kind.Valid()
    requires SlideAndMergeOf(state.grid, direction, supply).newGrid == state.grid
    ensures ApplyMove(state, direction, supply, where, kind).state == state
  {
  }

  /** An effective move adds the values of the tiles it created by merging
      to the score, raises the best score to at least the new score, counts
      one move, puts the slid board with one spawned tile in place, and grows
      the board's total by the spawned value. */
  lemma EffectiveMove(state: GameState, direction: Direction, supply: nat, where: Draw, kind: Draw)
    requires WellFormed(state.grid) && where.Valid() && kind.Valid()
    requires SlideAndMergeOf(state.grid, direction, supply).newGrid != state.grid
    ensures var out := SlideAndMergeOf(state.grid, direction, supply);
      var next := ApplyMove(state, direction, supply, where, kind).state;
      next.score == state.score + GridTotal(out.newGrid, MergedValue) &&
      next.bestScore >= next.score && next.bestScore >= state.bestScore &&
      (next.bestScore == next.score || next.bestScore == state.bestScore) &&
      next.moveCount == state.moveCount + 1 &&
      next.grid == Spawn(out.newGrid, where, kind, out.supply).grid &&
      GridTotal(next.grid, Value) ==
        GridTotal(state.grid, Value) + if |EmptyCells(out.newGrid)| > 0 then SpawnValue(kind) else 0
  {
    var out := SlideAndMergeOf(state.grid, direction, supply);
    SlideAndMergeTotals(state.grid, direction, supply);
    SpawnTotal(out.newGrid, where, kind, out.supply);
  }

  /** The status rule: a playing game is won as soon as a winning tile is on
      the board; a won game is never playing again; a lost game stays lost;
      a game is lost only on a locked board. After an effective move that
      does not win, a locked board loses and an unlocked board keeps the
      status; a game newly won was playing and has a winning tile. */
  lemma StatusRule(state: GameState, direction: Direction, supply: nat, where: Draw, kind: Draw)
    requires WellFormed(state.grid) && where.Valid() && kind.Valid()
    ensures var next := ApplyMove(state, direction, supply, where, kind).state;
      (state.status == Lost ==> next.status == Lost) &&
      (state.status == Won ==> next.status != Playing) &&
      (next.status == Lost && state.status != Lost ==> IsLocked(next.grid))
    ensures var next := ApplyMove(state, direction, supply, where, kind).state;
      IsValidMove(state.grid, SlideAndMergeOf(state.grid, direction, supply).newGrid) ==>
        (state.status == Playing && HasWinningTile(next.grid) ==> next.status == Won) &&
        (next.status == Playing ==> state.status == Playing && !HasWinningTile(next.grid)) &&
        (!(state.status == Playing && HasWinningTile(next.grid)) ==>
          (IsLocked(next.grid) ==> next.status == Lost) &&
          (!IsLocked(next.grid) ==> next.status == state.status)) &&
        (next.status == Won && state.status != Won ==> state.status == Playing && HasWinningTile(next.grid))
  {
  }

  /** What every state built by `initializeGame` and `applyMove` satisfies:
      a 4x4 board whose ids were all issued by the supply, a best score at
      least the score, a winning tile on the board once won, and none while
      playing. The app's "continue after win" action, which sets a won game
      back to playing with the winning tile still on the board, is outside
      this engine and does not keep the last part. */
  predicate Consistent(state: GameState, supply: nat)
  {
    WellFormed(state.grid) && IdsBelow(state.grid, supply) &&
    state.score <= state.bestScore &&
    (state.status == Won ==> HasWinningTile(state.grid)) &&
    (state.status == Playing ==> !HasWinningTile(state.grid))
  }

  /** A spawn takes one empty cell and one id, unless the board is full. */
  lemma SpawnCounts(g: Grid, where: Draw, kind: Draw, supply: nat)
    requires WellFormed(g) && where.Valid() && kind.Valid()
    ensures var s := Spawn(g, where, kind, supply);
      if |EmptyCells(g)| > 0 then |EmptyCells(s.grid)| == |EmptyCells(g)| - 1 && s.supply == supply + 1
      else s == Spawned(g, supply)
  {
    if |EmptyCells(g)| > 0 {
      var p := SpawnedAt(g, where, kind, supply);
      PlaceCount(g, p, SpawnedTile(kind, supply));
    }
  }

  /** A new game starts with two tiles of value 2 or 4 and fourteen empty
      cells, score 0, best score 0, playing, no move made, two ids used. */
  lemma InitialGame(where1: Draw, kind1: Draw, where2: Draw, kind2: Draw, supply: nat)
    requires where1.Valid() && kind1.Valid() && where2.Valid() && kind2.Valid()
    ensures var init := InitializeGame(where1, kind1, where2, kind2, supply);
      |EmptyCells(init.state.grid)| == GridSize * GridSize - 2 &&
      GridTotal(init.state.grid, Value) == SpawnValue(kind1) + SpawnValue(kind2) &&
      init.state.score == 0 && init.state.bestScore == 0 &&
      init.state.status == Playing && init.state.moveCount == 0 &&
      init.supply == supply + 2
  {
    var empty := CreateEmptyGrid();
    EmptyGridIsEmpty();
    var first := Spawn(empty, where1, kind1, supply);
    SpawnCounts(empty, where1, kind1, supply);
    SpawnCounts(first.grid, where2, kind2, first.supply);
    SpawnTotal(empty, where1, kind1, supply);
    SpawnTotal(first.grid, where2, kind2, first.supply);
  }

  /** A new game is consistent. */
  lemma InitialGameConsistent(where1: Draw, kind1: Draw, where2: Draw, kind2: Draw, supply: nat)
    requires where1.Valid() && kind1.Valid() && where2.Valid() && kind2.Valid()
    ensures var init := InitializeGame(where1, kind1, where2, kind2, supply);
      Consistent(init.state, init.supply)
  {
    var empty := CreateEmptyGrid();
    var first := Spawn(empty, where1, kind1, supply);
    var second := Spawn(first.grid, where2, kind2, first.supply);
    assert IdsBelow(second.grid, second.supply) by {
      assert IdsBelow(empty, supply);
      SpawnKeepsIdsBelow(empty, where1, kind1, supply);
      SpawnKeepsIdsBelow(first.grid, where2, kind2, first.supply);
    }
    assert ValuesAtMost(second.grid, 4) by {
      assert ValuesAtMost(empty, 4);
      SpawnKeepsValuesAtMost(empty, where1, kind1, supply, 4);
      SpawnKeepsValuesAtMost(first.grid, where2, kind2, first.supply, 4);
    }
  }

  /** Every move keeps a consistent state consistent, with the supply it
      leaves. */
  lemma ApplyMoveKeepsConsistent(state: GameState, direction: Direction, supply: nat, where: Draw, kind: Draw)
    requires Consistent(state, supply) && where.Valid() && kind.Valid()
    ensures var next := ApplyMove(state, direction, supply, where, kind);
      Consistent(next.state, next.supply)
  {
    var out := SlideAndMergeOf(state.grid, direction, supply);
    SlideAndMergeKeepsIdsBelow(state.grid, direction, supply);
    SlideAndMergeOrigins(state.grid, direction, supply);
    if IsValidMove(state.grid, out.newGrid) {
      SpawnKeepsIdsBelow(out.newGrid, where, kind, out.supply);
      if state.status == Won {
        SlideAndMergeKeepsWin(state.grid, direction, supply);
        SpawnKeepsWin(out.newGrid, where, kind, out.supply);
      }
    } else {
      assert IdsBelow(state.grid, out.supply) by {
        forall r, c | 0 <= r < |state.grid| && 0 <= c < |state.grid[r]| && state.grid[r][c].Full?
          ensures state.grid[r][c].tile.id < out.supply
        {
        }
      }
    }
  }

  // ---------------------------------------------------------------------
  // Flags count in the effectiveness check
  // ---------------------------------------------------------------------

  /** A row without tiles. */
  function EmptyRow(): seq<Cell>
  {
    [Empty, Empty, Empty, Empty]
  }

  /** A board whose only tile sits in the top-left corner, with its merge
      flag set as the previous move left it when `merged` holds. */
  function CornerBoard(merged: bool): (g: Grid)
    ensures WellFormed(g)
  {
    [[Full(Tile(2, 0, false, merged)), Empty, Empty, Empty], EmptyRow(), EmptyRow(), EmptyRow()]
  }

  /** The left slide of the corner board, row by row. */
  lemma CornerRows()
    ensures SlideRowsOf(CornerBoard(true), 1) ==
      [RowResult(CornerBoard(false)[0], 0, {}, 1), RowResult(EmptyRow(), 0, {}, 1),
       RowResult(EmptyRow(), 0, {}, 1), RowResult(EmptyRow(), 0, {}, 1)]
  {
    var g := CornerBoard(true);
    var t := Tile(2, 0, false, true);
    assert Compact(EmptyRow()) == [] by {
      assert EmptyRow()[1..] == [Empty, Empty, Empty];
      assert EmptyRow()[1..][1..] == [Empty, Empty];
      assert EmptyRow()[1..][1..][1..] == [Empty];
    }
    assert SlideRowOf(EmptyRow(), 1) == RowResult(EmptyRow(), 0, {}, 1) by {
      assert Pad(Cells([])) == EmptyRow();
    }
    assert Compact(g[0]) == [t] by {
      assert g[0][1..] == EmptyRow()[1..];
      assert Compact(EmptyRow()) == Compact(EmptyRow()[1..]);
    }
    assert SlideRowOf(g[0], 1) == RowResult(CornerBoard(false)[0], 0, {}, 1) by {
      assert MergeTiles([t], 1) == Merged([Settled(t)], 0, {}, 1);
      assert Pad(Cells([Settled(t)])) == CornerBoard(false)[0];
    }
    assert g[1..] == [EmptyRow(), EmptyRow(), EmptyRow()];
    assert g[1..][1..] == [EmptyRow(), EmptyRow()];
    assert g[1..][1..][1..] == [EmptyRow()];
  }

  /** Empty rows score nothing, merge nothing and use no id. */
  lemma EmptyRowsQuiet(rs: seq<RowResult>, supply: nat)
    requires forall i :: 0 <= i < |rs| ==> rs[i] == RowResult(EmptyRow(), 0, {}, supply)
    ensures TotalScore(rs) == 0 && AllMergedIds(rs) == {} && SupplyAfter(rs, supply) == supply
    decreases |rs|
  {
    if rs != [] {
      EmptyRowsQuiet(rs[1..], supply);
    }
  }

  /** What the rows of that slide add up to. */
  lemma CornerResults(rs: seq<RowResult>)
    requires rs == [RowResult(CornerBoard(false)[0], 0, {}, 1), RowResult(EmptyRow(), 0, {}, 1),
                    RowResult(EmptyRow(), 0, {}, 1), RowResult(EmptyRow(), 0, {}, 1)]
    ensures RowsOf(rs) == CornerBoard(false)
    ensures TotalScore(rs) == 0 && AllMergedIds(rs) == {} && SupplyAfter(rs, 1) == 1
  {
    assert RowsOf(rs) == [rs[0].row, rs[1].row, rs[2].row, rs[3].row];
    EmptyRowsQuiet(rs[1..], 1);
  }

  /** Sliding that board left moves no tile and merges nothing, but clears
      the merge flag. */
  lemma CornerSlide()
    ensures SlideAndMergeOf(CornerBoard(true), Left, 1) == Outcome(CornerBoard(false), 0, {}, 1)
  {
    CornerRows();
    CornerResults(SlideRowsOf(CornerBoard(true), 1));
  }

  /** The move of that board to the left counts: the comparison sees the
      cleared flag although no tile moved and nothing merged, so a tile is
      spawned and the move is counted. */
  lemma FlagResetCountsAsMove(where: Draw, kind: Draw)
    requires where.Valid() && kind.Valid()
    ensures var out := SlideAndMergeOf(CornerBoard(true), Left, 1);
      out.mergedScore == 0 && out.mergedTileIds == {} &&
      IsValidMove(CornerBoard(true), out.newGrid) &&
      ApplyMove(GameState(CornerBoard(true), 0, 0, Playing, 0), Left, 1, where, kind).state.moveCount == 1
  {
    CornerSlide();
    assert CornerBoard(true)[0][0] != CornerBoard(false)[0][0];
  }
}
