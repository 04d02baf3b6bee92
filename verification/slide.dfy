/**
  Sliding and merging: the row rule of `slideLeft` (compact, merge adjacent
  equal tiles at most once each, pad with empty cells), its application to
  every row of the board, and the reduction of the four directions to a
  left slide by rotating the board before and after.
*/
module Slide {
  import opened Board

  /** The merge of a compacted line: the resulting tiles, the score they
      earn, the ids of the tiles consumed by merges, and the id supply after
      the fresh ids the merges took. */
  datatype Merged = Merged(tiles: seq<Tile>, score: nat, mergedIds: set<nat>, supply: nat)

  /** What `slideLeft` produces for one row, with the id supply after it. */
  datatype RowResult = RowResult(row: seq<Cell>, score: nat, mergedIds: set<nat>, supply: nat)

  /** What `slideAndMerge` produces, with the id supply after it. */
  datatype Outcome = Outcome(newGrid: Grid, mergedScore: nat, mergedTileIds: set<nat>, supply: nat)

  // ---------------------------------------------------------------------
  // Lines of tiles
  // ---------------------------------------------------------------------

  /** The tiles of a row in order, empty cells dropped. */
  function Compact(row: seq<Cell>): (ts: seq<Tile>)
    ensures |ts| <= |row|
  {
    if row == [] then []
    else (if row[0].Full? then [row[0].tile] else []) + Compact(row[1..])
  }

  function Cells(ts: seq<Tile>): (cs: seq<Cell>)
  {
    seq(|ts|, i requires 0 <= i < |ts| => Full(ts[i]))
  }

  /** Empty cells appended until the row is `GridSize` long. */
  function Pad(cells: seq<Cell>): seq<Cell>
  {
    if |cells| < GridSize then cells + seq(GridSize - |cells|, _ => Empty) else cells
  }

  /** The tiles of a line form a prefix: no tile follows an empty cell. */
  predicate Packed(line: seq<Cell>)
  {
    forall i, j :: 0 <= i < j < |line| && line[i].Empty? ==> line[j].Empty?
  }

  function Values(ts: seq<Tile>): seq<nat>
  {
    if ts == [] then [] else [ts[0].value] + Values(ts[1..])
  }

  /** Reference rule on tile values alone: scanning from the leading edge,
      two equal neighbours become one value of twice the size, and a value
      produced by a merge is not looked at again. */
  function MergeValues(vs: seq<nat>): seq<nat>
  {
    if |vs| < 2 then vs
    else if vs[0] == vs[1] then [2 * vs[0]] + MergeValues(vs[2..])
    else [vs[0]] + MergeValues(vs[1..])
  }

  /** Reference rule for where merges happen: the same scan as
      `MergeValues`, marking each resulting value that a merge produced. */
  function MergeFlags(vs: seq<nat>): (fs: seq<bool>)
    ensures |fs| == |MergeValues(vs)|
  {
    if |vs| < 2 then seq(|vs|, _ => false)
    else if vs[0] == vs[1] then [true] + MergeFlags(vs[2..])
    else [false] + MergeFlags(vs[1..])
  }

  lemma {:induction false} CompactAppend(a: seq<Cell>, b: seq<Cell>)
    ensures Compact(a + b) == Compact(a) + Compact(b)
  {
    if a == [] {
      assert a + b == b;
    } else {
      var head := if a[0].Full? then [a[0].tile] else [];
      assert (a + b)[0] == a[0];
      assert (a + b)[1..] == a[1..] + b;
      CompactAppend(a[1..], b);
      calc {
        Compact(a + b);
        head + Compact(a[1..] + b);
        head + (Compact(a[1..]) + Compact(b));
        (head + Compact(a[1..])) + Compact(b);
        Compact(a) + Compact(b);
      }
    }
  }

  lemma {:induction false} CompactCells(ts: seq<Tile>)
    ensures Compact(Cells(ts)) == ts
  {
    if ts != [] {
      assert Cells(ts)[1..] == Cells(ts[1..]);
      CompactCells(ts[1..]);
    }
  }

  lemma {:induction false} CompactEmpties(n: nat)
    ensures Compact(seq(n, _ => Empty)) == []
  {
    if n > 0 {
      assert seq(n, _ => Empty)[1..] == seq(n - 1, _ => Empty);
      CompactEmpties(n - 1);
    }
  }

  /** The compacted row holds exactly the tiles of the row. */
  lemma {:induction false} CompactMembers(row: seq<Cell>)
    ensures forall t :: t in Compact(row) <==> Full(t) in row
  {
    if row != [] {
      CompactMembers(row[1..]);
      var head := if row[0].Full? then [row[0].tile] else [];
      assert Compact(row) == head + Compact(row[1..]);
      assert forall c :: c in row <==> c == row[0] || c in row[1..];
    } else {
      assert Compact(row) == [];
    }
  }

  lemma {:induction false} RowTotalAppend(a: seq<Cell>, b: seq<Cell>, w: Cell -> nat)
    ensures RowTotal(a + b, w) == RowTotal(a, w) + RowTotal(b, w)
  {
    if a == [] {
      assert a + b == b;
    } else {
      assert (a + b)[0] == a[0];
      assert (a + b)[1..] == a[1..] + b;
      RowTotalAppend(a[1..], b, w);
    }
  }

  lemma {:induction false} RowTotalEmpties(n: nat, w: Cell -> nat)
    requires w(Empty) == 0
    ensures RowTotal(seq(n, _ => Empty), w) == 0
  {
    if n > 0 {
      assert seq(n, _ => Empty)[1..] == seq(n - 1, _ => Empty);
      RowTotalEmpties(n - 1, w);
    }
  }

  /** Dropping empty cells does not change a total that ignores them. */
  lemma {:induction false} CompactTotal(row: seq<Cell>, w: Cell -> nat)
    requires w(Empty) == 0
    ensures RowTotal(Cells(Compact(row)), w) == RowTotal(row, w)
  {
    if row != [] {
      CompactTotal(row[1..], w);
      var head := if row[0].Full? then [row[0].tile] else [];
      assert Compact(row) == head + Compact(row[1..]);
      assert Cells(Compact(row)) == Cells(head) + Cells(Compact(row[1..]));
      RowTotalAppend(Cells(head), Cells(Compact(row[1..])), w);
      if head == [] {
        assert row[0] == Empty;
      } else {
        assert Cells(head)[1..] == [];
      }
    }
  }

  /** Cell by cell: the tiles in order, then empty cells. */
  lemma PadCellsAt(ts: seq<Tile>)
    requires |ts| <= GridSize
    ensures |Pad(Cells(ts))| == GridSize
    ensures forall i :: 0 <= i < GridSize ==>
      Pad(Cells(ts))[i] == if i < |ts| then Full(ts[i]) else Empty
  {
  }

  /** Padding appends empty cells only: the row stays packed, keeps its tiles
      and its totals, and is `GridSize` long. */
  lemma PadCells(ts: seq<Tile>, w: Cell -> nat)
    requires |ts| <= GridSize && w(Empty) == 0
    ensures |Pad(Cells(ts))| == GridSize
    ensures forall t :: Full(t) in Pad(Cells(ts)) <==> t in ts
    ensures Packed(Pad(Cells(ts)))
    ensures Compact(Pad(Cells(ts))) == ts
    ensures RowTotal(Pad(Cells(ts)), w) == RowTotal(Cells(ts), w)
    ensures forall i :: 0 <= i < GridSize ==>
      Pad(Cells(ts))[i] == if i < |ts| then Full(ts[i]) else Empty
  {
    var n := GridSize - |ts|;
    assert Pad(Cells(ts)) == Cells(ts) + seq(n, _ => Empty);
    CompactAppend(Cells(ts), seq(n, _ => Empty));
    CompactCells(ts);
    CompactEmpties(n);
    RowTotalAppend(Cells(ts), seq(n, _ => Empty), w);
    RowTotalEmpties(n, w);
    CompactMembers(Pad(Cells(ts)));
  }

  // ---------------------------------------------------------------------
  // The merge rule of slideLeft on a compacted row
  // ---------------------------------------------------------------------

  /** The merge scan of `slideLeft`: `ts` are the row's tiles in order and
      `supply` is the next id the fresh-id supply hands out. */
  function MergeTiles(ts: seq<Tile>, supply: nat): (m: Merged)
    ensures |m.tiles| <= |ts|
    ensures supply <= m.supply
    decreases |ts|
  {
    if |ts| == 0 then Merged([], 0, {}, supply)
    else if |ts| >= 2 && ts[0].value == ts[1].value then
      var v := ts[0].value * 2;
      var rest := MergeTiles(ts[2..], supply + 1);
      Merged([Tile(v, supply, false, true)] + rest.tiles, v + rest.score,
             {ts[0].id, ts[1].id} + rest.mergedIds, rest.supply)
    else
      var rest := MergeTiles(ts[1..], supply);
      Merged([Settled(ts[0])] + rest.tiles, rest.score, rest.mergedIds, rest.supply)
  }

  /** Each merge turns two tiles into one and takes one fresh id. */
  lemma {:induction false} MergeTilesCount(ts: seq<Tile>, supply: nat)
    ensures var m := MergeTiles(ts, supply);
      |m.tiles| + (m.supply - supply) == |ts|
    decreases |ts|
  {
    if |ts| >= 2 && ts[0].value == ts[1].value {
      MergeTilesCount(ts[2..], supply + 1);
    } else if |ts| > 0 {
      MergeTilesCount(ts[1..], supply);
    }
  }

  /** The merge keeps the total value of the line, and the score is the total
      value of the tiles the merges created. */
  lemma {:induction false} MergeTilesTotals(ts: seq<Tile>, supply: nat)
    ensures var m := MergeTiles(ts, supply);
      RowTotal(Cells(m.tiles), Value) == RowTotal(Cells(ts), Value) &&
      RowTotal(Cells(m.tiles), MergedValue) == m.score
    decreases |ts|
  {
    var m := MergeTiles(ts, supply);
    if |ts| >= 2 && ts[0].value == ts[1].value {
      var rest := MergeTiles(ts[2..], supply + 1);
      MergeTilesTotals(ts[2..], supply + 1);
      assert Cells(m.tiles)[1..] == Cells(rest.tiles);
      assert Cells(ts)[1..][1..] == Cells(ts[2..]);
    } else if |ts| > 0 {
      var rest := MergeTiles(ts[1..], supply);
      MergeTilesTotals(ts[1..], supply);
      assert Cells(m.tiles)[1..] == Cells(rest.tiles);
      assert Cells(ts)[1..] == Cells(ts[1..]);
    }
  }

  /** The tile as it stays in a slide that does not merge it: only its merge
      flag is cleared. */
  function Settled(t: Tile): Tile
  {
    t.(isMerged := false)
  }

  /** A tile in the result is either a fresh merge result (never new, with an
      id taken from the supply during this merge) or a tile of the line,
      unchanged except that its merge flag is cleared. */
  lemma {:induction false} MergeTilesOrigins(ts: seq<Tile>, supply: nat)
    ensures var m := MergeTiles(ts, supply);
      forall t :: t in m.tiles ==>
        if t.isMerged then !t.isNew && supply <= t.id < m.supply
        else exists u :: u in ts && t == Settled(u)
    decreases |ts|
  {
    if |ts| >= 2 && ts[0].value == ts[1].value {
      MergeTilesOrigins(ts[2..], supply + 1);
      assert forall u :: u in ts[2..] ==> u in ts;
    } else if |ts| > 0 {
      MergeTilesOrigins(ts[1..], supply);
      assert forall u :: u in ts[1..] ==> u in ts;
      assert ts[0] in ts;
    }
  }

  /** Every tile of the line survives, with its merge flag cleared, or is
      consumed by a merge that records its id and creates a tile of twice its
      value. */
  lemma {:induction false} MergeTilesConsumes(ts: seq<Tile>, supply: nat)
    ensures var m := MergeTiles(ts, supply);
      forall u :: u in ts ==>
        Settled(u) in m.tiles ||
        (u.id in m.mergedIds && exists t :: t in m.tiles && t.isMerged && t.value == 2 * u.value)
    decreases |ts|
  {
    var m := MergeTiles(ts, supply);
    if |ts| >= 2 && ts[0].value == ts[1].value {
      MergeTilesConsumes(ts[2..], supply + 1);
      var rest := MergeTiles(ts[2..], supply + 1);
      forall u | u in ts
        ensures Settled(u) in m.tiles ||
          (u.id in m.mergedIds && exists t :: t in m.tiles && t.isMerged && t.value == 2 * u.value)
      {
        var k :| 0 <= k < |ts| && ts[k] == u;
        if k >= 2 {
          assert u in ts[2..] by { assert ts[2..][k - 2] == u; }
          if Settled(u) in rest.tiles {
            assert Settled(u) in m.tiles;
          } else {
            var t :| t in rest.tiles && t.isMerged && t.value == 2 * u.value;
            assert t in m.tiles;
          }
        } else {
          assert m.tiles[0] in m.tiles;
        }
      }
    } else if |ts| > 0 {
      MergeTilesConsumes(ts[1..], supply);
      var rest := MergeTiles(ts[1..], supply);
      forall u | u in ts
        ensures Settled(u) in m.tiles ||
          (u.id in m.mergedIds && exists t :: t in m.tiles && t.isMerged && t.value == 2 * u.value)
      {
        var k :| 0 <= k < |ts| && ts[k] == u;
        if k >= 1 {
          assert u in ts[1..] by { assert ts[1..][k - 1] == u; }
          if Settled(u) in rest.tiles {
            assert Settled(u) in m.tiles;
          } else {
            var t :| t in rest.tiles && t.isMerged && t.value == 2 * u.value;
            assert t in m.tiles;
          }
        } else {
          assert m.tiles[0] in m.tiles;
        }
      }
    }
  }

  /** Only ids of tiles of the line are recorded as merged. */
  lemma {:induction false} MergeTilesMergedIds(ts: seq<Tile>, supply: nat)
    ensures forall id :: id in MergeTiles(ts, supply).mergedIds ==> exists u :: u in ts && u.id == id
    decreases |ts|
  {
    if |ts| >= 2 && ts[0].value == ts[1].value {
      MergeTilesMergedIds(ts[2..], supply + 1);
      var rest := MergeTiles(ts[2..], supply + 1);
      forall id | id in MergeTiles(ts, supply).mergedIds
        ensures exists u :: u in ts && u.id == id
      {
        if id == ts[0].id {
          assert ts[0] in ts;
        } else if id == ts[1].id {
          assert ts[1] in ts;
        } else {
          assert id in rest.mergedIds;
          var u :| u in ts[2..] && u.id == id;
          assert u in ts;
        }
      }
    } else if |ts| > 0 {
      MergeTilesMergedIds(ts[1..], supply);
      assert forall u :: u in ts[1..] ==> u in ts;
    }
  }

  /** On values the merge is the reference rule: ids and flags never decide
      what merges. */
  lemma {:induction false} MergeTilesValues(ts: seq<Tile>, supply: nat)
    ensures Values(MergeTiles(ts, supply).tiles) == MergeValues(Values(ts))
    decreases |ts|
  {
    if |ts| >= 2 && ts[0].value == ts[1].value {
      MergeTilesValues(ts[2..], supply + 1);
      assert Values(ts)[1..][1..] == Values(ts[2..]) by {
        assert Values(ts)[1..] == Values(ts[1..]);
        assert ts[1..][1..] == ts[2..];
      }
      var m := MergeTiles(ts, supply);
      assert m.tiles[1..] == MergeTiles(ts[2..], supply + 1).tiles;
    } else if |ts| > 0 {
      MergeTilesValues(ts[1..], supply);
      var m := MergeTiles(ts, supply);
      assert m.tiles[1..] == MergeTiles(ts[1..], supply).tiles;
      if |ts| >= 2 {
        assert Values(ts)[1..] == Values(ts[1..]);
        assert Values(ts[1..])[0] == ts[1].value;
      }
    }
  }

  /** The merged tiles sit exactly where the reference scan merges: the
      tile at position `i` of the result was created by a merge exactly when
      the reference rule merges at position `i`. */
  lemma {:induction false} MergeTilesFlags(ts: seq<Tile>, supply: nat)
    ensures var m := MergeTiles(ts, supply);
      |m.tiles| == |MergeFlags(Values(ts))| &&
      forall i :: 0 <= i < |m.tiles| ==> m.tiles[i].isMerged == MergeFlags(Values(ts))[i]
    decreases |ts|
  {
    MergeTilesValues(ts, supply);
    var m := MergeTiles(ts, supply);
    if |ts| >= 2 && ts[0].value == ts[1].value {
      MergeTilesFlags(ts[2..], supply + 1);
      assert Values(ts)[1..][1..] == Values(ts[2..]) by {
        assert Values(ts)[1..] == Values(ts[1..]);
        assert ts[1..][1..] == ts[2..];
      }
      var rest := MergeTiles(ts[2..], supply + 1);
      assert m.tiles[1..] == rest.tiles;
      assert MergeFlags(Values(ts)) == [true] + MergeFlags(Values(ts[2..]));
      forall i | 0 < i < |m.tiles|
        ensures m.tiles[i].isMerged == MergeFlags(Values(ts))[i]
      {
        assert m.tiles[i] == rest.tiles[i - 1];
      }
    } else if |ts| > 0 {
      MergeTilesFlags(ts[1..], supply);
      var rest := MergeTiles(ts[1..], supply);
      assert m.tiles[1..] == rest.tiles;
      assert Values(ts)[1..] == Values(ts[1..]);
      if |ts| >= 2 {
        assert Values(ts[1..])[0] == ts[1].value;
        assert MergeFlags(Values(ts)) == [false] + MergeFlags(Values(ts[1..]));
      } else {
        assert ts[1..] == [];
      }
      forall i | 0 < i < |m.tiles|
        ensures m.tiles[i].isMerged == MergeFlags(Values(ts))[i]
      {
        assert m.tiles[i] == rest.tiles[i - 1];
      }
    }
  }

  /** No two tiles of the line carry the same id. */
  predicate DistinctIds(ts: seq<Tile>)
  {
    forall i, j :: 0 <= i < j < |ts| ==> ts[i].id != ts[j].id
  }

  /** The tiles of the line whose ids are not in `ids`, in their order, each
      with its merge flag cleared. */
  function Kept(ts: seq<Tile>, ids: set<nat>): seq<Tile>
  {
    if ts == [] then []
    else (if ts[0].id in ids then [] else [Settled(ts[0])]) + Kept(ts[1..], ids)
  }

  /** The tiles of the line that no merge created, in their order. */
  function Unmerged(ts: seq<Tile>): seq<Tile>
  {
    if ts == [] then [] else (if ts[0].isMerged then [] else [ts[0]]) + Unmerged(ts[1..])
  }

  lemma {:induction false} KeptMembers(ts: seq<Tile>, ids: set<nat>)
    ensures forall t :: t in Kept(ts, ids) <==> exists u :: u in ts && u.id !in ids && t == Settled(u)
  {
    if ts != [] {
      KeptMembers(ts[1..], ids);
      assert forall u :: u in ts <==> u == ts[0] || u in ts[1..];
    }
  }

  lemma {:induction false} UnmergedMembers(ts: seq<Tile>)
    ensures forall t :: t in Unmerged(ts) <==> t in ts && !t.isMerged
  {
    if ts != [] {
      UnmergedMembers(ts[1..]);
      assert forall u :: u in ts <==> u == ts[0] || u in ts[1..];
    }
  }

  /** Only the membership of the line's own ids decides what is kept. */
  lemma {:induction false} KeptSame(ts: seq<Tile>, a: set<nat>, b: set<nat>)
    requires forall i :: 0 <= i < |ts| ==> (ts[i].id in a <==> ts[i].id in b)
    ensures Kept(ts, a) == Kept(ts, b)
  {
    if ts != [] {
      assert forall i :: 0 <= i < |ts[1..]| ==> ts[1..][i] == ts[i + 1];
      KeptSame(ts[1..], a, b);
    }
  }

  lemma DistinctIdsTail(ts: seq<Tile>, k: nat)
    requires DistinctIds(ts) && k <= |ts|
    ensures DistinctIds(ts[k..])
    ensures forall i, j :: 0 <= i < k <= j < |ts| ==> ts[i].id != ts[j].id
  {
    assert forall i :: 0 <= i < |ts[k..]| ==> ts[k..][i] == ts[i + k];
  }

  /** A merged pair records two ids that no later tile of the line has. */
  lemma KeptAfterPair(ts: seq<Tile>, ids: set<nat>, rest: set<nat>)
    requires |ts| >= 2 && DistinctIds(ts) && ids == {ts[0].id, ts[1].id} + rest
    ensures Kept(ts, ids) == Kept(ts[2..], rest)
  {
    DistinctIdsTail(ts, 2);
    assert ts[1..][1..] == ts[2..];
    assert Kept(ts, ids) == Kept(ts[2..], ids);
    forall i | 0 <= i < |ts[2..]|
      ensures ts[2..][i].id in ids <==> ts[2..][i].id in rest
    {
      assert ts[2..][i] == ts[i + 2];
    }
    KeptSame(ts[2..], ids, rest);
  }

  /** A tile left alone is not recorded by the merges of the tiles after it. */
  lemma FirstNotRecorded(ts: seq<Tile>, supply: nat)
    requires |ts| >= 1 && DistinctIds(ts)
    ensures ts[0].id !in MergeTiles(ts[1..], supply).mergedIds
  {
    MergeTilesMergedIds(ts[1..], supply);
    DistinctIdsTail(ts, 1);
    forall u | u in ts[1..]
      ensures u.id != ts[0].id
    {
      var k :| 0 <= k < |ts[1..]| && ts[1..][k] == u;
      assert ts[k + 1] == u;
    }
  }

  /** With distinct ids, the tiles a merge leaves alone are, in order,
      exactly the tiles of the line whose ids are not recorded, each with its
      merge flag cleared. */
  lemma {:induction false} MergeTilesKept(ts: seq<Tile>, supply: nat)
    requires DistinctIds(ts)
    ensures var m := MergeTiles(ts, supply);
      Unmerged(m.tiles) == Kept(ts, m.mergedIds)
    decreases |ts|
  {
    var m := MergeTiles(ts, supply);
    if |ts| >= 2 && ts[0].value == ts[1].value {
      var rest := MergeTiles(ts[2..], supply + 1);
      DistinctIdsTail(ts, 2);
      MergeTilesKept(ts[2..], supply + 1);
      assert m.tiles[1..] == rest.tiles;
      KeptAfterPair(ts, m.mergedIds, rest.mergedIds);
    } else if |ts| > 0 {
      var rest := MergeTiles(ts[1..], supply);
      DistinctIdsTail(ts, 1);
      MergeTilesKept(ts[1..], supply);
      assert m.tiles[1..] == rest.tiles;
      FirstNotRecorded(ts, supply);
    }
  }

  /** With distinct ids, a tile's id is recorded exactly when the tile does
      not survive the merge. */
  lemma MergeTilesRecorded(ts: seq<Tile>, supply: nat)
    requires DistinctIds(ts)
    ensures var m := MergeTiles(ts, supply);
      forall u :: u in ts ==> (u.id in m.mergedIds <==> Settled(u) !in m.tiles)
  {
    var m := MergeTiles(ts, supply);
    MergeTilesKept(ts, supply);
    KeptMembers(ts, m.mergedIds);
    UnmergedMembers(m.tiles);
    forall u | u in ts
      ensures u.id in m.mergedIds <==> Settled(u) !in m.tiles
    {
      if Settled(u) in m.tiles {
        assert Settled(u) in Kept(ts, m.mergedIds);
        var w :| w in ts && w.id !in m.mergedIds && Settled(u) == Settled(w);
        assert w.id == u.id;
      } else {
        assert Settled(u) !in Kept(ts, m.mergedIds);
      }
    }
  }

  // ---------------------------------------------------------------------
  // One row (the callback of slideLeft)
  // ---------------------------------------------------------------------

  function SlideRowOf(row: seq<Cell>, supply: nat): (r: RowResult)
    ensures |row| <= GridSize ==> |r.row| == GridSize
    ensures supply <= r.supply
  {
    var m := MergeTiles(Compact(row), supply);
    RowResult(Pad(Cells(m.tiles)), m.score, m.mergedIds, m.supply)
  }

  /** The state of the merge scan of `slideLeft` when it resumes at position
      `k` of the line: what it has emitted, scored and recorded so far,
      followed by what the scan of the rest produces, makes up the whole. */
  ghost predicate Scanned(ts: seq<Tile>, k: nat, next: nat, done: seq<Tile>, score: nat,
                          ids: set<nat>, whole: Merged)
  {
    k <= |ts| &&
    var rest := MergeTiles(ts[k..], next);
    done + rest.tiles == whole.tiles && score + rest.score == whole.score &&
    ids + rest.mergedIds == whole.mergedIds && rest.supply == whole.supply
  }

  lemma ScanStart(ts: seq<Tile>, supply: nat)
    ensures Scanned(ts, 0, supply, [], 0, {}, MergeTiles(ts, supply))
  {
    assert ts[0..] == ts;
  }

  /** The scan merges `ts[k]` with `ts[k + 1]` and skips the partner. */
  lemma ScanPair(ts: seq<Tile>, k: nat, next: nat, done: seq<Tile>, score: nat,
                 ids: set<nat>, whole: Merged)
    requires Scanned(ts, k, next, done, score, ids, whole)
    requires k + 1 < |ts| && ts[k].value == ts[k + 1].value
    ensures Scanned(ts, k + 2, next + 1, done + [Tile(ts[k].value * 2, next, false, true)],
                    score + ts[k].value * 2, ids + {ts[k].id, ts[k + 1].id}, whole)
  {
    assert ts[k..][2..] == ts[k + 2..];
    var tile := Tile(ts[k].value * 2, next, false, true);
    var rest := MergeTiles(ts[k + 2..], next + 1);
    assert MergeTiles(ts[k..], next).tiles == [tile] + rest.tiles;
    assert (done + [tile]) + rest.tiles == done + ([tile] + rest.tiles);
  }

  /** The scan keeps `ts[k]` with its merge flag cleared. */
  lemma ScanSingle(ts: seq<Tile>, k: nat, next: nat, done: seq<Tile>, score: nat,
                   ids: set<nat>, whole: Merged)
    requires Scanned(ts, k, next, done, score, ids, whole)
    requires k < |ts| && !(k + 1 < |ts| && ts[k].value == ts[k + 1].value)
    ensures Scanned(ts, k + 1, next, done + [Settled(ts[k])], score, ids, whole)
  {
    assert ts[k..][1..] == ts[k + 1..];
    var rest := MergeTiles(ts[k + 1..], next);
    assert MergeTiles(ts[k..], next).tiles == [Settled(ts[k])] + rest.tiles;
    assert (done + [Settled(ts[k])]) + rest.tiles == done + ([Settled(ts[k])] + rest.tiles);
  }

  lemma ScanEnd(ts: seq<Tile>, next: nat, done: seq<Tile>, score: nat, ids: set<nat>, whole: Merged)
    requires Scanned(ts, |ts|, next, done, score, ids, whole)
    ensures whole == Merged(done, score, ids, next)
  {
    assert ts[|ts|..] == [];
    assert done + [] == done;
  }

  lemma CellsSnoc(ts: seq<Tile>, t: Tile)
    ensures Cells(ts + [t]) == Cells(ts) + [Full(t)]
  {
  }

  lemma EmptiesSnoc(cs: seq<Cell>, n: nat)
    ensures (cs + seq(n, _ => Empty)) + [Empty] == cs + seq(n + 1, _ => Empty)
  {
  }

  /** The padding loop of `slideLeft`: empty cells are pushed until the row
      is `GridSize` long; a longer row is left as it is. */
  method PadRow(cells: seq<Cell>) returns (padded: seq<Cell>)
    ensures padded == Pad(cells)
    ensures GridSize <= |padded| && cells <= padded
    ensures forall j :: |cells| <= j < |padded| ==> padded[j] == Empty
  {
    padded := cells;
    while |padded| < GridSize
      invariant |cells| <= |padded|
      invariant padded == cells + seq(|padded| - |cells|, _ => Empty)
      invariant |cells| < GridSize ==> |padded| <= GridSize
      invariant |cells| >= GridSize ==> padded == cells
      decreases GridSize - |padded|
    {
      EmptiesSnoc(cells, |padded| - |cells|);
      padded := padded + [Empty];
    }
    if |cells| >= GridSize {
      assert padded == cells;
    }
  }

  /** The row loop of `slideLeft`: compact, scan with the skip flag, pad. */
  method SlideRow(row: seq<Cell>, supply: nat) returns (result: RowResult)
    ensures result == SlideRowOf(row, supply)
  {
    var filtered := Compact(row);
    var merged: seq<Cell> := [];
    var mergedIds: set<nat> := {};
    var score: nat := 0;
    var skip := false;
    var next := supply;
    ghost var whole := MergeTiles(filtered, supply);
    ghost var done: seq<Tile> := [];
    ghost var k: nat := 0;  // where the scan resumes: past the consumed partner when skipping
    ScanStart(filtered, supply);
    for i := 0 to |filtered|
      invariant k == if skip then i + 1 else i
      invariant merged == Cells(done)
      invariant Scanned(filtered, k, next, done, score, mergedIds, whole)
    {
      if skip {
        skip := false;
        continue;
      }
      if i + 1 < |filtered| && filtered[i].value == filtered[i + 1].value {
        ScanPair(filtered, i, next, done, score, mergedIds, whole);
        var newValue := filtered[i].value * 2;
        var tile := Tile(newValue, next, false, true);
        CellsSnoc(done, tile);
        merged := merged + [Full(tile)];
        done := done + [tile];
        next := next + 1;
        score := score + newValue;
        mergedIds := mergedIds + {filtered[i].id, filtered[i + 1].id};
        skip := true;
        k := i + 2;
      } else {
        ScanSingle(filtered, i, next, done, score, mergedIds, whole);
        var tile := filtered[i].(isMerged := false);
        CellsSnoc(done, tile);
        merged := merged + [Full(tile)];
        done := done + [tile];
        k := i + 1;
      }
    }
    ScanEnd(filtered, next, done, score, mergedIds, whole);
    merged := PadRow(merged);
    result := RowResult(merged, score, mergedIds, next);
  }

  /** The slid row is `GridSize` long, its tiles form a prefix, and they are
      exactly the merged tiles in order. */
  lemma SlideRowShape(row: seq<Cell>, supply: nat)
    requires |row| == GridSize
    ensures var r := SlideRowOf(row, supply);
      |r.row| == GridSize && Packed(r.row) &&
      Compact(r.row) == MergeTiles(Compact(row), supply).tiles
  {
    PadCells(MergeTiles(Compact(row), supply).tiles, Value);
  }

  /** A slide keeps the row's total value; the row's score is the total value
      of the merged tiles it created. */
  lemma SlideRowTotals(row: seq<Cell>, supply: nat)
    requires |row| == GridSize
    ensures var r := SlideRowOf(row, supply);
      RowTotal(r.row, Value) == RowTotal(row, Value) &&
      RowTotal(r.row, MergedValue) == r.score
  {
    var m := MergeTiles(Compact(row), supply);
    PadCells(m.tiles, Value);
    PadCells(m.tiles, MergedValue);
    MergeTilesTotals(Compact(row), supply);
    CompactTotal(row, Value);
  }

  /** Where the tiles of a slid row come from: a merge of this slide (never
      new, with an id the supply handed out during the slide), or a tile of
      the row with its merge flag cleared. */
  lemma SlideRowOrigins(row: seq<Cell>, supply: nat)
    requires |row| == GridSize
    ensures var r := SlideRowOf(row, supply);
      forall i :: 0 <= i < GridSize && r.row[i].Full? ==>
        if r.row[i].tile.isMerged then !r.row[i].tile.isNew && supply <= r.row[i].tile.id < r.supply
        else exists c :: 0 <= c < GridSize && row[c].Full? && r.row[i].tile == Settled(row[c].tile)
  {
    var ts := Compact(row);
    var m := MergeTiles(ts, supply);
    var r := SlideRowOf(row, supply);
    PadCells(m.tiles, Value);
    MergeTilesOrigins(ts, supply);
    CompactMembers(row);
    forall i | 0 <= i < GridSize && r.row[i].Full? && !r.row[i].tile.isMerged
      ensures exists c :: 0 <= c < GridSize && row[c].Full? && r.row[i].tile == Settled(row[c].tile)
    {
      var t := r.row[i].tile;
      assert Full(t) in r.row;
      var u :| u in ts && t == Settled(u);
      var c :| 0 <= c < |row| && row[c] == Full(u);
    }
  }

  /** Where the tiles of the row go: each stays with its merge flag cleared,
      or its id is recorded and a merged tile of twice its value is created. */
  lemma SlideRowConsumes(row: seq<Cell>, supply: nat)
    requires |row| == GridSize
    ensures var r := SlideRowOf(row, supply);
      forall c :: 0 <= c < GridSize && row[c].Full? ==>
        Full(Settled(row[c].tile)) in r.row ||
        (row[c].tile.id in r.mergedIds &&
         exists i :: 0 <= i < GridSize && r.row[i].Full? && r.row[i].tile.isMerged &&
           r.row[i].tile.value == 2 * row[c].tile.value)
  {
    var ts := Compact(row);
    var m := MergeTiles(ts, supply);
    var r := SlideRowOf(row, supply);
    PadCellsAt(m.tiles);
    MergeTilesConsumes(ts, supply);
    forall c | 0 <= c < GridSize && row[c].Full?
      ensures Full(Settled(row[c].tile)) in r.row ||
        (row[c].tile.id in r.mergedIds &&
         exists i :: 0 <= i < GridSize && r.row[i].Full? && r.row[i].tile.isMerged &&
           r.row[i].tile.value == 2 * row[c].tile.value)
    {
      var u := row[c].tile;
      assert u in ts by {
        CompactMembers(row);
        assert row[c] in row;
      }
      if Settled(u) in m.tiles {
        var j :| 0 <= j < |m.tiles| && m.tiles[j] == Settled(u);
        assert r.row[j] == Full(Settled(u));
      } else {
        var t :| t in m.tiles && t.isMerged && t.value == 2 * u.value;
        var j :| 0 <= j < |m.tiles| && m.tiles[j] == t;
        assert r.row[j] == Full(t);
      }
    }
  }

  /** Only ids of the row's tiles are recorded as merged. */
  lemma SlideRowMergedIds(row: seq<Cell>, supply: nat)
    requires |row| == GridSize
    ensures forall id :: id in SlideRowOf(row, supply).mergedIds ==>
      exists c :: 0 <= c < GridSize && row[c].Full? && row[c].tile.id == id
  {
    var ts := Compact(row);
    MergeTilesMergedIds(ts, supply);
    forall id | id in SlideRowOf(row, supply).mergedIds
      ensures exists c :: 0 <= c < GridSize && row[c].Full? && row[c].tile.id == id
    {
      var u :| u in ts && u.id == id;
      CompactMembers(row);
      var c :| 0 <= c < |row| && row[c] == Full(u);
    }
  }

  /** No two tiles of the row carry the same id. */
  predicate RowUniqueIds(row: seq<Cell>)
  {
    forall a, b :: 0 <= a < b < |row| && row[a].Full? && row[b].Full? ==> row[a].tile.id != row[b].tile.id
  }

  lemma {:induction false} CompactDistinct(row: seq<Cell>)
    requires RowUniqueIds(row)
    ensures DistinctIds(Compact(row))
  {
    if row != [] {
      assert forall i :: 0 <= i < |row[1..]| ==> row[1..][i] == row[i + 1];
      CompactDistinct(row[1..]);
      if row[0].Full? {
        var rest := Compact(row[1..]);
        assert Compact(row) == [row[0].tile] + rest;
        CompactMembers(row[1..]);
        forall j | 0 <= j < |rest|
          ensures rest[j].id != row[0].tile.id
        {
          assert rest[j] in rest;
          var b :| 0 <= b < |row[1..]| && row[1..][b] == Full(rest[j]);
          assert row[b + 1] == Full(rest[j]);
        }
      } else {
        assert Compact(row) == Compact(row[1..]);
      }
    }
  }

  /** With unique ids in the row, the tiles of the slid row that no merge
      created are, in order, the row's tiles whose ids are not recorded, with
      their merge flags cleared; a tile's id is recorded exactly when the
      tile is not in the slid row. */
  lemma SlideRowKept(row: seq<Cell>, supply: nat)
    requires |row| == GridSize && RowUniqueIds(row)
    ensures var r := SlideRowOf(row, supply);
      Unmerged(Compact(r.row)) == Kept(Compact(row), r.mergedIds)
    ensures var r := SlideRowOf(row, supply);
      forall c :: 0 <= c < GridSize && row[c].Full? ==>
        (row[c].tile.id in r.mergedIds <==> Full(Settled(row[c].tile)) !in r.row)
  {
    var ts := Compact(row);
    var m := MergeTiles(ts, supply);
    CompactDistinct(row);
    SlideRowShape(row, supply);
    MergeTilesKept(ts, supply);
    MergeTilesRecorded(ts, supply);
    PadCells(m.tiles, Value);
    CompactMembers(row);
    forall c | 0 <= c < GridSize && row[c].Full?
      ensures row[c].tile.id in m.mergedIds <==> Full(Settled(row[c].tile)) !in Pad(Cells(m.tiles))
    {
      assert row[c] in row;
    }
  }

  /** On values a slid row is the reference rule applied to the row's tiles,
      and its merged tiles sit exactly where the reference rule merges. */
  lemma SlideRowValues(row: seq<Cell>, supply: nat)
    requires |row| == GridSize
    ensures var r := SlideRowOf(row, supply);
      Packed(r.row) && Values(Compact(r.row)) == MergeValues(Values(Compact(row)))
    ensures var r := SlideRowOf(row, supply);
      var fs := MergeFlags(Values(Compact(row)));
      |fs| <= GridSize &&
      forall i :: 0 <= i < GridSize ==>
        if i < |fs| then r.row[i].Full? && r.row[i].tile.isMerged == fs[i] else r.row[i].Empty?
  {
    var m := MergeTiles(Compact(row), supply);
    SlideRowShape(row, supply);
    MergeTilesValues(Compact(row), supply);
    MergeTilesFlags(Compact(row), supply);
    PadCellsAt(m.tiles);
  }

  // ---------------------------------------------------------------------
  // Every row of the board (slideLeft), then the four directions
  // ---------------------------------------------------------------------

  /** Two pairs merge pairwise: 2 2 4 4 becomes 4 8 and scores 12, with
      all four ids recorded. */
  lemma SlideRowPairs(a: Tile, b: Tile, c: Tile, d: Tile, supply: nat)
    requires a.value == 2 && b.value == 2 && c.value == 4 && d.value == 4
    ensures SlideRowOf([Full(a), Full(b), Full(c), Full(d)], supply) ==
      RowResult([Full(Tile(4, supply, false, true)), Full(Tile(8, supply + 1, false, true)), Empty, Empty],
                12, {a.id, b.id, c.id, d.id}, supply + 2)
  {
    var row := [Full(a), Full(b), Full(c), Full(d)];
    assert Compact(row) == [a, b, c, d] by {
      assert [Full(d)][1..] == [];
      assert Compact([Full(d)]) == [d];
      assert [Full(c), Full(d)][1..] == [Full(d)];
      assert Compact([Full(c), Full(d)]) == [c, d];
      assert [Full(b), Full(c), Full(d)][1..] == [Full(c), Full(d)];
      assert Compact([Full(b), Full(c), Full(d)]) == [b, c, d];
      assert row[1..] == [Full(b), Full(c), Full(d)];
    }
    assert [a, b, c, d][2..] == [c, d];
    assert [c, d][2..] == [];
    assert MergeTiles([c, d], supply + 1) == Merged([Tile(8, supply + 1, false, true)], 8, {c.id, d.id}, supply + 2);
    var m := MergeTiles([a, b, c, d], supply);
    assert m.tiles == [Tile(4, supply, false, true), Tile(8, supply + 1, false, true)];
    assert Pad(Cells(m.tiles)) == [Full(Tile(4, supply, false, true)), Full(Tile(8, supply + 1, false, true)), Empty, Empty];
  }

  /** Of three equal tiles only the first two merge: 2 2 2 becomes 4 2, and
      the third tile keeps its id. */
  lemma SlideRowTriple(a: Tile, b: Tile, c: Tile, supply: nat)
    requires a.value == 2 && b.value == 2 && c.value == 2
    ensures SlideRowOf([Full(a), Full(b), Full(c), Empty], supply) ==
      RowResult([Full(Tile(4, supply, false, true)), Full(Settled(c)), Empty, Empty],
                4, {a.id, b.id}, supply + 1)
  {
    var row := [Full(a), Full(b), Full(c), Empty];
    assert Compact(row) == [a, b, c] by {
      assert [Empty][1..] == [];
      assert Compact([Empty]) == [];
      assert [Full(c), Empty][1..] == [Empty];
      assert Compact([Full(c), Empty]) == [c];
      assert [Full(b), Full(c), Empty][1..] == [Full(c), Empty];
      assert Compact([Full(b), Full(c), Empty]) == [b, c];
      assert row[1..] == [Full(b), Full(c), Empty];
    }
    assert [a, b, c][2..] == [c];
    assert [c][1..] == [];
    assert MergeTiles([c], supply + 1) == Merged([Settled(c)], 0, {}, supply + 1);
    var m := MergeTiles([a, b, c], supply);
    assert m.tiles == [Tile(4, supply, false, true), Settled(c)];
    assert Pad(Cells(m.tiles)) == [Full(Tile(4, supply, false, true)), Full(Settled(c)), Empty, Empty];
  }

  /** `slideLeft` on a board: each row in turn, the id supply threaded from
      one row to the next. */
  function SlideRowsOf(rows: Grid, supply: nat): (rs: seq<RowResult>)
    ensures |rs| == |rows|
    decreases |rows|
  {
    if rows == [] then []
    else
      var first := SlideRowOf(rows[0], supply);
      [first] + SlideRowsOf(rows[1..], first.supply)
  }

  /** The id supply after all the rows. */
  function SupplyAfter(rs: seq<RowResult>, supply: nat): nat
  {
    if rs == [] then supply else SupplyAfter(rs[1..], rs[0].supply)
  }

  function RowsOf(rs: seq<RowResult>): Grid
  {
    seq(|rs|, i requires 0 <= i < |rs| => rs[i].row)
  }

  function TotalScore(rs: seq<RowResult>): nat
  {
    if rs == [] then 0 else rs[0].score + TotalScore(rs[1..])
  }

  function AllMergedIds(rs: seq<RowResult>): set<nat>
  {
    if rs == [] then {} else rs[0].mergedIds + AllMergedIds(rs[1..])
  }

  /** The rotation applied before the left slide, and the one after it. */
  function TurnBefore(direction: Direction): int
  {
    match direction
    case Up => 270
    case Down => 90
    case Right => 180
    case Left => 0
  }

  function TurnAfter(direction: Direction): int
  {
    match direction
    case Up => 90
    case Down => 270
    case Right => 180
    case Left => 0
  }

  lemma {:induction false} SlideRowsLengths(rows: Grid, supply: nat)
    requires forall i :: 0 <= i < |rows| ==> |rows[i]| == GridSize
    ensures var rs := SlideRowsOf(rows, supply);
      forall i :: 0 <= i < |rs| ==> |rs[i].row| == GridSize
    decreases |rows|
  {
    if rows != [] {
      var first := SlideRowOf(rows[0], supply);
      var rs := SlideRowsOf(rows, supply);
      assert rs[1..] == SlideRowsOf(rows[1..], first.supply);
      SlideRowsLengths(rows[1..], first.supply);
      assert forall i :: 0 < i < |rs| ==> rs[i] == rs[1..][i - 1];
    }
  }

  /** Sliding every row of a 4x4 board gives a 4x4 board. */
  lemma SlideRowsWellFormed(rows: Grid, supply: nat)
    requires WellFormed(rows)
    ensures WellFormed(RowsOf(SlideRowsOf(rows, supply)))
  {
    SlideRowsLengths(rows, supply);
  }

  /** `slideAndMerge`: rotate so the move becomes a left slide, slide every
      row, rotate back. */
  function SlideAndMergeOf(grid: Grid, direction: Direction, supply: nat): (out: Outcome)
    requires WellFormed(grid)
    ensures WellFormed(out.newGrid)
  {
    var turned := Rotate(grid, TurnBefore(direction));
    var rs := SlideRowsOf(turned, supply);
    SlideRowsWellFormed(turned, supply);
    Outcome(Rotate(RowsOf(rs), TurnAfter(direction)), TotalScore(rs), AllMergedIds(rs), SupplyAfter(rs, supply))
  }

  lemma SlideRowsFrom(rows: Grid, k: nat, supply: nat)
    requires k < |rows|
    ensures SlideRowsOf(rows[k..], supply) ==
      [SlideRowOf(rows[k], supply)] + SlideRowsOf(rows[k + 1..], SlideRowOf(rows[k], supply).supply)
  {
    assert rows[k..][1..] == rows[k + 1..];
  }

  lemma AppendAssoc<T>(a: seq<T>, b: seq<T>, c: seq<T>)
    ensures (a + b) + c == a + (b + c)
  {
  }

  /** `slideLeft` on the board: the rows in order, each through the row loop. */
  method SlideLeft(grid: Grid, supply: nat) returns (results: seq<RowResult>)
    ensures results == SlideRowsOf(grid, supply)
  {
    results := [];
    var next := supply;
    for r := 0 to |grid|
      invariant results + SlideRowsOf(grid[r..], next) == SlideRowsOf(grid, supply)
    {
      var res := SlideRow(grid[r], next);
      SlideRowsFrom(grid, r, next);
      AppendAssoc(results, [res], SlideRowsOf(grid[r + 1..], res.supply));
      results := results + [res];
      next := res.supply;
    }
    assert grid[|grid|..] == [];
    assert results + [] == results;
  }

  lemma {:induction false} TotalScoreSnoc(rs: seq<RowResult>, x: RowResult)
    ensures TotalScore(rs + [x]) == TotalScore(rs) + x.score
  {
    if rs != [] {
      assert (rs + [x])[1..] == rs[1..] + [x];
      TotalScoreSnoc(rs[1..], x);
    }
  }

  lemma {:induction false} AllMergedIdsSnoc(rs: seq<RowResult>, x: RowResult)
    ensures AllMergedIds(rs + [x]) == AllMergedIds(rs) + x.mergedIds
  {
    if rs != [] {
      assert (rs + [x])[1..] == rs[1..] + [x];
      AllMergedIdsSnoc(rs[1..], x);
    } else {
      assert AllMergedIds([x]) == x.mergedIds + AllMergedIds([]);
    }
  }

  /** The `reduce` over the row results: the sum of their scores. */
  method SumScores(result: seq<RowResult>) returns (totalScore: nat)
    ensures totalScore == TotalScore(result)
  {
    totalScore := 0;
    for i := 0 to |result|
      invariant totalScore == TotalScore(result[..i])
    {
      assert result[..i + 1] == result[..i] + [result[i]];
      TotalScoreSnoc(result[..i], result[i]);
      totalScore := totalScore + result[i].score;
    }
    assert result[..|result|] == result;
  }

  /** The `forEach` over the row results: the union of their merged ids. */
  method CollectMergedIds(result: seq<RowResult>) returns (allMergedIds: set<nat>)
    ensures allMergedIds == AllMergedIds(result)
  {
    allMergedIds := {};
    for i := 0 to |result|
      invariant allMergedIds == AllMergedIds(result[..i])
    {
      assert result[..i + 1] == result[..i] + [result[i]];
      AllMergedIdsSnoc(result[..i], result[i]);
      allMergedIds := allMergedIds + result[i].mergedIds;
    }
    assert result[..|result|] == result;
  }

  /** `slideAndMerge`: the rotation before, the left slide, the score sum
      and the union of the merged ids over the rows, the rotation after. */
  method SlideAndMerge(grid: Grid, direction: Direction, supply: nat) returns (out: Outcome)
    requires WellFormed(grid)
    ensures out == SlideAndMergeOf(grid, direction, supply)
  {
    var workingGrid := grid;
    if direction == Up {
      workingGrid := Rotate(workingGrid, 270);
    } else if direction == Down {
      workingGrid := Rotate(workingGrid, 90);
    } else if direction == Right {
      workingGrid := Rotate(workingGrid, 180);
    }
    assert workingGrid == Rotate(grid, TurnBefore(direction));
    var result := SlideLeft(workingGrid, supply);
    SlideRowsWellFormed(workingGrid, supply);
    workingGrid := RowsOf(result);
    var totalScore := SumScores(result);
    var allMergedIds := CollectMergedIds(result);
    if direction == Up {
      workingGrid := Rotate(workingGrid, 90);
    } else if direction == Down {
      workingGrid := Rotate(workingGrid, 270);
    } else if direction == Right {
      workingGrid := Rotate(workingGrid, 180);
    }
    assert workingGrid == Rotate(RowsOf(result), TurnAfter(direction));
    out := Outcome(workingGrid, totalScore, allMergedIds, SupplyAfter(result, supply));
  }

  // ---------------------------------------------------------------------
  // What a move does to the whole board
  // ---------------------------------------------------------------------

  /** The supply in force when row `i` is slid: the one the previous row
      left, or the initial one for the first row. */
  function SupplyBefore(rs: seq<RowResult>, supply: nat, i: nat): nat
    requires i <= |rs|
  {
    if i == 0 then supply else rs[i - 1].supply
  }

  lemma {:induction false} SupplyAfterGrows(rows: Grid, supply: nat)
    ensures supply <= SupplyAfter(SlideRowsOf(rows, supply), supply)
    decreases |rows|
  {
    if rows != [] {
      var first := SlideRowOf(rows[0], supply);
      var rs := SlideRowsOf(rows, supply);
      assert rs[1..] == SlideRowsOf(rows[1..], first.supply);
      SupplyAfterGrows(rows[1..], first.supply);
    }
  }

  /** Row `i` of the slid board is row `i` slid with the supply left by the
      rows before it. */
  lemma {:induction false} SlideRowsEach(rows: Grid, supply: nat, i: nat)
    requires i < |rows|
    ensures var rs := SlideRowsOf(rows, supply);
      rs[i] == SlideRowOf(rows[i], SupplyBefore(rs, supply, i))
    decreases i
  {
    if i > 0 {
      var first := SlideRowOf(rows[0], supply);
      var rs := SlideRowsOf(rows, supply);
      var rest := SlideRowsOf(rows[1..], first.supply);
      assert rs == [first] + rest;
      SlideRowsEach(rows[1..], first.supply, i - 1);
      assert rows[1..][i - 1] == rows[i];
      assert SupplyBefore(rest, first.supply, i - 1) == SupplyBefore(rs, supply, i);
    }
  }

  /** The supply only grows from row to row. */
  lemma {:induction false} SlideRowsSupply(rows: Grid, supply: nat, i: nat)
    requires i < |rows|
    ensures var rs := SlideRowsOf(rows, supply);
      supply <= SupplyBefore(rs, supply, i) <= rs[i].supply <= SupplyAfter(rs, supply)
    decreases i
  {
    var first := SlideRowOf(rows[0], supply);
    var rs := SlideRowsOf(rows, supply);
    var rest := SlideRowsOf(rows[1..], first.supply);
    assert rs == [first] + rest;
    assert rs[1..] == rest;
    SlideRowsEach(rows, supply, i);
    if i == 0 {
      SupplyAfterGrows(rows[1..], first.supply);
    } else {
      SlideRowsSupply(rows[1..], first.supply, i - 1);
      assert SupplyBefore(rest, first.supply, i - 1) == SupplyBefore(rs, supply, i);
    }
  }

  lemma {:induction false} SlideRowsTotals(rows: Grid, supply: nat)
    requires forall i :: 0 <= i < |rows| ==> |rows[i]| == GridSize
    ensures var rs := SlideRowsOf(rows, supply);
      GridTotal(RowsOf(rs), Value) == GridTotal(rows, Value) &&
      GridTotal(RowsOf(rs), MergedValue) == TotalScore(rs)
    decreases |rows|
  {
    if rows != [] {
      var first := SlideRowOf(rows[0], supply);
      var rs := SlideRowsOf(rows, supply);
      assert rs[1..] == SlideRowsOf(rows[1..], first.supply);
      assert RowsOf(rs)[1..] == RowsOf(rs[1..]);
      SlideRowTotals(rows[0], supply);
      SlideRowsTotals(rows[1..], first.supply);
    }
  }

  lemma {:induction false} AllMergedIdsMembers(rs: seq<RowResult>)
    ensures forall id :: id in AllMergedIds(rs) <==> exists i :: 0 <= i < |rs| && id in rs[i].mergedIds
  {
    if rs != [] {
      AllMergedIdsMembers(rs[1..]);
      assert forall i :: 0 < i < |rs| ==> rs[i] == rs[1..][i - 1];
      forall id | exists i :: 0 <= i < |rs| && id in rs[i].mergedIds
        ensures id in AllMergedIds(rs)
      {
        var i :| 0 <= i < |rs| && id in rs[i].mergedIds;
        if i > 0 {
          assert id in rs[1..][i - 1].mergedIds;
        }
      }
    }
  }

  /** A move keeps the sum of the tile values, and its score is the sum of
      the values of the tiles it created by merging. */
  lemma SlideAndMergeTotals(grid: Grid, direction: Direction, supply: nat)
    requires WellFormed(grid)
    ensures var out := SlideAndMergeOf(grid, direction, supply);
      GridTotal(out.newGrid, Value) == GridTotal(grid, Value) &&
      out.mergedScore == GridTotal(out.newGrid, MergedValue)
  {
    var turned := Rotate(grid, TurnBefore(direction));
    var rs := SlideRowsOf(turned, supply);
    SlideRowsWellFormed(turned, supply);
    SlideRowsTotals(turned, supply);
    RotateKeepsTotal(grid, TurnBefore(direction), Value);
    RotateKeepsTotal(RowsOf(rs), TurnAfter(direction), Value);
    RotateKeepsTotal(RowsOf(rs), TurnAfter(direction), MergedValue);
  }

  /** Every tile after a move was either created by a merge of this move (not
      marked new, with an id the move took from the supply) or is a tile of
      the board before the move with its merge flag cleared. */
  lemma SlideAndMergeOrigins(grid: Grid, direction: Direction, supply: nat)
    requires WellFormed(grid)
    ensures var out := SlideAndMergeOf(grid, direction, supply);
      supply <= out.supply &&
      forall p :: OnBoard(p) && out.newGrid[p.row][p.col].Full? ==>
        var t := out.newGrid[p.row][p.col].tile;
        if t.isMerged then !t.isNew && supply <= t.id < out.supply
        else exists q :: OnBoard(q) && grid[q.row][q.col].Full? && t == Settled(grid[q.row][q.col].tile)
  {
    var turned := Rotate(grid, TurnBefore(direction));
    var rs := SlideRowsOf(turned, supply);
    var slid := RowsOf(rs);
    var out := SlideAndMergeOf(grid, direction, supply);
    SlideRowsWellFormed(turned, supply);
    SupplyAfterGrows(turned, supply);
    forall p | OnBoard(p) && out.newGrid[p.row][p.col].Full?
      ensures var t := out.newGrid[p.row][p.col].tile;
        if t.isMerged then !t.isNew && supply <= t.id < out.supply
        else exists q :: OnBoard(q) && grid[q.row][q.col].Full? && t == Settled(grid[q.row][q.col].tile)
    {
      RotateAt(slid, TurnAfter(direction), p);
      var a := RotatedFrom(TurnAfter(direction), p);
      assert out.newGrid[p.row][p.col] == rs[a.row].row[a.col];
      SlideRowsEach(turned, supply, a.row);
      SlideRowsSupply(turned, supply, a.row);
      var start := SupplyBefore(rs, supply, a.row);
      SlideRowOrigins(turned[a.row], start);
      var t := out.newGrid[p.row][p.col].tile;
      if !t.isMerged {
        var c :| 0 <= c < GridSize && turned[a.row][c].Full? && t == Settled(turned[a.row][c].tile);
        RotateAt(grid, TurnBefore(direction), Pos(a.row, c));
      }
    }
  }

  /** Every tile before a move is still there with its merge flag cleared, or
      its id is reported as merged and a merged tile of twice its value is on
      the board; every reported id is the id of a tile of the board before. */
  lemma SlideAndMergeConsumes(grid: Grid, direction: Direction, supply: nat)
    requires WellFormed(grid)
    ensures var out := SlideAndMergeOf(grid, direction, supply);
      forall q :: OnBoard(q) && grid[q.row][q.col].Full? ==>
        (exists p :: OnBoard(p) && out.newGrid[p.row][p.col] == Full(Settled(grid[q.row][q.col].tile))) ||
        (grid[q.row][q.col].tile.id in out.mergedTileIds &&
         exists p :: OnBoard(p) && out.newGrid[p.row][p.col].Full? && out.newGrid[p.row][p.col].tile.isMerged &&
           out.newGrid[p.row][p.col].tile.value == 2 * grid[q.row][q.col].tile.value)
    ensures var out := SlideAndMergeOf(grid, direction, supply);
      forall id :: id in out.mergedTileIds ==>
        exists q :: OnBoard(q) && grid[q.row][q.col].Full? && grid[q.row][q.col].tile.id == id
  {
    var turned := Rotate(grid, TurnBefore(direction));
    var rs := SlideRowsOf(turned, supply);
    var slid := RowsOf(rs);
    var out := SlideAndMergeOf(grid, direction, supply);
    SlideRowsWellFormed(turned, supply);
    AllMergedIdsMembers(rs);
    forall q | OnBoard(q) && grid[q.row][q.col].Full?
      ensures (exists p :: OnBoard(p) && out.newGrid[p.row][p.col] == Full(Settled(grid[q.row][q.col].tile))) ||
        (grid[q.row][q.col].tile.id in out.mergedTileIds &&
         exists p :: OnBoard(p) && out.newGrid[p.row][p.col].Full? && out.newGrid[p.row][p.col].tile.isMerged &&
           out.newGrid[p.row][p.col].tile.value == 2 * grid[q.row][q.col].tile.value)
    {
      RotateTo(grid, TurnBefore(direction), q);
      var a := RotatedTo(TurnBefore(direction), q);
      assert turned[a.row][a.col] == grid[q.row][q.col];
      SlideRowsEach(turned, supply, a.row);
      var start := SupplyBefore(rs, supply, a.row);
      SlideRowConsumes(turned[a.row], start);
      var r := rs[a.row];
      var u := grid[q.row][q.col].tile;
      if Full(Settled(u)) in r.row {
        var i :| 0 <= i < |r.row| && r.row[i] == Full(Settled(u));
        RotateTo(slid, TurnAfter(direction), Pos(a.row, i));
      } else {
        var i :| 0 <= i < GridSize && r.row[i].Full? && r.row[i].tile.isMerged && r.row[i].tile.value == 2 * u.value;
        RotateTo(slid, TurnAfter(direction), Pos(a.row, i));
      }
    }
    forall id | id in out.mergedTileIds
      ensures exists q :: OnBoard(q) && grid[q.row][q.col].Full? && grid[q.row][q.col].tile.id == id
    {
      var i :| 0 <= i < |rs| && id in rs[i].mergedIds;
      SlideRowsEach(turned, supply, i);
      SlideRowMergedIds(turned[i], SupplyBefore(rs, supply, i));
      var c :| 0 <= c < GridSize && turned[i][c].Full? && turned[i][c].tile.id == id;
      RotateAt(grid, TurnBefore(direction), Pos(i, c));
    }
  }

  lemma RowOfUnique(g: Grid, i: nat)
    requires WellFormed(g) && UniqueIds(g) && i < GridSize
    ensures RowUniqueIds(g[i])
  {
    forall a, b | 0 <= a < b < GridSize && g[i][a].Full? && g[i][b].Full?
      ensures g[i][a].tile.id != g[i][b].tile.id
    {
      assert OnBoard(Pos(i, a)) && OnBoard(Pos(i, b));
    }
  }

  /** On a board with unique ids, rows share no recorded id: a tile's id is
      collected by the move exactly when its own row recorded it. */
  lemma CollectedFromOwnRow(turned: Grid, supply: nat, i: nat, c: nat)
    requires WellFormed(turned) && UniqueIds(turned) && i < GridSize && c < GridSize && turned[i][c].Full?
    ensures var rs := SlideRowsOf(turned, supply);
      |rs| == GridSize &&
      (turned[i][c].tile.id in AllMergedIds(rs) <==> turned[i][c].tile.id in rs[i].mergedIds)
  {
    var rs := SlideRowsOf(turned, supply);
    SlideRowsWellFormed(turned, supply);
    assert |RowsOf(rs)| == |rs|;
    AllMergedIdsMembers(rs);
    var id := turned[i][c].tile.id;
    forall j | 0 <= j < |rs| && id in rs[j].mergedIds
      ensures j == i
    {
      SlideRowsEach(turned, supply, j);
      SlideRowMergedIds(turned[j], SupplyBefore(rs, supply, j));
      var c2 :| 0 <= c2 < GridSize && turned[j][c2].Full? && turned[j][c2].tile.id == id;
      assert OnBoard(Pos(j, c2)) && OnBoard(Pos(i, c));
    }
  }

  /** With unique ids, a tile's id is reported as merged exactly when the
      tile, with its merge flag cleared, is nowhere on the board after the
      move. */
  lemma SlideAndMergeRecorded(grid: Grid, direction: Direction, supply: nat)
    requires WellFormed(grid) && UniqueIds(grid)
    ensures var out := SlideAndMergeOf(grid, direction, supply);
      forall q :: OnBoard(q) && grid[q.row][q.col].Full? ==>
        (grid[q.row][q.col].tile.id in out.mergedTileIds <==>
         forall p :: OnBoard(p) ==> out.newGrid[p.row][p.col] != Full(Settled(grid[q.row][q.col].tile)))
  {
    var out := SlideAndMergeOf(grid, direction, supply);
    SlideAndMergeConsumes(grid, direction, supply);
    forall q | OnBoard(q) && grid[q.row][q.col].Full? && grid[q.row][q.col].tile.id in out.mergedTileIds
      ensures forall p :: OnBoard(p) ==> out.newGrid[p.row][p.col] != Full(Settled(grid[q.row][q.col].tile))
    {
      RecordedGone(grid, direction, supply, q);
    }
  }

  lemma RecordedGone(grid: Grid, direction: Direction, supply: nat, q: Pos)
    requires WellFormed(grid) && UniqueIds(grid) && OnBoard(q) && grid[q.row][q.col].Full?
    requires grid[q.row][q.col].tile.id in SlideAndMergeOf(grid, direction, supply).mergedTileIds
    ensures forall p :: OnBoard(p) ==>
      SlideAndMergeOf(grid, direction, supply).newGrid[p.row][p.col] != Full(Settled(grid[q.row][q.col].tile))
  {
    var turned := Rotate(grid, TurnBefore(direction));
    var rs := SlideRowsOf(turned, supply);
    var slid := RowsOf(rs);
    var out := SlideAndMergeOf(grid, direction, supply);
    SlideRowsWellFormed(turned, supply);
    RotateKeepsUniqueIds(grid, TurnBefore(direction));
    RotateTo(grid, TurnBefore(direction), q);
    var a := RotatedTo(TurnBefore(direction), q);
    var u := grid[q.row][q.col].tile;
    assert turned[a.row][a.col] == Full(u);
    CollectedFromOwnRow(turned, supply, a.row, a.col);
    SlideRowsEach(turned, supply, a.row);
    RowOfUnique(turned, a.row);
    SlideRowKept(turned[a.row], SupplyBefore(rs, supply, a.row));
    assert Full(Settled(u)) !in rs[a.row].row;
    forall p | OnBoard(p)
      ensures out.newGrid[p.row][p.col] != Full(Settled(u))
    {
      RotateAt(slid, TurnAfter(direction), p);
      var b := RotatedFrom(TurnAfter(direction), p);
      assert out.newGrid[p.row][p.col] == rs[b.row].row[b.col];
      if b.row == a.row {
        assert rs[b.row].row[b.col] in rs[a.row].row;
      } else if out.newGrid[p.row][p.col].Full? && !out.newGrid[p.row][p.col].tile.isMerged {
        SlideRowsEach(turned, supply, b.row);
        SlideRowOrigins(turned[b.row], SupplyBefore(rs, supply, b.row));
        var c :| 0 <= c < GridSize && turned[b.row][c].Full? &&
          out.newGrid[p.row][p.col].tile == Settled(turned[b.row][c].tile);
        assert OnBoard(Pos(b.row, c)) && Pos(b.row, c) != a;
      }
    }
  }

  /** Ids stay unique-by-construction: a board whose ids were all issued by
      the supply keeps that property after a move. */
  lemma SlideAndMergeKeepsIdsBelow(grid: Grid, direction: Direction, supply: nat)
    requires WellFormed(grid) && IdsBelow(grid, supply)
    ensures var out := SlideAndMergeOf(grid, direction, supply);
      IdsBelow(out.newGrid, out.supply)
  {
    var out := SlideAndMergeOf(grid, direction, supply);
    SlideAndMergeOrigins(grid, direction, supply);
    forall r, c | 0 <= r < GridSize && 0 <= c < GridSize && out.newGrid[r][c].Full?
      ensures out.newGrid[r][c].tile.id < out.supply
    {
      assert OnBoard(Pos(r, c));
    }
  }

  /** A winning tile is never lost by a move: it stays or is merged into a
      larger one. */
  lemma SlideAndMergeKeepsWin(grid: Grid, direction: Direction, supply: nat)
    requires WellFormed(grid) && HasWinningTile(grid)
    ensures HasWinningTile(SlideAndMergeOf(grid, direction, supply).newGrid)
  {
    var out := SlideAndMergeOf(grid, direction, supply);
    var r, c :| 0 <= r < |grid| && 0 <= c < |grid[r]| && grid[r][c].Full? && grid[r][c].tile.value >= WinTileValue;
    SlideAndMergeConsumes(grid, direction, supply);
    assert OnBoard(Pos(r, c));
    if exists p :: OnBoard(p) && out.newGrid[p.row][p.col] == Full(Settled(grid[r][c].tile)) {
      var p :| OnBoard(p) && out.newGrid[p.row][p.col] == Full(Settled(grid[r][c].tile));
      assert out.newGrid[p.row][p.col].tile.value >= WinTileValue;
    } else {
      var p :| OnBoard(p) && out.newGrid[p.row][p.col].Full? && out.newGrid[p.row][p.col].tile.isMerged &&
        out.newGrid[p.row][p.col].tile.value == 2 * grid[r][c].tile.value;
      assert out.newGrid[p.row][p.col].tile.value >= WinTileValue;
    }
  }

  // ---------------------------------------------------------------------
  // Lines: what each direction means
  // ---------------------------------------------------------------------

  /** Line `k` as seen by a move in `direction`, from the edge the tiles move
      towards: rows from the left or from the right, columns from the top or
      from the bottom. */
  function Line(g: Grid, direction: Direction, k: nat): (line: seq<Cell>)
    requires WellFormed(g) && k < GridSize
    ensures |line| == GridSize
  {
    match direction
    case Left => g[k]
    case Right => seq(GridSize, j requires 0 <= j < GridSize => g[k][GridSize - 1 - j])
    case Up => seq(GridSize, j requires 0 <= j < GridSize => g[j][k])
    case Down => seq(GridSize, j requires 0 <= j < GridSize => g[GridSize - 1 - j][k])
  }

  /** The row of the turned board that holds line `k`. */
  function LineRow(direction: Direction, k: nat): nat
    requires k < GridSize
  {
    match direction
    case Left => k
    case Down => k
    case Right => GridSize - 1 - k
    case Up => GridSize - 1 - k
  }

  lemma TurnedRowIsLine(g: Grid, direction: Direction, k: nat)
    requires WellFormed(g) && k < GridSize
    ensures LineRow(direction, k) < GridSize
    ensures Rotate(g, TurnBefore(direction))[LineRow(direction, k)] == Line(g, direction, k)
  {
  }

  /** The rotation after the slide undoes the one before it. */
  lemma TurnsUndo(g: Grid, direction: Direction)
    requires WellFormed(g)
    ensures Rotate(Rotate(g, TurnAfter(direction)), TurnBefore(direction)) == g
  {
    RotationRoundTrips(g);
  }

  /** Line `k` of the board after a move is line `k` before the move, slid
      towards the edge of the move by the row rule. */
  lemma SlideAndMergeLine(grid: Grid, direction: Direction, supply: nat, k: nat)
    requires WellFormed(grid) && k < GridSize
    ensures var out := SlideAndMergeOf(grid, direction, supply);
      exists start: nat :: supply <= start <= out.supply &&
        Line(out.newGrid, direction, k) == SlideRowOf(Line(grid, direction, k), start).row
  {
    var turned := Rotate(grid, TurnBefore(direction));
    var rs := SlideRowsOf(turned, supply);
    var out := SlideAndMergeOf(grid, direction, supply);
    SlideRowsWellFormed(turned, supply);
    TurnsUndo(RowsOf(rs), direction);
    var i := LineRow(direction, k);
    TurnedRowIsLine(grid, direction, k);
    TurnedRowIsLine(out.newGrid, direction, k);
    SlideRowsEach(turned, supply, i);
    SlideRowsSupply(turned, supply, i);
    var start := SupplyBefore(rs, supply, i);
    assert Line(out.newGrid, direction, k) == SlideRowOf(Line(grid, direction, k), start).row;
  }

  /** On values, every line obeys the reference rule: after a move each line
      is packed towards the edge of the move, and its values are those of the
      line before the move merged pairwise from that edge. */
  lemma SlideAndMergeLineValues(grid: Grid, direction: Direction, supply: nat)
    requires WellFormed(grid)
    ensures var out := SlideAndMergeOf(grid, direction, supply);
      forall k :: 0 <= k < GridSize ==>
        Packed(Line(out.newGrid, direction, k)) &&
        Values(Compact(Line(out.newGrid, direction, k))) == MergeValues(Values(Compact(Line(grid, direction, k))))
    ensures var out := SlideAndMergeOf(grid, direction, supply);
      forall k, i :: 0 <= k < GridSize && 0 <= i < GridSize ==>
        var fs := MergeFlags(Values(Compact(Line(grid, direction, k))));
        if i < |fs| then Line(out.newGrid, direction, k)[i].Full? &&
          Line(out.newGrid, direction, k)[i].tile.isMerged == fs[i]
        else Line(out.newGrid, direction, k)[i].Empty?
  {
    var out := SlideAndMergeOf(grid, direction, supply);
    forall k | 0 <= k < GridSize
      ensures Packed(Line(out.newGrid, direction, k)) &&
        Values(Compact(Line(out.newGrid, direction, k))) == MergeValues(Values(Compact(Line(grid, direction, k))))
      ensures forall i :: 0 <= i < GridSize ==>
        var fs := MergeFlags(Values(Compact(Line(grid, direction, k))));
        if i < |fs| then Line(out.newGrid, direction, k)[i].Full? &&
          Line(out.newGrid, direction, k)[i].tile.isMerged == fs[i]
        else Line(out.newGrid, direction, k)[i].Empty?
    {
      SlideAndMergeLine(grid, direction, supply, k);
      var start: nat :| supply <= start <= out.supply &&
        Line(out.newGrid, direction, k) == SlideRowOf(Line(grid, direction, k), start).row;
      SlideRowValues(Line(grid, direction, k), start);
    }
  }

  /** With unique ids, the tiles of line `k` that no merge created are, in
      order, the tiles of line `k` before the move whose ids the move did not
      report, each with its merge flag cleared. */
  lemma SlideAndMergeLineKept(grid: Grid, direction: Direction, supply: nat, k: nat)
    requires WellFormed(grid) && UniqueIds(grid) && k < GridSize
    ensures var out := SlideAndMergeOf(grid, direction, supply);
      Unmerged(Compact(Line(out.newGrid, direction, k))) ==
        Kept(Compact(Line(grid, direction, k)), out.mergedTileIds)
  {
    var turned := Rotate(grid, TurnBefore(direction));
    var rs := SlideRowsOf(turned, supply);
    var out := SlideAndMergeOf(grid, direction, supply);
    SlideRowsWellFormed(turned, supply);
    TurnsUndo(RowsOf(rs), direction);
    var i := LineRow(direction, k);
    TurnedRowIsLine(grid, direction, k);
    TurnedRowIsLine(out.newGrid, direction, k);
    SlideRowsEach(turned, supply, i);
    assert Line(out.newGrid, direction, k) == rs[i].row;
    RotateKeepsUniqueIds(grid, TurnBefore(direction));
    RowOfUnique(turned, i);
    SlideRowKept(turned[i], SupplyBefore(rs, supply, i));
    var ts := Compact(turned[i]);
    CompactMembers(turned[i]);
    forall j | 0 <= j < |ts|
      ensures ts[j].id in rs[i].mergedIds <==> ts[j].id in out.mergedTileIds
    {
      assert ts[j] in ts;
      var c :| 0 <= c < |turned[i]| && turned[i][c] == Full(ts[j]);
      CollectedFromOwnRow(turned, supply, i, c);
    }
    KeptSame(ts, rs[i].mergedIds, out.mergedTileIds);
  }
}
