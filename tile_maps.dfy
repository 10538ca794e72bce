/** The tile map: `height` rows of `width` cells, addressed by row and column,
    and the measures the generator computes over it. */
module TileMaps {
  import opened Wrappers
  import opened Tiles

  type TileMap = seq<seq<Tile>>

  /** A (row, column) pair, as `std::pair<int, int>` in the queue entries. */
  datatype Position = Pos(row: nat, col: nat)

  /** What the generator can throw: `std::exception` when no cell can be
      collapsed, `std::out_of_range` from `at()` on a missing rule. */
  datatype GeneratorError = NoCellToCollapse | OutOfRange

  predicate InBounds(cells: TileMap, p: Position) {
    p.row < |cells| && p.col < |cells[p.row]|
  }

  function Cell(cells: TileMap, p: Position): Tile
    requires InBounds(cells, p)
  {
    cells[p.row][p.col]
  }

  /** The grid with the tile at `p` replaced; every other cell is unchanged. */
  function SetCell(cells: TileMap, p: Position, t: Tile): (r: TileMap)
    requires InBounds(cells, p)
    ensures SameShape(r, cells)
    ensures forall q :: InBounds(r, q) <==> InBounds(cells, q)
    ensures Rectangular(cells) ==> Rectangular(r)
    ensures Cell(r, p) == t
    ensures forall i, j :: 0 <= i < |cells| && 0 <= j < |cells[i]| && Pos(i, j) != p ==> r[i][j] == cells[i][j]
  {
    cells[p.row := cells[p.row][p.col := t]]
  }

  /** Every row has as many cells as the first. */
  ghost predicate Rectangular(cells: TileMap) {
    forall i :: 0 <= i < |cells| ==> |cells[i]| == |cells[0]|
  }

  ghost predicate SameShape(a: TileMap, b: TileMap) {
    |a| == |b| && forall i :: 0 <= i < |a| ==> |a[i]| == |b[i]|
  }

  /** Every domain holds only names of the tile set. */
  ghost predicate Within(cells: TileMap, names: set<TileName>) {
    forall i, j :: 0 <= i < |cells| && 0 <= j < |cells[i]| ==> cells[i][j].domain <= names
  }

  /** `after` has the shape of `before` and no cell gained a name. */
  ghost predicate Shrunk(after: TileMap, before: TileMap) {
    SameShape(after, before) &&
    forall i, j :: 0 <= i < |before| && 0 <= j < |before[i]| ==> after[i][j].domain <= before[i][j].domain
  }

  /** A grid that only lost names keeps every shape and containment fact. */
  lemma ShrunkKeeps(after: TileMap, before: TileMap, names: set<TileName>)
    requires Shrunk(after, before)
    ensures Rectangular(before) ==> Rectangular(after)
    ensures Within(before, names) ==> Within(after, names)
    ensures forall q :: InBounds(after, q) <==> InBounds(before, q)
  {
  }

  lemma ShrunkTransitive(a: TileMap, b: TileMap, c: TileMap)
    requires Shrunk(a, b) && Shrunk(b, c)
    ensures Shrunk(a, c)
  {
  }

  /** `height` rows of `width` tiles, each with every name as its domain. */
  function FullGrid(width: nat, height: nat, names: set<TileName>): (r: TileMap)
    ensures |r| == height
    ensures forall i :: 0 <= i < height ==> |r[i]| == width
    ensures forall i, j :: 0 <= i < height && 0 <= j < width ==> r[i][j].domain == names
  {
    var tile := Tile(names);
    seq(height, _ => seq(width, _ => tile))
  }

  lemma FullGridValid(width: nat, height: nat, names: set<TileName>)
    ensures Rectangular(FullGrid(width, height, names))
    ensures Within(FullGrid(width, height, names), names)
  {
  }

  // ---------------------------------------------------------------------
  // Total domain size: the measure that propagation strictly decreases.

  function RowSize(row: seq<Tile>): nat {
    if row == [] then 0 else RowSize(row[..|row| - 1]) + |row[|row| - 1].domain|
  }

  function TotalSize(cells: TileMap): nat {
    if cells == [] then 0 else TotalSize(cells[..|cells| - 1]) + RowSize(cells[|cells| - 1])
  }

  lemma {:induction false} RowSizeUpdate(row: seq<Tile>, j: nat, t: Tile)
    requires j < |row|
    ensures RowSize(row[j := t]) + |row[j].domain| == RowSize(row) + |t.domain|
    decreases |row|
  {
    var n := |row|;
    if j == n - 1 {
      assert row[j := t][..n - 1] == row[..n - 1];
    } else {
      assert row[j := t][..n - 1] == row[..n - 1][j := t];
      RowSizeUpdate(row[..n - 1], j, t);
    }
  }

  /** Replacing one tile changes the total by the difference of the two domain sizes. */
  lemma {:induction false} TotalSizeSetCell(cells: TileMap, p: Position, t: Tile)
    requires InBounds(cells, p)
    ensures TotalSize(SetCell(cells, p, t)) + |Cell(cells, p).domain| == TotalSize(cells) + |t.domain|
    decreases |cells|
  {
    var n := |cells|;
    var r := SetCell(cells, p, t);
    if p.row == n - 1 {
      assert r[..n - 1] == cells[..n - 1];
      RowSizeUpdate(cells[n - 1], p.col, t);
    } else {
      assert r[..n - 1] == SetCell(cells[..n - 1], p, t);
      TotalSizeSetCell(cells[..n - 1], p, t);
    }
  }

  lemma {:induction false} SubsetSize<T>(a: set<T>, b: set<T>)
    requires a <= b
    ensures |a| <= |b|
    decreases b
  {
    if a != {} {
      var x :| x in a;
      SubsetSize(a - {x}, b - {x});
    }
  }

  lemma {:induction false} RowSizeShrunk(after: seq<Tile>, before: seq<Tile>)
    requires |after| == |before|
    requires forall j :: 0 <= j < |before| ==> after[j].domain <= before[j].domain
    ensures RowSize(after) <= RowSize(before)
    decreases |before|
  {
    var n := |before|;
    if n > 0 {
      RowSizeShrunk(after[..n - 1], before[..n - 1]);
      SubsetSize(after[n - 1].domain, before[n - 1].domain);
    }
  }

  /** A grid in which no domain grew has no larger total size. */
  lemma {:induction false} TotalSizeShrunk(after: TileMap, before: TileMap)
    requires Shrunk(after, before)
    ensures TotalSize(after) <= TotalSize(before)
    decreases |before|
  {
    var n := |before|;
    if n > 0 {
      TotalSizeShrunk(after[..n - 1], before[..n - 1]);
      RowSizeShrunk(after[n - 1], before[n - 1]);
    }
  }

  // ---------------------------------------------------------------------
  // count_remaining_cells

  /** The number of tiles of a row that are not collapsed (size 0 included). */
  function RowUndetermined(row: seq<Tile>): nat {
    if row == [] then 0
    else RowUndetermined(row[..|row| - 1]) + (if row[|row| - 1].IsCollapsed() then 0 else 1)
  }

  function Undetermined(cells: TileMap): nat {
    if cells == [] then 0 else Undetermined(cells[..|cells| - 1]) + RowUndetermined(cells[|cells| - 1])
  }

  predicate HasEmptyCell(cells: TileMap) {
    exists i, j :: 0 <= i < |cells| && 0 <= j < |cells[i]| && cells[i][j].IsDomainEmpty()
  }

  predicate AllCollapsed(cells: TileMap) {
    forall i, j :: 0 <= i < |cells| && 0 <= j < |cells[i]| ==> cells[i][j].IsCollapsed()
  }

  /** What `count_remaining_cells` returns: 0 once some domain is empty,
      otherwise the number of cells not yet collapsed. */
  function RemainingCells(cells: TileMap): nat {
    if HasEmptyCell(cells) then 0 else Undetermined(cells)
  }

  function Width(cells: TileMap): nat {
    if cells == [] then 0 else |cells[0]|
  }

  lemma {:induction false} RowUndeterminedBound(row: seq<Tile>)
    ensures RowUndetermined(row) <= |row|
    decreases |row|
  {
    if row != [] {
      RowUndeterminedBound(row[..|row| - 1]);
    }
  }

  lemma {:induction false} UndeterminedBound(cells: TileMap, w: nat)
    requires forall i :: 0 <= i < |cells| ==> |cells[i]| == w
    ensures Undetermined(cells) <= |cells| * w
    decreases |cells|
  {
    var n := |cells|;
    if n > 0 {
      UndeterminedBound(cells[..n - 1], w);
      RowUndeterminedBound(cells[n - 1]);
      assert (n - 1) * w + w == n * w;
    }
  }

  /** The count never exceeds rows * columns. */
  lemma RemainingCellsBound(cells: TileMap)
    requires Rectangular(cells)
    ensures RemainingCells(cells) <= |cells| * Width(cells)
  {
    UndeterminedBound(cells, Width(cells));
  }

  lemma {:induction false} RowUndeterminedZero(row: seq<Tile>)
    ensures RowUndetermined(row) == 0 <==> forall j :: 0 <= j < |row| ==> row[j].IsCollapsed()
    decreases |row|
  {
    var n := |row|;
    if n > 0 {
      RowUndeterminedZero(row[..n - 1]);
      assert forall j :: 0 <= j < n - 1 ==> row[..n - 1][j] == row[j];
    }
  }

  lemma {:induction false} UndeterminedZero(cells: TileMap)
    ensures Undetermined(cells) == 0 <==> AllCollapsed(cells)
    decreases |cells|
  {
    var n := |cells|;
    if n > 0 {
      UndeterminedZero(cells[..n - 1]);
      RowUndeterminedZero(cells[n - 1]);
      assert forall i :: 0 <= i < n - 1 ==> cells[..n - 1][i] == cells[i];
    }
  }

  /** The count is zero exactly when generation is over: some domain is empty
      (a contradiction) or every cell is collapsed (complete). */
  lemma RemainingCellsZero(cells: TileMap)
    ensures RemainingCells(cells) == 0 <==> HasEmptyCell(cells) || AllCollapsed(cells)
  {
    UndeterminedZero(cells);
  }

  // ---------------------------------------------------------------------
  // get_next_index_to_collapse

  /** A cell the scan may select: more than one name, at most `limit`. */
  predicate Candidate(t: Tile, limit: nat) {
    1 < |t.domain| <= limit
  }

  /** Row-major order of the scan. */
  predicate Before(p: Position, q: Position) {
    p.row < q.row || (p.row == q.row && p.col < q.col)
  }

  predicate NoCandidate(cells: TileMap, limit: nat) {
    forall i, j :: 0 <= i < |cells| && 0 <= j < |cells[i]| ==> !Candidate(cells[i][j], limit)
  }

  /** `p` is a candidate of minimum domain size and the last such one in
      row-major order. */
  predicate IsNextToCollapse(cells: TileMap, limit: nat, p: Position) {
    InBounds(cells, p) && Candidate(Cell(cells, p), limit) &&
    (forall i, j :: 0 <= i < |cells| && 0 <= j < |cells[i]| && Candidate(cells[i][j], limit) ==>
      |Cell(cells, p).domain| <= |cells[i][j].domain|) &&
    (forall i, j :: 0 <= i < |cells| && 0 <= j < |cells[i]| && Candidate(cells[i][j], limit) && Before(p, Pos(i, j)) ==>
      |Cell(cells, p).domain| < |cells[i][j].domain|)
  }

  /** The cells before (i, j) in row-major order have been scanned: `r` is
      the selected cell so far and `minimal` its size (or the limit). */
  ghost predicate ScanState(cells: TileMap, limit: nat, r: Option<Position>, minimal: nat, i: nat, j: nat) {
    && minimal <= limit
    && (r.None? ==>
          && minimal == limit
          && forall a, b :: 0 <= a < |cells| && 0 <= b < |cells[a]| && Scanned(a, b, i, j) ==> !Candidate(cells[a][b], limit))
    && (r.Some? ==>
          && InBounds(cells, r.value) && Scanned(r.value.row, r.value.col, i, j)
          && Candidate(Cell(cells, r.value), limit) && |Cell(cells, r.value).domain| == minimal)
    && (forall a, b :: 0 <= a < |cells| && 0 <= b < |cells[a]| && Scanned(a, b, i, j) && Candidate(cells[a][b], limit) ==>
          minimal <= |cells[a][b].domain|)
    && (r.Some? ==>
          forall a, b ::
            (0 <= a < |cells| && 0 <= b < |cells[a]| && Scanned(a, b, i, j) && Candidate(cells[a][b], limit) && Before(r.value, Pos(a, b)))
            ==> minimal < |cells[a][b].domain|)
  }

  /** Once every row is scanned, the selection is the one the scan promises. */
  lemma ScanComplete(cells: TileMap, limit: nat, r: Option<Position>, minimal: nat)
    requires ScanState(cells, limit, r, minimal, |cells|, 0)
    ensures r.None? <==> NoCandidate(cells, limit)
    ensures r.Some? ==> IsNextToCollapse(cells, limit, r.value)
  {
  }

  /** (a, b) comes before (i, j) in row-major order. */
  ghost predicate Scanned(a: nat, b: nat, i: nat, j: nat) {
    a < i || (a == i && b < j)
  }

  /** The choice is determined: ties go to the last candidate scanned. */
  lemma NextToCollapseUnique(cells: TileMap, limit: nat, p: Position, q: Position)
    requires IsNextToCollapse(cells, limit, p) && IsNextToCollapse(cells, limit, q)
    ensures p == q
  {
    assert |Cell(cells, p).domain| <= |Cell(cells, q).domain| <= |Cell(cells, p).domain|;
  }

  /** While cells remain and every domain holds names of the tile set, the scan
      finds a candidate: the throw of `get_next_index_to_collapse` cannot happen. */
  lemma CandidateExists(cells: TileMap, names: set<TileName>)
    requires Within(cells, names)
    requires RemainingCells(cells) > 0
    ensures !NoCandidate(cells, |names|)
  {
    UndeterminedZero(cells);
    var i, j :| 0 <= i < |cells| && 0 <= j < |cells[i]| && !cells[i][j].IsCollapsed();
    assert !cells[i][j].IsDomainEmpty();
    SubsetSize(cells[i][j].domain, names);
    assert Candidate(cells[i][j], |names|);
  }

  // ---------------------------------------------------------------------
  // The queue seed of recalculate_constraints: collapsed cells, row-major.

  function CollapsedInRow(row: seq<Tile>, i: nat): seq<Position> {
    if row == [] then []
    else CollapsedInRow(row[..|row| - 1], i) + (if row[|row| - 1].IsCollapsed() then [Pos(i, |row| - 1)] else [])
  }

  function CollapsedCells(cells: TileMap): seq<Position> {
    if cells == [] then []
    else CollapsedCells(cells[..|cells| - 1]) + CollapsedInRow(cells[|cells| - 1], |cells| - 1)
  }

  lemma {:induction false} CollapsedInRowMembers(row: seq<Tile>, i: nat, q: Position)
    ensures q in CollapsedInRow(row, i) <==> q.row == i && q.col < |row| && row[q.col].IsCollapsed()
    decreases |row|
  {
    var n := |row|;
    if n > 0 {
      CollapsedInRowMembers(row[..n - 1], i, q);
    }
  }

  /** The seed holds exactly the collapsed cells. */
  lemma {:induction false} CollapsedCellsMembers(cells: TileMap, q: Position)
    ensures q in CollapsedCells(cells) <==> InBounds(cells, q) && Cell(cells, q).IsCollapsed()
    decreases |cells|
  {
    var n := |cells|;
    if n > 0 {
      CollapsedCellsMembers(cells[..n - 1], q);
      CollapsedInRowMembers(cells[n - 1], n - 1, q);
    }
  }
}
