/** The Wave Function Collapse solver of `src/TileMapGenerator.cpp`: it keeps
    the tile map in a member, as the header declares it, and drives it from
    "every name everywhere" until every cell is collapsed or some domain is
    empty. */
module Generator {
  import opened Wrappers
  import opened Tiles
  import opened TileSets
  import opened TileMaps
  import opened Propagation

  class TileMapGenerator {
    /** The names of the tile set (the keys of its image map). */
    const allTileNames: set<TileName>
    /** The tile set's adjacency rules, read only. */
    const rules: AdjacencyRules
    /** `m_tile_map`: rows of cells. */
    var tileMap: TileMap

    ghost predicate Valid()
      reads this
    {
      Rectangular(tileMap) && Within(tileMap, allTileNames)
    }

    constructor (tileNames: set<TileName>, adjacency: AdjacencyRules)
      ensures Valid()
      ensures allTileNames == tileNames && rules == adjacency && tileMap == []
    {
      allTileNames := tileNames;
      rules := adjacency;
      tileMap := [];
    }

    /** Runs steps until no cell remains; the map then is complete or holds an
        empty domain, unless a missing rule threw out of range. `trace` is
        the sequence of grids the steps went through. */
    method GenerateTileMap(width: nat, height: nat) returns (outcome: Outcome<GeneratorError>, ghost trace: seq<TileMap>)
      modifies this
      ensures Valid()
      ensures Shrunk(tileMap, FullGrid(width, height, allTileNames))
      ensures outcome.Pass? ==> RemainingCells(tileMap) == 0
      ensures outcome.Fail? ==> outcome.error == OutOfRange
      ensures Generation(rules, |allTileNames|, trace, outcome)
      ensures trace[0] == FullGrid(width, height, allTileNames) && trace[|trace| - 1] == tileMap
      ensures RemainingCells(FullGrid(width, height, allTileNames)) == 0 ==>
        tileMap == FullGrid(width, height, allTileNames) && outcome == Pass
    {
      InitTileMap(width, height);
      ghost var initial := tileMap;
      trace := [initial];
      outcome := Pass;
      var cellsLeft := width * height;
      while cellsLeft > 0
        invariant Valid() && Shrunk(tileMap, initial) && outcome == Pass
        invariant cellsLeft == RemainingCells(tileMap) || (tileMap == initial && cellsLeft == width * height)
        invariant Generation(rules, |allTileNames|, trace, Pass)
        invariant trace[0] == initial && trace[|trace| - 1] == tileMap
        invariant RemainingCells(initial) == 0 ==> tileMap == initial
        decreases TotalSize(tileMap) + (if cellsLeft > 0 then 1 else 0)
      {
        ghost var before := tileMap;
        outcome := GenerateSingleStep();
        ShrunkTransitive(tileMap, before, initial);
        if RemainingCells(before) > 0 {
          GenerationExtend(rules, |allTileNames|, trace, tileMap, outcome);
          trace := trace + [tileMap];
        }
        if outcome.Fail? {
          return;
        }
        cellsLeft := CountRemainingCells();
      }
      RemainingCellsBound(initial);
    }

    /** Every cell gets the full name set. */
    method InitTileMap(width: nat, height: nat)
      modifies this
      ensures Valid()
      ensures tileMap == FullGrid(width, height, allTileNames)
    {
      tileMap := FullGrid(width, height, allTileNames);
      FullGridValid(width, height, allTileNames);
    }

    /** One collapse and propagation, or nothing once no cell remains. */
    method GenerateSingleStep() returns (outcome: Outcome<GeneratorError>)
      requires Valid()
      modifies this
      ensures Valid() && Shrunk(tileMap, old(tileMap))
      ensures RemainingCells(old(tileMap)) == 0 ==> tileMap == old(tileMap) && outcome == Pass
      ensures RemainingCells(old(tileMap)) > 0 ==> TotalSize(tileMap) < TotalSize(old(tileMap))
      ensures RemainingCells(old(tileMap)) > 0 ==> CollapseStep(rules, |allTileNames|, old(tileMap), tileMap, outcome)
      ensures outcome.Fail? ==> outcome.error == OutOfRange
    {
      var remaining := CountRemainingCells();
      if remaining <= 0 {
        return Pass;
      }
      ghost var before := tileMap;

      // pick the smallest undetermined domain: the throw cannot happen here
      CandidateExists(tileMap, allTileNames);
      var next := GetNextIndexToCollapse();
      var p := next.value;

      // keep one name of the selected cell
      var collapsed := CollapseCell(Cell(tileMap, p));
      ghost var x :| x in Cell(before, p).domain && collapsed.domain == {x};
      tileMap := SetCell(tileMap, p, collapsed);
      TotalSizeSetCell(before, p, collapsed);
      ShrunkKeeps(tileMap, before, allTileNames);
      ghost var narrowed := tileMap;
      assert collapsed == Tile({x});

      // narrow the grid from every collapsed cell
      outcome := RecalculateConstraints();
      ShrunkTransitive(tileMap, narrowed, before);
      TotalSizeShrunk(tileMap, narrowed);
      CollapseStepIntro(rules, |allTileNames|, before, tileMap, outcome, p, x);
    }

    /** The last cell in row-major order among those of minimum size that hold
        more than one name and at most as many as the tile set, or the failure
        the source throws when there is no such cell. */
    method GetNextIndexToCollapse() returns (r: Result<Position, GeneratorError>)
      ensures r.Failure? <==> NoCandidate(tileMap, |allTileNames|)
      ensures r.Failure? ==> r.error == NoCellToCollapse
      ensures r.Success? ==> IsNextToCollapse(tileMap, |allTileNames|, r.value)
    {
      var cells := tileMap;
      var limit := |allTileNames|;
      var outputPtr: Option<Position> := None;
      var minimalValue: nat := limit;
      var i := 0;
      while i < |cells|
        invariant 0 <= i <= |cells|
        invariant ScanState(cells, limit, outputPtr, minimalValue, i, 0)
      {
        var j := 0;
        while j < |cells[i]|
          invariant 0 <= j <= |cells[i]|
          invariant ScanState(cells, limit, outputPtr, minimalValue, i, j)
        {
          var possibleTilesInCell := |cells[i][j].domain|;
          if possibleTilesInCell <= minimalValue && possibleTilesInCell > 1 {
            outputPtr := Some(Pos(i, j));
            minimalValue := possibleTilesInCell;
          }
          j := j + 1;
        }
        i := i + 1;
      }
      ScanComplete(cells, limit, outputPtr, minimalValue);
      if outputPtr.None? {
        return Failure(NoCellToCollapse);
      }
      return Success(outputPtr.value);
    }

    /** Collapsed cells seed the queue; each popped cell is narrowed against
        its consulted neighbours and the neighbours whose consultation shrank
        it are appended. */
    method RecalculateConstraints() returns (outcome: Outcome<GeneratorError>)
      requires Valid()
      modifies this
      ensures Valid()
      ensures (tileMap, outcome) == Recalculated(rules, old(tileMap))
      ensures Shrunk(tileMap, old(tileMap)) && (outcome.Fail? ==> outcome.error == OutOfRange)
    {
      var cells := tileMap;
      var tilesToUpdateQueue: seq<Position> := [];

      // seed: every collapsed position, row by row
      for i := 0 to |cells|
        invariant tilesToUpdateQueue == CollapsedCells(cells[..i])
      {
        for j := 0 to |cells[i]|
          invariant tilesToUpdateQueue == CollapsedCells(cells[..i]) + CollapsedInRow(cells[i][..j], i)
        {
          if cells[i][j].IsCollapsed() {
            tilesToUpdateQueue := tilesToUpdateQueue + [Pos(i, j)];
          }
          assert cells[i][..j + 1][..j] == cells[i][..j];
        }
        assert cells[i][..|cells[i]|] == cells[i];
        assert cells[..i + 1][..i] == cells[..i];
      }
      assert cells[..|cells|] == cells;
      forall q | q in tilesToUpdateQueue ensures InBounds(cells, q) {
        CollapsedCellsMembers(cells, q);
      }
      PropagateShrinks(rules, cells, tilesToUpdateQueue);
      RecalculatedShrinks(rules, cells);

      // pop a position, narrow that cell, append the neighbours whose consultation shrank it
      while tilesToUpdateQueue != []
        invariant Rectangular(tileMap) && QueueInBounds(tileMap, tilesToUpdateQueue)
        invariant Propagate(rules, tileMap, tilesToUpdateQueue) == Recalculated(rules, cells)
        invariant Within(cells, allTileNames)
        decreases TotalSize(tileMap) + |tilesToUpdateQueue|
      {
        var position := tilesToUpdateQueue[0];
        tilesToUpdateQueue := tilesToUpdateQueue[1..];
        ghost var before := tileMap;
        var changedTiles := UpdateDomain(position);
        TotalSizeSetCell(before, position, Cell(tileMap, position));
        if changedTiles.Failure? {
          ShrunkKeeps(tileMap, cells, allTileNames);
          return Fail(changedTiles.error);
        }
        tilesToUpdateQueue := tilesToUpdateQueue + changedTiles.value;
      }
      ShrunkKeeps(tileMap, cells, allTileNames);
      return Pass;
    }

    /** Narrows the cell at `position` against its consulted neighbours and
        returns those whose consultation removed a name; no other cell changes. */
    method UpdateDomain(position: Position) returns (r: Result<seq<Position>, GeneratorError>)
      requires Rectangular(tileMap) && InBounds(tileMap, position)
      modifies this
      ensures Rectangular(tileMap)
      ensures var n := DomainUpdate(rules, old(tileMap), position);
        tileMap == SetCell(old(tileMap), position, Tile(n.domain)) &&
        r == if n.failed then Failure(OutOfRange) else Success(n.changed)
    {
      var cells := tileMap;
      var i, j := position.row, position.col;
      var tile: Tile := cells[i][j];  // narrowed in place, written back at the end
      var changedTiles: seq<Position> := [];
      // a lookup that throws ends the remaining consultations
      var thrown := false;
      DomainUpdateStages(rules, cells, position);
      ghost var state := Narrowing(tile.domain, changedTiles, thrown);

      // below: (i + 1, j)
      if !thrown && i + 1 < |cells| {
        tile, changedTiles, thrown := ConsultNeighbor(cells, tile, changedTiles, Check(Pos(i + 1, j), LeftSideKey));
      }
      NarrowFromShort(rules, cells, state, DownCheck(|cells|, position));
      state := NarrowFrom(rules, cells, state, DownCheck(|cells|, position));
      assert state == Narrowing(tile.domain, changedTiles, thrown);

      // above: (i - 1, j)
      if !thrown && i - 1 > 0 {
        tile, changedTiles, thrown := ConsultNeighbor(cells, tile, changedTiles, Check(Pos(i - 1, j), RightSideKey));
      }
      NarrowFromShort(rules, cells, state, UpCheck(position));
      state := NarrowFrom(rules, cells, state, UpCheck(position));
      assert state == Narrowing(tile.domain, changedTiles, thrown);

      // right: (i, j + 1)
      if !thrown && j + 1 < |cells[i]| {
        tile, changedTiles, thrown := ConsultNeighbor(cells, tile, changedTiles, Check(Pos(i, j + 1), TopSideKey));
      }
      NarrowFromShort(rules, cells, state, RightCheck(|cells[i]|, position));
      state := NarrowFrom(rules, cells, state, RightCheck(|cells[i]|, position));
      assert state == Narrowing(tile.domain, changedTiles, thrown);

      // left: (i, j - 1)
      if !thrown && j - 1 > 0 {
        tile, changedTiles, thrown := ConsultNeighbor(cells, tile, changedTiles, Check(Pos(i, j - 1), BottomSideKey));
      }
      NarrowFromShort(rules, cells, state, LeftCheck(position));
      state := NarrowFrom(rules, cells, state, LeftCheck(position));
      assert state == Narrowing(tile.domain, changedTiles, thrown);

      DomainUpdateStages(rules, cells, position);
      tileMap := SetCell(cells, position, tile);
      r := if thrown then Failure(OutOfRange) else Success(changedTiles);
    }

    /** The body of one guarded block of `update_domain` (the caller tests the
        bounds): narrow `tile` against the neighbour of `check` and append that
        neighbour when a name was removed; a throw is reported in `thrown`. */
    method ConsultNeighbor(cells: TileMap, tile: Tile, changedTiles: seq<Position>, check: Check)
      returns (tile': Tile, changedTiles': seq<Position>, thrown: bool)
      requires InBounds(cells, check.neighbor)
      ensures Narrowing(tile'.domain, changedTiles', thrown) == Consult(rules, cells, Narrowing(tile.domain, changedTiles, false), check)
    {
      var shrank: Result<bool, GeneratorError>;
      tile', shrank := UpdateDomainAccordingToNeighbor(tile, cells[check.neighbor.row][check.neighbor.col], check.side);
      changedTiles' := changedTiles;
      thrown := shrank.Failure?;
      if shrank.Success? && shrank.value {
        changedTiles' := changedTiles + [check.neighbor];
      }
    }

    /** Keeps the names of `tileToUpdate` that some name of `neighbor` allows
        under `directionFromNeighbor`, and reports whether any was removed.
        Every neighbour name is looked up while the first name is examined,
        before anything is erased, so a missing rule throws with the tile
        unchanged. */
    method UpdateDomainAccordingToNeighbor(tileToUpdate: Tile, neighbor: Tile, directionFromNeighbor: string)
      returns (updated: Tile, r: Result<bool, GeneratorError>)
      ensures r.Failure? <==> tileToUpdate.domain != {} && !RulesFor(rules, neighbor.domain, directionFromNeighbor)
      ensures r.Failure? ==> r.error == OutOfRange && updated == tileToUpdate
      ensures r.Success? ==> updated.domain == Narrowed(rules, tileToUpdate.domain, neighbor.domain, directionFromNeighbor)
      ensures r.Success? ==> (r.value <==> updated.domain < tileToUpdate.domain)
    {
      var side := directionFromNeighbor;
      var domain := tileToUpdate.domain;
      var tileUpdated := false;
      var toVisit := tileToUpdate.domain;
      while toVisit != {}
        invariant toVisit <= tileToUpdate.domain
        invariant domain == set t | t in tileToUpdate.domain && (t in toVisit || Supported(rules, neighbor.domain, side, t))
        invariant tileUpdated <==> domain != tileToUpdate.domain
        invariant toVisit != tileToUpdate.domain ==> RulesFor(rules, neighbor.domain, side)
        decreases toVisit
      {
        var tileName :| tileName in toVisit;
        var tileNameAllowed := false;
        var toScan := neighbor.domain;
        while toScan != {}
          invariant toScan <= neighbor.domain
          invariant forall n :: n in neighbor.domain - toScan ==> HasRule(rules, n, side)
          invariant tileNameAllowed <==> exists n :: n in neighbor.domain - toScan && tileName in rules[n][side]
          decreases toScan
        {
          var neighborName :| neighborName in toScan;
          if !(neighborName in rules && side in rules[neighborName]) {
            return tileToUpdate, Failure(OutOfRange);
          }
          var allowedNames := rules[neighborName][side];
          ghost var allowedBefore := tileNameAllowed;
          for k := 0 to |allowedNames|
            invariant tileNameAllowed <==> allowedBefore || tileName in allowedNames[..k]
          {
            if allowedNames[k] == tileName {
              tileNameAllowed := true;
              break;
            }
          }
          assert tileNameAllowed <==> allowedBefore || tileName in allowedNames;
          toScan := toScan - {neighborName};
        }
        if !tileNameAllowed {
          domain := domain - {tileName};
          tileUpdated := true;
        }
        toVisit := toVisit - {tileName};
      }
      updated := Tile(domain);
      r := Success(tileUpdated);
    }

    /** Keeps one name of the domain (`rand() % size` over the set's iteration
        order, which is left unspecified here). */
    static method CollapseCell(tile: Tile) returns (collapsed: Tile)
      requires !tile.IsDomainEmpty()
      ensures exists x :: x in tile.domain && collapsed.domain == {x}
    {
      var nameToKeep :| nameToKeep in tile.domain;
      collapsed := Tile({nameToKeep});
    }

    /** 0 once some domain is empty, otherwise the number of cells that are
        not collapsed. */
    method CountRemainingCells() returns (remaining: int)
      ensures remaining == RemainingCells(tileMap)
    {
      var cells := tileMap;
      remaining := 0;
      for i := 0 to |cells|
        invariant remaining == Undetermined(cells[..i])
        invariant forall a, b :: 0 <= a < i && 0 <= b < |cells[a]| ==> !cells[a][b].IsDomainEmpty()
      {
        for j := 0 to |cells[i]|
          invariant remaining == Undetermined(cells[..i]) + RowUndetermined(cells[i][..j])
          invariant forall a, b :: 0 <= a < i && 0 <= b < |cells[a]| ==> !cells[a][b].IsDomainEmpty()
          invariant forall b :: 0 <= b < j ==> !cells[i][b].IsDomainEmpty()
        {
          if cells[i][j].IsDomainEmpty() {
            return 0;
          }
          if !cells[i][j].IsCollapsed() {
            remaining := remaining + 1;
          }
          assert cells[i][..j + 1][..j] == cells[i][..j];
        }
        assert cells[i][..|cells[i]|] == cells[i];
        assert cells[..i + 1][..i] == cells[..i];
      }
      assert cells[..|cells|] == cells;
    }
  }
}
