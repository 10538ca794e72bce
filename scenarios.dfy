/** Small grids on which the generator's propagation and selection rules can
    be seen at work, in particular where they differ from textbook wave
    function collapse. */
module Scenarios {
  import opened Wrappers
  import opened Tiles
  import opened TileSets
  import opened TileMaps
  import opened Propagation

  /** Two names, each allowing only itself on every side. */
  function SelfRules(): AdjacencyRules {
    var onlyA := map[TopSideKey := ["A"], RightSideKey := ["A"], BottomSideKey := ["A"], LeftSideKey := ["A"]];
    var onlyB := map[TopSideKey := ["B"], RightSideKey := ["B"], BottomSideKey := ["B"], LeftSideKey := ["B"]];
    map["A" := onlyA, "B" := onlyB]
  }

  /** One row: a cell collapsed to "A" beside the open cell {"A", "B"}. */
  function OpenBesideA(): TileMap {
    [[Tile({"A"}), Tile({"A", "B"})]]
  }

  /** Only the left cell of that row seeds the queue. */
  lemma OpenBesideASeed()
    ensures CollapsedCells(OpenBesideA()) == [Pos(0, 0)]
  {
    var cells := OpenBesideA();
    var row := cells[0];
    assert |{"A", "B"}| == 2;
    assert row[..1] == [Tile({"A"})] && row[..1][..0] == [];
    assert CollapsedInRow(row[..1], 0) == [Pos(0, 0)];
    assert CollapsedInRow(row, 0) == [Pos(0, 0)];
    assert cells[..0] == [];
  }

  /** Popping the collapsed cell narrows it against its open neighbour, which
      removes nothing: "A" is allowed beside "A". */
  lemma OpenBesideAUpdate()
    ensures DomainUpdate(SelfRules(), OpenBesideA(), Pos(0, 0)) == Narrowing({"A"}, [], false)
  {
    var rules, cells := SelfRules(), OpenBesideA();
    var c := Check(Pos(0, 1), TopSideKey);
    assert NeighborChecks(1, 2, Pos(0, 0)) == [c];
    var n := Narrowing({"A"}, [], false);
    assert RulesFor(rules, {"A", "B"}, TopSideKey);
    assert Narrowed(rules, {"A"}, {"A", "B"}, TopSideKey) == {"A"} by {
      assert Supported(rules, {"A", "B"}, TopSideKey, "A") by {
        assert "A" in rules["A"][TopSideKey];
      }
    }
    assert Consult(rules, cells, n, c) == n;
    NarrowFromShort(rules, cells, n, [c]);
  }

  /** Propagation pops the collapsed cell and narrows it, not its neighbour, so
      the open cell keeps "B" although "A" allows only "A" beside it. */
  lemma PoppedCellIsNarrowed()
    ensures Recalculated(SelfRules(), OpenBesideA()) == (OpenBesideA(), Pass)
  {
    var rules, cells, p := SelfRules(), OpenBesideA(), Pos(0, 0);
    OpenBesideASeed();
    OpenBesideAUpdate();
    assert cells[0][0 := Tile({"A"})] == cells[0];
    assert SetCell(cells, p, Tile({"A"})) == cells;
    assert [p][1..] + [] == [];
    assert Propagate(rules, cells, [p]) == Propagate(rules, cells, []);
  }

  /** One column of two rows. Popping the lower cell consults nobody: the
      cell above sits in row 0, which the test `i - 1 > 0` skips, so the lower
      cell keeps "B" beside an "A". */
  lemma SecondRowIgnoresFirstRow()
    ensures var cells := [[Tile({"A"})], [Tile({"A", "B"})]];
      DomainUpdate(SelfRules(), cells, Pos(1, 0)) == Narrowing({"A", "B"}, [], false)
  {
    var cells := [[Tile({"A"})], [Tile({"A", "B"})]];
    assert NeighborChecks(2, 1, Pos(1, 0)) == [];
  }

  /** On a fresh grid every cell is a candidate of the same size, so the first
      cell collapsed is the last one scanned, at the bottom right. */
  lemma FreshGridCollapsesLastCell(width: nat, height: nat, names: set<TileName>)
    requires width > 0 && height > 0 && |names| > 1
    ensures forall q :: IsNextToCollapse(FullGrid(width, height, names), |names|, q) <==> q == Pos(height - 1, width - 1)
  {
    var cells, last := FullGrid(width, height, names), Pos(height - 1, width - 1);
    assert IsNextToCollapse(cells, |names|, last);
    forall q | IsNextToCollapse(cells, |names|, q) ensures q == last {
      NextToCollapseUnique(cells, |names|, q, last);
    }
  }

  /** With a one-name tile set every cell starts collapsed: no cell remains,
      so no collapse step is taken. */
  lemma SingleTileGridComplete(width: nat, height: nat, x: TileName)
    ensures AllCollapsed(FullGrid(width, height, {x}))
    ensures RemainingCells(FullGrid(width, height, {x})) == 0
  {
    RemainingCellsZero(FullGrid(width, height, {x}));
  }

  /** With a one-name tile set a run of the generation loop takes no step:
      its only grid is the initial one, and it passes. */
  lemma SingleTileGenerationTakesNoStep(rules: AdjacencyRules, width: nat, height: nat, x: TileName,
                                        trace: seq<TileMap>, outcome: Outcome<GeneratorError>)
    requires Generation(rules, 1, trace, outcome) && trace[0] == FullGrid(width, height, {x})
    ensures trace == [FullGrid(width, height, {x})] && outcome == Pass
  {
    SingleTileGridComplete(width, height, x);
  }
}
