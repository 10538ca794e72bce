/** Specification of constraint propagation as `src/TileMapGenerator.cpp`
    performs it (lines 128-220): which neighbours a popped cell consults, how
    its domain is narrowed, and the work-queue loop. */
module Propagation {
  import opened Wrappers
  import opened Tiles
  import opened TileSets
  import opened TileMaps

  // ---------------------------------------------------------------------
  // update_domain_according_to_neighbor

  /** Some name of the neighbour's domain allows `t` on `side`. */
  predicate Supported(rules: AdjacencyRules, neighbor: set<TileName>, side: string, t: TileName) {
    exists n :: n in neighbor && HasRule(rules, n, side) && t in rules[n][side]
  }

  /** The names of `domain` that some name of the neighbour allows on `side`. */
  function Narrowed(rules: AdjacencyRules, domain: set<TileName>, neighbor: set<TileName>, side: string): (r: set<TileName>)
    ensures r <= domain
  {
    set t | t in domain && Supported(rules, neighbor, side, t)
  }

  /** Narrowing twice against the same neighbour removes nothing more. */
  lemma NarrowedIdempotent(rules: AdjacencyRules, domain: set<TileName>, neighbor: set<TileName>, side: string)
    ensures Narrowed(rules, Narrowed(rules, domain, neighbor, side), neighbor, side) == Narrowed(rules, domain, neighbor, side)
  {
  }

  /** A smaller domain, or a smaller neighbour domain, narrows to a smaller set. */
  lemma NarrowedMonotone(rules: AdjacencyRules, d1: set<TileName>, d2: set<TileName>, n1: set<TileName>, n2: set<TileName>, side: string)
    requires d1 <= d2 && n1 <= n2
    ensures Narrowed(rules, d1, n1, side) <= Narrowed(rules, d2, n2, side)
  {
    forall t | t in Narrowed(rules, d1, n1, side)
      ensures t in Narrowed(rules, d2, n2, side)
    {
      var n :| n in n1 && HasRule(rules, n, side) && t in rules[n][side];
      assert n in n2;
    }
  }

  // ---------------------------------------------------------------------
  // update_domain

  /** One consultation: the neighbour at `neighbor`, looked up under `side`. */
  datatype Check = Check(neighbor: Position, side: string)

  /** The neighbours `update_domain` consults for the cell at `p` of a grid
      with `rows` rows and `cols` columns in row `p.row`, in its order, with
      its bounds tests (`i - 1 > 0`, `j - 1 > 0`) and its side keys. */
  function NeighborChecks(rows: nat, cols: nat, p: Position): seq<Check> {
    DownCheck(rows, p) + (UpCheck(p) + (RightCheck(cols, p) + LeftCheck(p)))
  }

  /** The cell below, consulted under the "left" key. */
  function DownCheck(rows: nat, p: Position): seq<Check> {
    if p.row + 1 < rows then [Check(Pos(p.row + 1, p.col), LeftSideKey)] else []
  }

  /** The cell above, consulted under the "right" key when `i - 1 > 0`. */
  function UpCheck(p: Position): seq<Check> {
    if p.row - 1 > 0 then [Check(Pos(p.row - 1, p.col), RightSideKey)] else []
  }

  /** The cell to the right, consulted under the "top" key. */
  function RightCheck(cols: nat, p: Position): seq<Check> {
    if p.col + 1 < cols then [Check(Pos(p.row, p.col + 1), TopSideKey)] else []
  }

  /** The cell to the left, consulted under the "bottom" key when `j - 1 > 0`. */
  function LeftCheck(p: Position): seq<Check> {
    if p.col - 1 > 0 then [Check(Pos(p.row, p.col - 1), BottomSideKey)] else []
  }

  /** The consulted neighbours are exactly the in-bounds cells among
      (i+1, j), (i-1, j), (i, j+1), (i, j-1) that pass the tests, each looked
      up under its fixed key. Row 0 and column 0 are never consulted as the
      upper or left neighbour. */
  lemma NeighborChecksShape(cells: TileMap, p: Position)
    requires Rectangular(cells) && InBounds(cells, p)
    ensures forall c :: c in NeighborChecks(|cells|, |cells[p.row]|, p) ==>
      InBounds(cells, c.neighbor) && c.neighbor != p &&
      ((c.neighbor == Pos(p.row + 1, p.col) && c.side == LeftSideKey) ||
       (p.row >= 2 && c.neighbor == Pos(p.row - 1, p.col) && c.side == RightSideKey) ||
       (c.neighbor == Pos(p.row, p.col + 1) && c.side == TopSideKey) ||
       (p.col >= 2 && c.neighbor == Pos(p.row, p.col - 1) && c.side == BottomSideKey))
    ensures Consults(NeighborChecks(|cells|, |cells[p.row]|, p), Pos(p.row + 1, p.col)) <==> p.row + 1 < |cells|
    ensures Consults(NeighborChecks(|cells|, |cells[p.row]|, p), Pos(p.row, p.col + 1)) <==> p.col + 1 < |cells[p.row]|
    ensures p.row >= 1 ==> (Consults(NeighborChecks(|cells|, |cells[p.row]|, p), Pos(p.row - 1, p.col)) <==> p.row >= 2)
    ensures p.col >= 1 ==> (Consults(NeighborChecks(|cells|, |cells[p.row]|, p), Pos(p.row, p.col - 1)) <==> p.col >= 2)
  {
  }

  /** Some check of `checks` consults the cell at `q`. */
  predicate Consults(checks: seq<Check>, q: Position) {
    exists c :: c in checks && c.neighbor == q
  }

  ghost predicate ChecksInBounds(cells: TileMap, checks: seq<Check>) {
    forall c :: c in checks ==> InBounds(cells, c.neighbor)
  }

  /** The effect of consulting `checks` in order on a cell whose domain is
      `domain`: the final domain, the neighbours whose consultation removed a
      name (in order), and whether a lookup threw. */
  datatype Narrowing = Narrowing(domain: set<TileName>, changed: seq<Position>, failed: bool)

  /** One consultation: the cell is narrowed against one neighbour, and the
      neighbour is reported when a name was removed. The neighbour's
      domain is read from `cells`: the narrowed cell is never its own
      neighbour, so neighbours stay as they are while it shrinks. A lookup
      throws out of range when the cell's domain is not empty and some name
      of the neighbour has no rule for the side; the cell keeps its domain and
      no later consultation runs. */
  function Consult(rules: AdjacencyRules, cells: TileMap, n: Narrowing, c: Check): Narrowing
    requires InBounds(cells, c.neighbor)
  {
    if n.failed then n
    else
      var neighbor := Cell(cells, c.neighbor).domain;
      if n.domain != {} && !RulesFor(rules, neighbor, c.side) then Narrowing(n.domain, n.changed, true)
      else
        var narrowed := Narrowed(rules, n.domain, neighbor, c.side);
        Narrowing(narrowed, n.changed + (if narrowed != n.domain then [c.neighbor] else []), false)
  }

  /** The consultations of `checks`, in order. */
  function NarrowFrom(rules: AdjacencyRules, cells: TileMap, n: Narrowing, checks: seq<Check>): Narrowing
    requires ChecksInBounds(cells, checks)
    decreases |checks|
  {
    if checks == [] then n else NarrowFrom(rules, cells, Consult(rules, cells, n, checks[0]), checks[1..])
  }

  /** Consulting `a + b` is consulting `a`, then `b`. */
  lemma {:induction false} NarrowFromAppend(rules: AdjacencyRules, cells: TileMap, n: Narrowing, a: seq<Check>, b: seq<Check>)
    requires ChecksInBounds(cells, a) && ChecksInBounds(cells, b)
    ensures ChecksInBounds(cells, a + b)
    ensures NarrowFrom(rules, cells, n, a + b) == NarrowFrom(rules, cells, NarrowFrom(rules, cells, n, a), b)
    decreases |a|
  {
    if a != [] {
      assert (a + b)[0] == a[0];
      assert (a + b)[1..] == a[1..] + b;
      NarrowFromAppend(rules, cells, Consult(rules, cells, n, a[0]), a[1..], b);
    } else {
      assert a + b == b;
    }
  }

  /** Consulting no check leaves the state alone; one check is one step. */
  lemma NarrowFromShort(rules: AdjacencyRules, cells: TileMap, n: Narrowing, checks: seq<Check>)
    requires ChecksInBounds(cells, checks) && |checks| <= 1
    ensures NarrowFrom(rules, cells, n, checks) == if checks == [] then n else Consult(rules, cells, n, checks[0])
  {
  }

  /** Narrowing only removes names; every newly reported neighbour comes from
      the checks; and each report stands for at least one removed name. */
  lemma {:induction false} NarrowFromShrinks(rules: AdjacencyRules, cells: TileMap, n: Narrowing, checks: seq<Check>)
    requires ChecksInBounds(cells, checks)
    ensures NarrowFrom(rules, cells, n, checks).domain <= n.domain
    ensures |NarrowFrom(rules, cells, n, checks).changed| + |NarrowFrom(rules, cells, n, checks).domain| <= |n.changed| + |n.domain|
    ensures forall q :: q in NarrowFrom(rules, cells, n, checks).changed ==> q in n.changed || Consults(checks, q)
    decreases |checks|
  {
    if checks != [] {
      var c := checks[0];
      var m := Consult(rules, cells, n, c);
      NarrowFromShrinks(rules, cells, m, checks[1..]);
      if m.domain != n.domain {
        assert |m.domain| < |n.domain| by {
          var x :| x in n.domain && x !in m.domain;
          SubsetSize(m.domain, n.domain - {x});
        }
      }
      forall q | q in NarrowFrom(rules, cells, m, checks[1..]).changed
        ensures q in n.changed || Consults(checks, q)
      {
        if q !in m.changed {
          var c' :| c' in checks[1..] && c'.neighbor == q;
          assert c' in checks;
        }
      }
    }
  }

  /** What `update_domain` does to the cell at `p`: narrowed
      against every consulted neighbour in turn. */
  function DomainUpdate(rules: AdjacencyRules, cells: TileMap, p: Position): (r: Narrowing)
    requires Rectangular(cells) && InBounds(cells, p)
    ensures r.domain <= Cell(cells, p).domain
    ensures |r.changed| + |r.domain| <= |Cell(cells, p).domain|
    ensures forall q :: q in r.changed ==> InBounds(cells, q) && q != p
  {
    var checks := NeighborChecks(|cells|, |cells[p.row]|, p);
    var start := Narrowing(Cell(cells, p).domain, [], false);
    NeighborChecksShape(cells, p);
    NarrowFromShrinks(rules, cells, start, checks);
    NarrowFrom(rules, cells, start, checks)
  }

  /** The consultations of `update_domain`, one neighbour at a time. */
  lemma DomainUpdateStages(rules: AdjacencyRules, cells: TileMap, p: Position)
    requires Rectangular(cells) && InBounds(cells, p)
    ensures ChecksInBounds(cells, DownCheck(|cells|, p)) && ChecksInBounds(cells, UpCheck(p))
    ensures ChecksInBounds(cells, RightCheck(|cells[p.row]|, p)) && ChecksInBounds(cells, LeftCheck(p))
    ensures DomainUpdate(rules, cells, p) ==
      var start := Narrowing(Cell(cells, p).domain, [], false);
      NarrowFrom(rules, cells,
        NarrowFrom(rules, cells,
          NarrowFrom(rules, cells,
            NarrowFrom(rules, cells, start, DownCheck(|cells|, p)),
            UpCheck(p)),
          RightCheck(|cells[p.row]|, p)),
        LeftCheck(p))
  {
    var start := Narrowing(Cell(cells, p).domain, [], false);
    var down, up, right, left := DownCheck(|cells|, p), UpCheck(p), RightCheck(|cells[p.row]|, p), LeftCheck(p);
    NarrowFromAppend(rules, cells, start, down, up);
    NarrowFromAppend(rules, cells, start, down + up, right);
    NarrowFromAppend(rules, cells, start, down + up + right, left);
    assert down + up + right + left == NeighborChecks(|cells|, |cells[p.row]|, p);
  }

  // ---------------------------------------------------------------------
  // recalculate_constraints

  ghost predicate QueueInBounds(cells: TileMap, queue: seq<Position>) {
    forall q :: q in queue ==> InBounds(cells, q)
  }

  /** The work-queue loop: pop the front position, narrow that cell against
      its consulted neighbours, append the neighbours whose consultation
      shrank it. Each appended entry stands for a removed name, so the total
      domain size plus the queue length decreases. */
  function Propagate(rules: AdjacencyRules, cells: TileMap, queue: seq<Position>): (r: (TileMap, Outcome<GeneratorError>))
    requires Rectangular(cells) && QueueInBounds(cells, queue)
    ensures SameShape(r.0, cells)
    ensures r.1.Fail? ==> r.1.error == OutOfRange
    ensures queue == [] ==> r == (cells, Pass)
    decreases TotalSize(cells) + |queue|
  {
    if queue == [] then (cells, Pass)
    else
      var p := queue[0];
      var n := DomainUpdate(rules, cells, p);
      var next := SetCell(cells, p, Tile(n.domain));
      if n.failed then (next, Fail(OutOfRange))
      else
        TotalSizeSetCell(cells, p, Tile(n.domain));
        Propagate(rules, next, queue[1..] + n.changed)
  }

  /** Propagation never enlarges a domain and keeps the grid's shape. */
  lemma {:induction false} PropagateShrinks(rules: AdjacencyRules, cells: TileMap, queue: seq<Position>)
    requires Rectangular(cells) && QueueInBounds(cells, queue)
    ensures Shrunk(Propagate(rules, cells, queue).0, cells)
    decreases TotalSize(cells) + |queue|
  {
    if queue != [] {
      var p := queue[0];
      var n := DomainUpdate(rules, cells, p);
      var next := SetCell(cells, p, Tile(n.domain));
      if !n.failed {
        TotalSizeSetCell(cells, p, Tile(n.domain));
        PropagateShrinks(rules, next, queue[1..] + n.changed);
      }
    }
  }

  /** The generator's propagation: seeded with every collapsed cell. */
  function Recalculated(rules: AdjacencyRules, cells: TileMap): (r: (TileMap, Outcome<GeneratorError>))
    requires Rectangular(cells)
    ensures SameShape(r.0, cells)
    ensures r.1.Fail? ==> r.1.error == OutOfRange
    ensures CollapsedCells(cells) == [] ==> r == (cells, Pass)
  {
    forall q | q in CollapsedCells(cells) ensures InBounds(cells, q) {
      CollapsedCellsMembers(cells, q);
    }
    Propagate(rules, cells, CollapsedCells(cells))
  }

  /** Recalculating only removes names. */
  lemma RecalculatedShrinks(rules: AdjacencyRules, cells: TileMap)
    requires Rectangular(cells)
    ensures Shrunk(Recalculated(rules, cells).0, cells)
  {
    forall q | q in CollapsedCells(cells) ensures InBounds(cells, q) {
      CollapsedCellsMembers(cells, q);
    }
    PropagateShrinks(rules, cells, CollapsedCells(cells));
  }

  // ---------------------------------------------------------------------
  // generate_single_step

  /** `after` and `outcome` are what one step makes of `before`: the cell the
      scan selects is collapsed to one of its names, then constraints are
      recalculated. */
  ghost predicate CollapseStep(rules: AdjacencyRules, limit: nat, before: TileMap, after: TileMap, outcome: Outcome<GeneratorError>)
    requires Rectangular(before)
  {
    exists p, x :: IsNextToCollapse(before, limit, p) && x in Cell(before, p).domain &&
      (after, outcome) == Recalculated(rules, SetCell(before, p, Tile({x})))
  }

  lemma CollapseStepIntro(rules: AdjacencyRules, limit: nat, before: TileMap, after: TileMap, outcome: Outcome<GeneratorError>,
                          p: Position, x: TileName)
    requires Rectangular(before)
    requires IsNextToCollapse(before, limit, p) && x in Cell(before, p).domain
    requires (after, outcome) == Recalculated(rules, SetCell(before, p, Tile({x})))
    ensures CollapseStep(rules, limit, before, after, outcome)
  {
  }

  /** `trace` is a run of `generate_tile_map`'s loop from `trace[0]`: every
      grid but the last still had cells remaining and became the next one by
      one collapse step; every step passed except perhaps the last, whose
      outcome is `outcome`. A run of no step passes. */
  ghost predicate Generation(rules: AdjacencyRules, limit: nat, trace: seq<TileMap>, outcome: Outcome<GeneratorError>) {
    && |trace| >= 1
    && (forall k :: 0 <= k < |trace| ==> Rectangular(trace[k]))
    && (|trace| == 1 ==> outcome == Pass)
    && (forall k :: 0 <= k < |trace| - 1 ==>
          && RemainingCells(trace[k]) > 0
          && CollapseStep(rules, limit, trace[k], trace[k + 1], if k == |trace| - 2 then outcome else Pass))
  }

  /** A run that passed so far extends by one more step. */
  lemma GenerationExtend(rules: AdjacencyRules, limit: nat, trace: seq<TileMap>, next: TileMap, outcome: Outcome<GeneratorError>)
    requires Generation(rules, limit, trace, Pass)
    requires RemainingCells(trace[|trace| - 1]) > 0 && Rectangular(next)
    requires CollapseStep(rules, limit, trace[|trace| - 1], next, outcome)
    ensures Generation(rules, limit, trace + [next], outcome)
  {
    var t := trace + [next];
    forall k | 0 <= k < |t| - 1
      ensures RemainingCells(t[k]) > 0 && CollapseStep(rules, limit, t[k], t[k + 1], if k == |t| - 2 then outcome else Pass)
    {
      if k < |trace| - 1 {
        assert t[k] == trace[k] && t[k + 1] == trace[k + 1];
      }
    }
  }
}
