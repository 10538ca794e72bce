# Tile map generator: a Dafny model of the WFC solver

This project models the Wave Function Collapse solver of the tile map
generator (`src/TileMapGenerator.cpp`) and its cell type (`src/Data/Tile.h`),
and proves properties of the model.

The grid is `height` rows of `width` cells. Each cell (`Tile`) holds its
*domain*: the set of tile names still possible there. The solver starts with
every name in every cell. It then repeats single steps until
`count_remaining_cells` reports zero. A step does three things:

- it picks the undetermined cell with the smallest domain;
- it collapses that cell to one of its names;
- it recalculates constraints with a FIFO work queue seeded with every
  collapsed cell.

The adjacency rules map a tile name, then a side key (`"top"`, `"right"`,
`"bottom"`, `"left"`), to the list of names allowed there. They are a
read-only input.

The model follows the code as written, including the behaviour that differs
from textbook wave function collapse:

- **The popped cell is narrowed.** `update_domain` narrows the cell it pops
  against each neighbour. When the popped cell shrank, it enqueues that
  neighbour. The neighbour is not narrowed by this call.
  `Scenarios.PoppedCellIsNarrowed` shows a 1×2 grid in which a cell
  collapsed to "A" leaves its open neighbour at {"A", "B"}, where textbook
  propagation would force the neighbour to "A".
- **Row 0 and column 0 are skipped.** The tests `i - 1 > 0` and `j - 1 > 0`
  mean neither is ever consulted as the upper or left neighbour
  (`Propagation.NeighborChecksShape`, `Scenarios.SecondRowIgnoresFirstRow`).
- **The side keys are fixed as written:**
  - row + 1 is looked up under "left";
  - row − 1 under "right";
  - column + 1 under "top";
  - column − 1 under "bottom".
- **Selection uses domain sizes, not weighted entropy.** Ties go to the last
  cell scanned, not the first, because the comparison is `<=`.
- **Collapse keeps one name**, picked by `rand() % size` after reseeding from
  the clock on every call. The model leaves the choice open; it draws no
  name by weight.
- **A missing rule throws.** A lookup `adjacency.at(name).at(side)` with no
  rule ends the generation with `std::out_of_range`: `OutOfRange` here. An
  empty domain does not stop propagation early. It makes
  `count_remaining_cells` return 0, which ends the driver loop.

## Layout

- `wrappers.dfy`: `Option`, `Result` and `Outcome`.
- `tile.dfy` (module `Tiles`): `Tile`, with `IsCollapsed`, `IsDomainEmpty`
  and `GetCollapsedName`. The datatype constructor `Tile(d)` is the C++
  constructor (`src/Data/Tile.h:21`): it sets the domain to the given set.
  The header names the field `domain` and the `.cpp` names it
  `m_possible_tiles`; both are the one field `domain`.
- `tile_set.dfy` (module `TileSets`): the side keys, the adjacency rules, and
  when a rule lookup succeeds.
- `tile_maps.dfy` (module `TileMaps`): the grid, the initial grid, the total
  domain size (the termination measure), the remaining-cell count, the
  selection rule, and the queue seed.
- `propagation.dfy` (module `Propagation`) specifies recalculation by
  functions:
  - narrowing by one neighbour;
  - the neighbours `update_domain` consults, in its order;
  - the queue loop `Propagate`, which terminates on total domain size plus
    queue length.
- `generator.dfy` (module `Generator`): class `TileMapGenerator`. It holds
  the tile map as a member, as `src/TileMapGenerator.h:16-18,33-34`
  declares. Each solver operation is a method with the source's loops, proved
  against the functions above.
- `scenarios.dfy`: small grids that exhibit the behaviour above.

## Model

| member | source | states |
|---|---|---|
| Tiles.Tile.IsCollapsed | src/Data/Tile.h:26 | defines collapsed as a domain of exactly one name |
| Tiles.Tile.IsDomainEmpty | src/Data/Tile.h:26-31 | an empty domain is never collapsed |
| Tiles.Tile.GetCollapsedName | src/Data/Tile.h:37 | `Some(x)` exactly when the tile is collapsed, and then the domain is `{x}`; `None` otherwise |
| TileMaps.FullGrid | src/TileMapGenerator.cpp:77-80 | `height` rows of `width` tiles, each with the full name set as its domain |
| TileMaps.FullGridValid | src/TileMapGenerator.cpp:77-80 | the initial grid is rectangular and holds only names of the tile set |
| TileMaps.TotalSizeShrunk | src/TileMapGenerator.cpp:145-153 | a grid in which no domain grew has no larger total domain size |
| TileMaps.RemainingCells | src/TileMapGenerator.cpp:225-245 | defines the count: 0 if some domain is empty, otherwise the number of cells whose domain size is not 1 |
| TileMaps.RemainingCellsZero | src/TileMapGenerator.cpp:222-245 | the count is 0 exactly when some domain is empty or every cell is collapsed |
| TileMaps.RemainingCellsBound | src/TileMapGenerator.cpp:225-245 | the count never exceeds rows × columns |
| TileMaps.IsNextToCollapse | src/TileMapGenerator.cpp:103-117 | defines the selection: a cell with size above 1 and at most the name count, no larger than any such cell, and strictly smaller than every such cell after it in row-major order |
| TileMaps.NextToCollapseUnique | src/TileMapGenerator.cpp:103-117 | the selection rule (minimum size above 1, last of the ties) picks at most one cell |
| TileMaps.CandidateExists | src/TileMapGenerator.cpp:84-90 | while cells remain and domains hold only tile-set names, a candidate exists, so the lookup at line 90 cannot throw |
| TileMaps.CollapsedCells | src/TileMapGenerator.cpp:132-142 | defines the queue seed: the collapsed cells in row-major order |
| TileMaps.CollapsedCellsMembers | src/TileMapGenerator.cpp:132-142 | the queue seed holds exactly the in-bounds collapsed cells |
| Propagation.Narrowed | src/TileMapGenerator.cpp:194-220 | narrowing against a neighbour never adds a name |
| Propagation.NarrowedIdempotent | src/TileMapGenerator.cpp:194-220 | narrowing twice against the same neighbour removes nothing more |
| Propagation.NarrowedMonotone | src/TileMapGenerator.cpp:194-220 | a smaller domain or a smaller neighbour narrows to a subset |
| Propagation.NeighborChecks | src/TileMapGenerator.cpp:163-189 | defines the consultations of `update_domain`: below, above, right, left, each behind its bounds test |
| Propagation.DownCheck | src/TileMapGenerator.cpp:163-168 | the cell (i + 1, j) under "left" when `i + 1` is a row |
| Propagation.UpCheck | src/TileMapGenerator.cpp:170-175 | the cell (i - 1, j) under "right" when `i - 1 > 0` |
| Propagation.RightCheck | src/TileMapGenerator.cpp:177-182 | the cell (i, j + 1) under "top" when `j + 1` is a column |
| Propagation.LeftCheck | src/TileMapGenerator.cpp:184-189 | the cell (i, j - 1) under "bottom" when `j - 1 > 0` |
| Propagation.Consult | src/TileMapGenerator.cpp:164-168 | defines one guarded consultation (with lines 194-220): after a throw nothing happens; a throw keeping the domain when the domain is non-empty and a neighbour name lacks the rule; otherwise the filter, reporting the neighbour iff a name was removed; `ConsultNeighbor` is proved equal to it |
| Propagation.NeighborChecksShape | src/TileMapGenerator.cpp:163-189 | each consulted neighbour is in bounds, differs from the cell, and has its fixed side key; below and right are consulted iff in bounds; above and left only from row or column 2 on |
| Propagation.NarrowFromAppend | src/TileMapGenerator.cpp:163-189 | consulting two lists of neighbours is consulting the first, then the second |
| Propagation.NarrowFromShrinks | src/TileMapGenerator.cpp:163-189 | consultations only remove names; every reported neighbour was consulted; each report stands for at least one removed name |
| Propagation.DomainUpdate | src/TileMapGenerator.cpp:156-192 | the new domain is a subset of the old one; reported neighbours are in bounds and differ from the cell; reports plus new size never exceed the old size |
| Propagation.DomainUpdateStages | src/TileMapGenerator.cpp:163-189 | `update_domain` consults below, then above, then right, then left |
| Propagation.Propagate | src/TileMapGenerator.cpp:145-153 | the deque loop terminates (total domain size plus queue length decreases), keeps the grid's shape, fails only with out of range, and passes unchanged on an empty queue |
| Propagation.PropagateShrinks | src/TileMapGenerator.cpp:145-153 | the queue loop never enlarges a domain |
| Propagation.Recalculated | src/TileMapGenerator.cpp:128-154 | propagation seeded with every collapsed cell keeps the shape, fails only with out of range, and changes nothing when no cell is collapsed |
| Propagation.RecalculatedShrinks | src/TileMapGenerator.cpp:128-154 | recalculation from the collapsed cells never enlarges a domain |
| Propagation.CollapseStep | src/TileMapGenerator.cpp:88-96 | defines one step: the selected cell is collapsed to one of its names, then constraints are recalculated |
| Propagation.Generation | src/TileMapGenerator.cpp:63-75 | defines a run of the driver loop: each grid but the last had cells remaining and became the next by selecting, collapsing and recalculating |
| Generator.TileMapGenerator.constructor | src/TileMapGenerator.cpp:5-11 | the generator holds the given names and rules and an empty map |
| Generator.TileMapGenerator.GenerateTileMap | src/TileMapGenerator.cpp:63-75 | the loop terminates; the final map is the end of a run of collapse steps from the initial grid, each taken while cells remained, all passing but perhaps the last; it only lost names; on success no cell remains (complete or contradiction); the only failure is out of range; an initial grid with no remaining cell is returned unchanged with success |
| Generator.TileMapGenerator.InitTileMap | src/TileMapGenerator.cpp:77-80 | the map becomes the full initial grid |
| Generator.TileMapGenerator.GenerateSingleStep | src/TileMapGenerator.cpp:82-97 | no change with no remaining cell; otherwise one collapse step that strictly lowers the total size and enlarges no domain; it never fails for lack of a cell |
| Generator.TileMapGenerator.GetNextIndexToCollapse | src/TileMapGenerator.cpp:100-126 | fails with no cell to collapse exactly when no cell has a size above 1 and at most the name count; otherwise the minimum-size candidate that is last in row-major order |
| TileMaps.ScanComplete | src/TileMapGenerator.cpp:106-119 | after the full scan the selection is the one the rule specifies |
| Generator.TileMapGenerator.RecalculateConstraints | src/TileMapGenerator.cpp:128-154 | the new map and outcome are those of `Propagate` seeded with every collapsed cell in row-major order |
| Generator.TileMapGenerator.UpdateDomain | src/TileMapGenerator.cpp:156-192 | only the cell at `position` changes, to the consulted domain; result is the reported neighbours in order, or out of range |
| Generator.TileMapGenerator.ConsultNeighbor | src/TileMapGenerator.cpp:164-168 | the call inside one guarded block (the caller tests the bounds): narrows the cell against the neighbour and appends the neighbour exactly when the cell shrank; equals one `Consult` |
| Generator.TileMapGenerator.UpdateDomainAccordingToNeighbor | src/TileMapGenerator.cpp:194-220 | throws out of range, with the tile unchanged, iff the domain is non-empty and a neighbour name has no rule for the side; otherwise keeps exactly the names some neighbour name allows, and returns true iff a name was removed |
| Generator.TileMapGenerator.CollapseCell | src/TileMapGenerator.cpp:247-258 | for a non-empty domain, the result is a singleton of one of its names |
| Generator.TileMapGenerator.CountRemainingCells | src/TileMapGenerator.cpp:225-245 | 0 if some domain is empty, otherwise the number of cells not collapsed |
| Scenarios.PoppedCellIsNarrowed | src/TileMapGenerator.cpp:163-181 | a cell collapsed to "A" beside {"A", "B"} leaves the neighbour unchanged |
| Scenarios.SecondRowIgnoresFirstRow | src/TileMapGenerator.cpp:170-175 | a cell in row 1 is not narrowed by the cell in row 0 |
| Scenarios.FreshGridCollapsesLastCell | src/TileMapGenerator.cpp:106-117 | on a fresh grid the first cell selected is the bottom-right one |
| Scenarios.SingleTileGridComplete | src/TileMapGenerator.cpp:66-69 | with one tile name, every cell of the initial grid is collapsed and the count is 0 |
| Scenarios.SingleTileGenerationTakesNoStep | src/TileMapGenerator.cpp:66-86 | with one tile name, a run of the loop is the initial grid alone and passes: the one call to `generate_single_step` returns at once |

## Left out

- Rendering (`DrawTileMap`, `draw_tile`, `draw_multiple_possibilities`, `src/TileMapGenerator.cpp:13-61`) is not modelled: it is drawing code.
- Loading the tile set is not modelled: image files, XML adjacency rules and `print_rules`. The rules and the name set are constructor parameters.
- Generator.TileMapGenerator.constructor takes the name set directly. It does not collect the names from the keys of the tile set's image map.
- Rotation expansion and tile weights are not modelled. They are declared without bodies or not used by the solver.
- Generator.TileMapGenerator.CollapseCell: `srand(time)` and `rand() % size` over the set's iteration order become a nondeterministic choice of one name, with no distribution.
- Generator.TileMapGenerator.UpdateDomainAccordingToNeighbor: erasing from the set while iterating over it is undefined behaviour in C++. It is modelled as the intended filter, and the unordered iteration order is left unspecified.
- The `std::cerr` diagnostic before the throw in `get_next_index_to_collapse` is not modelled.
- Uncaught exceptions in `generate_tile_map` are modelled as a returned outcome.
- Generator.TileMapGenerator.GenerateTileMap: `width` and `height` are unbounded naturals. The model does not capture negative sizes or overflow of the `int` product `width * height`.
- The header declares `void` member-state versions of `generate_tile_map`, `init_tile_map` and `generate_single_step` (`src/TileMapGenerator.h:16-18`) and names the selection `get_next_cell_to_collapse`. The `.cpp` passes and returns the grid and names the selection `get_next_index_to_collapse`. The model follows the header's member form and the `.cpp`'s bodies.
- `m_is_tile_map_finished` is never read or written by the solver, so it is not modelled.
- The queue entries' tile reference (`QueueEntry::tile`) is not modelled. The solver never reads it, so the queue holds positions only.
- There is no theorem that a complete map respects the adjacency rules. Because of the propagation behaviour above, the code does not guarantee it.
