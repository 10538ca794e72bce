/** The adjacency rules of a tile set (src/Data/TileSet.h): for each tile name
    and each side key, the list of tile names allowed there. The rules are
    read-only input to the generator. */
module TileSets {
  import opened Tiles

  const TopSideKey: string := "top"
  const BottomSideKey: string := "bottom"
  const LeftSideKey: string := "left"
  const RightSideKey: string := "right"

  /** rules[tile_name][side_key] = allowed neighbour names. */
  type AdjacencyRules = map<TileName, map<string, seq<TileName>>>

  /** The rule for `name` on `side` exists, so looking it up does not throw. */
  predicate HasRule(rules: AdjacencyRules, name: TileName, side: string) {
    name in rules && side in rules[name]
  }

  /** Every name in `names` has a rule for `side`. */
  predicate RulesFor(rules: AdjacencyRules, names: set<TileName>, side: string) {
    forall n :: n in names ==> HasRule(rules, n, side)
  }
}
