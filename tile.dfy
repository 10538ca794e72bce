/** One cell of the tile map (src/Data/Tile.h): the set of tile names that are
    still possible at that position, its domain. */
module Tiles {
  import opened Wrappers

  type TileName = string

  /** The datatype constructor `Tile(d)` is the C++ constructor: it sets the
      domain to the given name set. The C++ body calls the same field
      `m_possible_tiles`; it is one set. */
  datatype Tile = Tile(domain: set<TileName>) {

    /** Exactly one possible tile remains. */
    predicate IsCollapsed() {
      |domain| == 1
    }

    /** No possible tile remains: a contradiction. */
    predicate IsDomainEmpty()
      ensures IsDomainEmpty() ==> !IsCollapsed()
    {
      |domain| == 0
    }

    /** The one remaining name when the tile is collapsed. */
    function GetCollapsedName(): (r: Option<TileName>)
      ensures r.Some? <==> IsCollapsed()
      ensures r.Some? ==> domain == {r.value}
    {
      if IsCollapsed() then
        SingletonHasElement(domain);
        var name :| domain == {name};
        Some(name)
      else
        None
    }
  }

  /** A set of size one is a singleton display. */
  lemma SingletonHasElement<T>(s: set<T>)
    requires |s| == 1
    ensures exists x :: s == {x}
  {
    var x :| x in s;
    assert |s - {x}| == 0;
    assert s == {x};
  }
}
