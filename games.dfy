/** The entities of the current engine (game_graph.py): a catalogue game and a graph node. */
module Games {
  import opened Common
  import opened Genres

  /** A Steam game. `rating` is the metascore: `None` until the graph scores the game (in
      game_graph.py it stands for the attribute that `Game.__init__` leaves unset). */
  datatype Game = Game(
    id: int,
    name: string,
    genres: seq<string>,
    price: real,
    positiveRatio: int,
    rating: Option<real>)

  /** The representation invariants of a game; of the bound on `rating` only the lower half
      is kept, because the scoring formulas can exceed 1. */
  predicate ValidGame(g: Game) {
    && g.name != ""
    && g.price >= 0.0
    && g.genres != []
    && 0 <= g.positiveRatio <= 100
    && (g.rating.Some? ==> g.rating.value >= 0.0)
  }

  /** The rating of a scored game (0 for an unscored one; the operations that compare
      ratings require every game they compare to be scored). */
  function RatingOf(g: Game): real {
    if g.rating.Some? then g.rating.value else 0.0
  }

  /** A node of a game graph: its game and its neighbours, given by the keys under which the
      graph stores them. */
  datatype Vertex<G, K> = Vertex(game: G, neighbours: seq<K>)

  /** A node of the current engine's graph, whose keys are game ids. */
  type Node = Vertex<Game, int>

  /** `Game.genre_count`: the number of the game's genres whose lower-cased form occurs among
      the lower-cased entries of `coll`. */
  method GenreCount(game: Game, coll: seq<string>) returns (count: nat)
    ensures count == GenreOverlap(game.genres, Elems(coll))
    ensures count <= |game.genres|
  {
    var lowered := LowerAll(coll);
    ghost var target := Lowered(Elems(coll));
    var matched: seq<string> := [];
    for i := 0 to |game.genres|
      invariant matched == CaselessMatches(game.genres[..i], target)
    {
      var genre := game.genres[i];
      assert game.genres[..i + 1][..i] == game.genres[..i];
      assert Lower(genre) in lowered <==> Lower(genre) in target;
      if Lower(genre) in lowered {
        matched := matched + [genre];
      }
    }
    assert game.genres[..|game.genres|] == game.genres;
    count := |matched|;
    OverlapBounds(game.genres, Elems(coll));
  }
}
