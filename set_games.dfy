/** The `Game` of game_graph_csv.py and game_graph_1.py, whose genres are a set, and its
    genre methods, which are set expressions. */
module SetGames {
  import opened Common
  import opened Genres

  /** A Steam game with a set of genres. (The release date, the operating systems and, in
      game_graph_csv.py, the positive ratio play no part in the graph and are not kept.) */
  datatype SetGame = SetGame(id: int, name: string, genres: set<string>, price: real, rating: Option<real>)

  /** `Game.genre_list`: the genres the game shares with the collection; exactly those. */
  function GenreList(game: SetGame, coll: set<string>): (r: set<string>)
    ensures r <= game.genres && r <= coll
    ensures forall x :: x in game.genres && x in coll ==> x in r
  {
    SharedGenres(game.genres, coll)
  }

  /** `Game.genre_count`: how many genres the game shares with the collection; no more than
      either has. */
  function GenreCount(game: SetGame, coll: set<string>): (n: nat)
    ensures n <= |game.genres| && n <= |coll|
  {
    SharedGenresProps(game.genres, coll);
    |GenreList(game, coll)|
  }

  /** `Game.same_num_game`: whether the two games share at least `totalNeeded` genres. */
  function SameNumGame(game: SetGame, other: SetGame, totalNeeded: int): bool {
    GenreCount(game, other.genres) >= totalNeeded
  }

  /** Sharing genres is symmetric, so `same_num_game` does not depend on which game asks;
      and a smaller requirement is met whenever a larger one is. */
  lemma SameNumGameProps(a: SetGame, b: SetGame, n: int, m: int)
    ensures GenreCount(a, b.genres) == GenreCount(b, a.genres)
    ensures SameNumGame(a, b, n) == SameNumGame(b, a, n)
    ensures m <= n && SameNumGame(a, b, n) ==> SameNumGame(a, b, m)
  {
    SharedGenresProps(a.genres, b.genres);
  }

  /** The rating of a scored game (0 for an unscored one; the operations that compare
      ratings require every game they compare to be scored). */
  function RatingOf(g: SetGame): real {
    if g.rating.Some? then g.rating.value else 0.0
  }

  /** How many genres another game shares with `game`: the measure the similar-games helper
      ranks neighbours by. */
  function SimilarityTo(game: SetGame): SetGame -> real {
    (g: SetGame) => GenreCount(game, g.genres) as real
  }
}
