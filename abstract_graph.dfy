/** The class hierarchy of AbstractGraphVersion.py: an abstract game graph whose `add_game`
    and `add_edge` raise NotImplementedError and which implements `top_games` and
    `node_list`, and its two subclasses. `SimilarGameGraph` stores every game it is given and
    links two nodes that share at least `min_genres_edge` genres; `SimilarGenreGraph` stores
    a game that shares at least `min_genres_game` genres with the user's genre list and links
    any two nodes it is asked to.

    The file defines neither `Game` nor `GameNode`. The model assumes a hashable game with
    the first version's case-sensitive, list-based genre count, which the subclasses' calls
    fit. */
module AbstractGraph {
  import opened Common
  import opened Games
  import opened GraphModel
  import opened Legacy
  import GamesV1

  class AbstractGameGraph {
    var nodes: map<int, Node>

    /** The representation invariant: each node is stored under its game's id. */
    ghost predicate Valid()
      reads this
    {
      forall k :: k in nodes ==> nodes[k].game.id == k
    }

    constructor ()
      ensures Valid() && nodes == map[]
    {
      nodes := map[];
    }

    /** `add_game` of the base class: always raises, changing nothing. */
    method AddGame(game: Game) returns (outcome: Outcome)
      ensures outcome == Fail(NotImplementedError)
    {
      outcome := Fail(NotImplementedError);
    }

    /** `add_edge` of the base class: always raises, changing nothing. */
    method AddEdge(a: int, b: int) returns (outcome: Outcome)
      ensures outcome == Fail(NotImplementedError)
    {
      outcome := Fail(NotImplementedError);
    }

    /** `top_games(total, recorded_games)`: `total` picks, each the highest-rated stored game
        above 0 that is neither recorded nor picked before it (or `None` once there is none),
        every pick added to the recorded set. */
    method TopGames(total: nat, recorded: set<Option<Game>>)
      returns (picks: seq<Option<Game>>, recordedAfter: set<Option<Game>>)
      requires forall k :: k in nodes ==> nodes[k].game.rating.Some?
      ensures |picks| == total
      ensures recordedAfter == recorded + Elems(picks)
      ensures RankedPicks(StoredGames(nodes), RatingOf, recorded, picks)
    {
      picks, recordedAfter := TopPicks(StoredGames(nodes), RatingOf, total, recorded);
    }

    /** `node_list`: one node per stored key. */
    method NodeList() returns (list: seq<Node>, ghost order: seq<int>)
      ensures Distinct(order) && Elems(order) == nodes.Keys
      ensures |list| == |order| == |nodes|
      ensures forall i :: 0 <= i < |list| ==> order[i] in nodes && list[i] == nodes[order[i]]
    {
      list, order := Legacy.NodeList(nodes);
    }
  }

  class SimilarGameGraph {
    const minGenresEdge: int
    const userGame: seq<string>
    var nodes: map<int, Node>

    /** The representation invariants: each node is stored under its game's id, each
        neighbour is a stored node, the user listed some game and the threshold is
        non-negative. */
    ghost predicate Valid()
      reads this
    {
      && (forall k :: k in nodes ==> nodes[k].game.id == k)
      && Closed(nodes)
      && userGame != [] && minGenresEdge >= 0
    }

    constructor (similarGenres: int, userGame: seq<string>)
      requires similarGenres >= 0 && userGame != []
      ensures Valid() && nodes == map[]
      ensures minGenresEdge == similarGenres && this.userGame == userGame
    {
      minGenresEdge := similarGenres;
      this.userGame := userGame;
      nodes := map[];
    }

    /** `add_game`: always stores a fresh node for the game under its id. */
    method AddGame(game: Game)
      requires Valid()
      modifies this
      ensures Valid()
      ensures nodes == old(nodes)[game.id := Vertex(game, [])]
      ensures Symmetric(old(nodes)) && (game.id in old(nodes) ==> old(nodes)[game.id].neighbours == []) ==>
                Symmetric(nodes)
    {
      if Symmetric(nodes) && (game.id in nodes ==> nodes[game.id].neighbours == []) {
        AddNodeKeepsSymmetry(nodes, game.id, Vertex(game, []));
      }
      nodes := nodes[game.id := Vertex(game, [])];
    }

    /** `add_edge(game1, game2)` on the nodes stored under `a` and `b`: links them both ways
        exactly when they share at least `min_genres_edge` genres; otherwise nothing
        changes. */
    method AddEdge(a: int, b: int)
      requires Valid() && a in nodes && b in nodes
      modifies this
      ensures Valid()
      ensures |Genres.Matching(old(nodes)[a].game.genres, old(nodes)[b].game.genres)| >= minGenresEdge ==>
                nodes == Link(old(nodes), a, b)
      ensures |Genres.Matching(old(nodes)[a].game.genres, old(nodes)[b].game.genres)| < minGenresEdge ==>
                nodes == old(nodes)
      ensures Symmetric(old(nodes)) ==> Symmetric(nodes)
    {
      var similarGames := GamesV1.GenreCount(nodes[a].game, nodes[b].game.genres);
      if similarGames >= minGenresEdge {
        LinkKeepsClosed(nodes, a, b);
        if Symmetric(nodes) {
          LinkKeepsSymmetry(nodes, a, b);
        }
        nodes := Link(nodes, a, b);
      }
    }
  }

  class SimilarGenreGraph {
    const genreList: seq<string>
    const minGenresGame: int
    var nodes: map<int, Node>

    /** The representation invariants: each node is stored under its game's id, each
        neighbour is a stored node, the user listed some genre and the threshold is
        non-negative. */
    ghost predicate Valid()
      reads this
    {
      && (forall k :: k in nodes ==> nodes[k].game.id == k)
      && Closed(nodes)
      && genreList != [] && minGenresGame >= 0
    }

    constructor (genreList: seq<string>, minGenresGame: int)
      requires genreList != [] && minGenresGame >= 0
      ensures Valid() && nodes == map[]
      ensures this.genreList == genreList && this.minGenresGame == minGenresGame
    {
      this.genreList := genreList;
      this.minGenresGame := minGenresGame;
      nodes := map[];
    }

    /** `add_game`: stores a fresh node for the game under its id exactly when at least
        `min_genres_game` of its genres are in the user's genre list; otherwise nothing
        changes. */
    method AddGame(game: Game)
      requires Valid()
      modifies this
      ensures Valid()
      ensures |Genres.Matching(game.genres, genreList)| >= minGenresGame ==> nodes == old(nodes)[game.id := Vertex(game, [])]
      ensures |Genres.Matching(game.genres, genreList)| < minGenresGame ==> nodes == old(nodes)
      ensures Symmetric(old(nodes)) && (game.id in old(nodes) ==> old(nodes)[game.id].neighbours == []) ==>
                Symmetric(nodes)
    {
      var gameCount := GamesV1.GenreCount(game, genreList);
      if gameCount >= minGenresGame {
        if Symmetric(nodes) && (game.id in nodes ==> nodes[game.id].neighbours == []) {
          AddNodeKeepsSymmetry(nodes, game.id, Vertex(game, []));
        }
        nodes := nodes[game.id := Vertex(game, [])];
      }
    }

    /** `add_edge(game1, game2)` on the nodes stored under `a` and `b`: always links them both
        ways, keeping the neighbour relation symmetric. */
    method AddEdge(a: int, b: int)
      requires Valid() && a in nodes && b in nodes
      modifies this
      ensures Valid()
      ensures nodes == Link(old(nodes), a, b)
      ensures Symmetric(old(nodes)) ==> Symmetric(nodes)
    {
      LinkKeepsClosed(nodes, a, b);
      if Symmetric(nodes) {
        LinkKeepsSymmetry(nodes, a, b);
      }
      nodes := Link(nodes, a, b);
    }
  }
}
