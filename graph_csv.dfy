/** The version of the engine in game_graph_csv.py: the first version with genre sets in
    place of genre lists and `add_edge` taking game ids. Games are admitted when they share at
    least `min_genres_game` genres with the user's preferred genres, and two distinct stored
    games are linked when they share at least `min_genres_edge` genres.

    As in the first version, `Game` is a plain `@dataclass` and so unhashable: `top_games`
    and `GameNode._helper_top_similar_games` raise TypeError at their first membership test.
    Each is modelled as written and as intended (with hashable games). */
module GraphCsv {
  import opened Common
  import Games
  import opened GraphModel
  import opened Legacy
  import opened SetGames

  /** A node: its game and the ids of its neighbours. */
  type CsvNode = Games.Vertex<SetGame, int>

  class GameGraph {
    const minGenresGame: int
    const minGenresEdge: int
    const userGenres: set<string>
    var nodes: map<int, CsvNode>

    /** The representation invariants: each node is stored under its game's id, each
        neighbour is a stored node, and both thresholds are non-negative. */
    ghost predicate Valid()
      reads this
    {
      && (forall k :: k in nodes ==> nodes[k].game.id == k)
      && Closed(nodes)
      && minGenresGame >= 0 && minGenresEdge >= 0
    }

    constructor (minGenresGame: int, minGenresEdge: int, userGenres: set<string>)
      requires minGenresGame >= 0 && minGenresEdge >= 0
      ensures Valid() && nodes == map[]
      ensures this.minGenresGame == minGenresGame && this.minGenresEdge == minGenresEdge
      ensures this.userGenres == userGenres
    {
      this.minGenresGame := minGenresGame;
      this.minGenresEdge := minGenresEdge;
      this.userGenres := userGenres;
      nodes := map[];
    }

    /** `add_game`: stores a fresh node for the game under its id exactly when it shares at
        least `min_genres_game` genres with the user; otherwise nothing changes. */
    method AddGame(game: SetGame)
      requires Valid()
      modifies this
      ensures Valid()
      ensures GenreCount(game, userGenres) >= minGenresGame ==> nodes == old(nodes)[game.id := Games.Vertex(game, [])]
      ensures GenreCount(game, userGenres) < minGenresGame ==> nodes == old(nodes)
      ensures Symmetric(old(nodes)) && (game.id in old(nodes) ==> old(nodes)[game.id].neighbours == []) ==>
                Symmetric(nodes)
    {
      var gameCount := GenreCount(game, userGenres);
      if gameCount >= minGenresGame {
        if Symmetric(nodes) && (game.id in nodes ==> nodes[game.id].neighbours == []) {
          AddNodeKeepsSymmetry(nodes, game.id, Games.Vertex(game, []));
        }
        nodes := nodes[game.id := Games.Vertex(game, [])];
      }
    }

    /** `add_edge(game1, game2)`: links the two distinct stored games both ways exactly when
        they share at least `min_genres_edge` genres; otherwise nothing changes. */
    method AddEdge(a: int, b: int)
      requires Valid() && a in nodes && b in nodes && a != b
      modifies this
      ensures Valid()
      ensures GenreCount(old(nodes)[a].game, old(nodes)[b].game.genres) >= minGenresEdge ==>
                nodes == Link(old(nodes), a, b)
      ensures GenreCount(old(nodes)[a].game, old(nodes)[b].game.genres) < minGenresEdge ==>
                nodes == old(nodes)
      ensures Symmetric(old(nodes)) ==> Symmetric(nodes)
    {
      var node1, node2 := nodes[a], nodes[b];
      var similarGames := GenreCount(node1.game, node2.game.genres);
      if similarGames >= minGenresEdge {
        LinkKeepsClosed(nodes, a, b);
        if Symmetric(nodes) {
          LinkKeepsSymmetry(nodes, a, b);
        }
        nodes := Link(nodes, a, b);
      }
    }

    /** `top_games(total, recorded_games)` as written: testing a stored game for membership
        in `recorded_games` raises TypeError, so the call raises exactly when it has a game to
        test; on an empty graph it returns `total` times `None`, recording `None`. */
    method TopGamesAsWritten(total: nat, recorded: set<Option<SetGame>>)
      returns (r: Result<seq<Option<SetGame>>>, recordedAfter: set<Option<SetGame>>)
      ensures r.Raise? <==> total > 0 && nodes != map[]
      ensures r.Raise? ==> r.error == TypeError && recordedAfter == recorded
      ensures r.Ok? ==> |r.value| == total && (forall i :: 0 <= i < total ==> r.value[i] == None)
      ensures r.Ok? ==> recordedAfter == recorded + Elems(r.value)
    {
      r, recordedAfter := UnhashablePicks(StoredGames(nodes), total, recorded);
    }

    /** `top_games(total, recorded_games)` with hashable games: `total` picks, each the
        highest-rated stored game above 0 that is neither recorded nor picked before it (or
        `None` once there is none), every pick added to the recorded set. */
    method TopGames(total: nat, recorded: set<Option<SetGame>>)
      returns (picks: seq<Option<SetGame>>, recordedAfter: set<Option<SetGame>>)
      requires forall k :: k in nodes ==> nodes[k].game.rating.Some?
      ensures |picks| == total
      ensures recordedAfter == recorded + Elems(picks)
      ensures RankedPicks(StoredGames(nodes), RatingOf, recorded, picks)
    {
      picks, recordedAfter := TopPicks(StoredGames(nodes), RatingOf, total, recorded);
    }

    /** `GameNode.top_similar_games(total)` on the node stored under `k`, as written: testing a
        neighbour's game for membership in the visited set raises TypeError, so the call
        raises exactly when it has a neighbour to test. */
    method TopSimilarGamesAsWritten(k: int, total: nat) returns (r: Result<seq<Option<SetGame>>>)
      requires Valid() && k in nodes
      ensures r.Raise? <==> Min(total, |nodes[k].neighbours|) > 0
      ensures r.Raise? ==> r.error == TypeError
      ensures r.Ok? ==> r.value == []
    {
      if total == 0 || |nodes[k].neighbours| == 0 {
        return Ok([]);
      }
      return Raise(TypeError);
    }

    /** `GameNode.top_similar_games(total)` on the node stored under `k`, with hashable games
        and the running maximum updated: `min(total, number of neighbours)` picks, each the
        neighbour game sharing the most genres with the node's game among those not picked
        before it and sharing at least one (or `None` once there is none). */
    method TopSimilarGames(k: int, total: nat) returns (picks: seq<Option<SetGame>>)
      requires Valid() && k in nodes
      ensures |picks| == Min(total, |nodes[k].neighbours|)
      ensures RankedPicks(Elems(NeighbourGames(nodes, k)), SimilarityTo(nodes[k].game), {}, picks)
    {
      var visited;
      picks, visited := TopSimilar(NeighbourGames(nodes, k), SimilarityTo(nodes[k].game), total, {});
    }
  }
}
