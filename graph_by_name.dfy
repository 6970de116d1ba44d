/** The version of the engine in game_graph_1.py: nodes are stored under their game's name,
    a game is admitted when it shares at least `game_total` genres with the user's preferred
    genres, and two stored games are linked when they share any genre.

    The constructor never assigns `user_genres`, so `add_game` raises AttributeError until a
    caller assigns the attribute; the model keeps it as an optional field that callers may
    set. */
module GraphByName {
  import opened Common
  import Games
  import opened GraphModel
  import opened SetGames

  /** A node: its game and the names of its neighbours. */
  type NamedNode = Games.Vertex<SetGame, string>

  class GameGraph {
    const gameTotal: int
    var userGenres: Option<set<string>>
    var nodes: map<string, NamedNode>

    /** The representation invariant: each node is stored under its game's name. */
    ghost predicate Valid()
      reads this
    {
      forall k :: k in nodes ==> nodes[k].game.name == k
    }

    constructor (genres: int)
      ensures Valid() && nodes == map[] && gameTotal == genres && userGenres == None
    {
      gameTotal := genres;
      userGenres := None;
      nodes := map[];
    }

    /** `add_game(node)`: raises AttributeError while `user_genres` is unassigned; otherwise
        stores the node as given under its game's name exactly when the game shares at least
        `game_total` genres with the user, and changes nothing else. */
    method AddGame(node: NamedNode) returns (outcome: Outcome)
      requires Valid()
      modifies this
      ensures Valid() && userGenres == old(userGenres)
      ensures outcome.Fail? <==> userGenres.None?
      ensures outcome.Fail? ==> outcome.error == AttributeError && nodes == old(nodes)
      ensures userGenres.Some? && GenreCount(node.game, userGenres.value) >= gameTotal ==>
                nodes == old(nodes)[node.game.name := node]
      ensures userGenres.Some? && GenreCount(node.game, userGenres.value) < gameTotal ==>
                nodes == old(nodes)
    {
      if userGenres.None? {
        return Fail(AttributeError);
      }
      var gameCount := GenreCount(node.game, userGenres.value);
      if gameCount >= gameTotal {
        nodes := nodes[node.game.name := node];
      }
      outcome := Done;
    }

    /** `add_edge(game1, game2)`: links the two stored games both ways exactly when they share
        at least one genre; otherwise nothing changes. */
    method AddEdge(a: string, b: string)
      requires Valid() && a in nodes && b in nodes
      modifies this
      ensures Valid() && userGenres == old(userGenres)
      ensures GenreCount(old(nodes)[a].game, old(nodes)[b].game.genres) != 0 ==> nodes == Link(old(nodes), a, b)
      ensures GenreCount(old(nodes)[a].game, old(nodes)[b].game.genres) == 0 ==> nodes == old(nodes)
      ensures Symmetric(old(nodes)) ==> Symmetric(nodes)
    {
      var node1, node2 := nodes[a], nodes[b];
      var similarGames := GenreCount(node1.game, node2.game.genres);
      if similarGames != 0 {
        if Symmetric(nodes) {
          LinkKeepsSymmetry(nodes, a, b);
        }
        nodes := Link(nodes, a, b);
      }
    }
  }
}
