/** The methods of `Game` in the first version of the engine (older_versions/gamegraph1.py):
    genres are compared as written, case-sensitively, with repeats counted. */
module GamesV1 {
  import opened Genres
  import Games

  /** `Game.genre_list`: the game's genres that occur in the collection, in order and with
      repeats. */
  method GenreList(game: Games.Game, coll: seq<string>) returns (matched: seq<string>)
    ensures matched == Matching(game.genres, coll)
  {
    matched := [];
    for i := 0 to |game.genres|
      invariant matched == Matching(game.genres[..i], coll)
    {
      assert game.genres[..i + 1][..i] == game.genres[..i];
      if game.genres[i] in coll {
        matched := matched + [game.genres[i]];
      }
    }
    assert game.genres[..|game.genres|] == game.genres;
  }

  /** `Game.genre_count`: how many of the game's genres (with repeats) occur in the
      collection; never more than the game has. */
  method GenreCount(game: Games.Game, coll: seq<string>) returns (count: nat)
    ensures count == |Matching(game.genres, coll)|
    ensures count <= |game.genres|
  {
    var matched := GenreList(game, coll);
    MatchingProps(game.genres, coll);
    count := |matched|;
  }

  /** `Game.same_num_game`: whether at least `totalNeeded` of the game's genres occur among
      the other game's. */
  method SameNumGame(game: Games.Game, other: Games.Game, totalNeeded: int) returns (b: bool)
    ensures b <==> |Matching(game.genres, other.genres)| >= totalNeeded
  {
    var count := GenreCount(game, other.genres);
    b := count >= totalNeeded;
  }

  /** How many of `game`'s genres another game shares: the measure the similar-games helper
      ranks neighbours by. */
  function SimilarityTo(game: Games.Game): Games.Game -> real {
    (g: Games.Game) => |Matching(game.genres, g.genres)| as real
  }
}

/** The first version of the engine (older_versions/gamegraph1.py). Games are admitted to the
    graph when they share enough genres with the user's preferred genres, and two nodes are
    linked when they share enough genres with each other; genres are compared as written,
    case-sensitively, with repeats counted.

    `Game` there is a plain `@dataclass`, which makes its instances unhashable, so the
    recursive `top_games` and `GameNode._helper_top_similar_games` raise TypeError as soon as
    they test a game for membership in their set of recorded games. Each is modelled as
    written and as intended (with hashable games). */
module GraphV1 {
  import opened Common
  import opened Genres
  import opened Games
  import opened Order
  import opened Ranking
  import opened GraphModel
  import opened Legacy
  import GamesV1

  // ---- GameGraph ----

  class GameGraph {
    const minGenresGame: int
    const minGenresEdge: int
    const userGenres: seq<string>
    var nodes: map<int, Node>

    /** The representation invariants: each node is stored under its game's id, each
        neighbour is a stored node, and both thresholds are non-negative. */
    ghost predicate Valid()
      reads this
    {
      && (forall k :: k in nodes ==> nodes[k].game.id == k)
      && Closed(nodes)
      && minGenresGame >= 0 && minGenresEdge >= 0
    }

    constructor (minGenresGame: int, minGenresEdge: int, userGenres: seq<string>)
      requires minGenresGame >= 0 && minGenresEdge >= 0
      ensures Valid() && nodes == map[]
      ensures this.minGenresGame == minGenresGame && this.minGenresEdge == minGenresEdge
      ensures this.userGenres == userGenres
    {
      this.minGenresGame := minGenresGame;
      this.minGenresEdge := minGenresEdge;
      this.userGenres := userGenres;
      nodes := map[];
    }

    /** `add_game`: stores a fresh node for the game under its id exactly when at least
        `min_genres_game` of its genres are among the user's; otherwise nothing changes. */
    method AddGame(game: Game)
      requires Valid()
      modifies this
      ensures Valid()
      ensures |Matching(game.genres, userGenres)| >= minGenresGame ==> nodes == old(nodes)[game.id := Vertex(game, [])]
      ensures |Matching(game.genres, userGenres)| < minGenresGame ==> nodes == old(nodes)
      ensures Symmetric(old(nodes)) && (game.id in old(nodes) ==> old(nodes)[game.id].neighbours == []) ==>
                Symmetric(nodes)
    {
      var gameCount := GamesV1.GenreCount(game, userGenres);
      if gameCount >= minGenresGame {
        if Symmetric(nodes) && (game.id in nodes ==> nodes[game.id].neighbours == []) {
          AddNodeKeepsSymmetry(nodes, game.id, Vertex(game, []));
        }
        nodes := nodes[game.id := Vertex(game, [])];
      }
    }

    /** `add_edge(game1, game2)` on the nodes stored under `a` and `b`: links them both ways
        exactly when they share at least `min_genres_edge` genres; otherwise nothing
        changes. */
    method AddEdge(a: int, b: int)
      requires Valid() && a in nodes && b in nodes
      modifies this
      ensures Valid()
      ensures |Matching(old(nodes)[a].game.genres, old(nodes)[b].game.genres)| >= minGenresEdge ==>
                nodes == Link(old(nodes), a, b)
      ensures |Matching(old(nodes)[a].game.genres, old(nodes)[b].game.genres)| < minGenresEdge ==>
                nodes == old(nodes)
      ensures Symmetric(old(nodes)) ==> Symmetric(nodes)
    {
      var similarGames := GamesV1.GenreCount(nodes[a].game, nodes[b].game.genres);
      if similarGames >= minGenresEdge {
        LinkKeepsClosed(nodes, a, b);
        if Symmetric(nodes) {
          LinkKeepsSymmetry(nodes, a, b);
        }
        nodes := Link(nodes, a, b);
      }
    }

    /** `top_games(total, recorded_games)` as written. Testing a stored game for membership
        in `recorded_games` hashes it, which raises TypeError, so the call raises exactly
        when it has a game to test; on an empty graph it returns `total` times `None`,
        recording `None`. */
    method TopGamesAsWritten(total: nat, recorded: set<Option<Game>>)
      returns (r: Result<seq<Option<Game>>>, recordedAfter: set<Option<Game>>)
      ensures r.Raise? <==> total > 0 && nodes != map[]
      ensures r.Raise? ==> r.error == TypeError && recordedAfter == recorded
      ensures r.Ok? ==> |r.value| == total && (forall i :: 0 <= i < total ==> r.value[i] == None)
      ensures r.Ok? ==> recordedAfter == recorded + Elems(r.value)
    {
      r, recordedAfter := UnhashablePicks(StoredGames(nodes), total, recorded);
    }

    /** `top_games(total, recorded_games)` with hashable games: `total` picks, each the
        highest-rated stored game above 0 that is neither recorded nor picked before it (or
        `None` once there is none), every pick added to the recorded set. */
    method TopGames(total: nat, recorded: set<Option<Game>>)
      returns (picks: seq<Option<Game>>, recordedAfter: set<Option<Game>>)
      requires forall k :: k in nodes ==> nodes[k].game.rating.Some?
      ensures |picks| == total
      ensures recordedAfter == recorded + Elems(picks)
      ensures RankedPicks(StoredGames(nodes), RatingOf, recorded, picks)
    {
      picks, recordedAfter := TopPicks(StoredGames(nodes), RatingOf, total, recorded);
    }

    /** `node_list`: one node per stored key. */
    method NodeList() returns (list: seq<Node>, ghost order: seq<int>)
      ensures Distinct(order) && Elems(order) == nodes.Keys
      ensures |list| == |order| == |nodes|
      ensures forall i :: 0 <= i < |list| ==> order[i] in nodes && list[i] == nodes[order[i]]
    {
      list, order := Legacy.NodeList(nodes);
    }

    /** `GameNode.top_similar_games(total)` on the node stored under `k`, as written: testing a
        neighbour's game for membership in the visited set raises TypeError, so the call
        raises exactly when it has a neighbour to test. */
    method TopSimilarGamesAsWritten(k: int, total: nat) returns (r: Result<seq<Option<Game>>>)
      requires Valid() && k in nodes
      ensures r.Raise? <==> Min(total, |nodes[k].neighbours|) > 0
      ensures r.Raise? ==> r.error == TypeError
      ensures r.Ok? ==> r.value == []
    {
      if total == 0 || |nodes[k].neighbours| == 0 {
        return Ok([]);
      }
      return Raise(TypeError);
    }

    /** `GameNode.top_similar_games(total)` on the node stored under `k`, with hashable games
        and the running maximum updated: `min(total, number of neighbours)` picks, each the
        neighbour game sharing the most genres with the node's game among those not picked
        before it and sharing at least one (or `None` once there is none). */
    method TopSimilarGames(k: int, total: nat) returns (picks: seq<Option<Game>>)
      requires Valid() && k in nodes
      ensures |picks| == Min(total, |nodes[k].neighbours|)
      ensures RankedPicks(Elems(NeighbourGames(nodes, k)), GamesV1.SimilarityTo(nodes[k].game), {}, picks)
    {
      var visited;
      picks, visited := TopSimilar(NeighbourGames(nodes, k), GamesV1.SimilarityTo(nodes[k].game), total, {});
    }
  }

  // ---- sort_games ----

  /** The inner loop of `sort_games`, after the pair at `index1` was swapped: moves the game
      now at `index1` left past every strictly lower-rated game. Starting from the list
      `start` it held after the swap, with `start[:index1]` sorted, it leaves
      `games[:index1 + 1]` sorted, the same games as `start`, the rest of the list untouched
      and the ties of `orig` in order. */
  method RaiseSwapped(games: array<Game>, index1: int, ghost orig: seq<Game>)
    requires Raising(orig, games[..], games[..], index1, index1)
    modifies games
    ensures Raising(orig, old(games[..]), games[..], 0, index1)
  {
    ghost var start := games[..];
    var index2 := index1;
    while index2 > 0
      // compared with `true` so that the invariant is checked as one fact, not conjunct by conjunct
      invariant Raising(orig, start, games[..], index2, index1) == true
    {
      ghost var s := games[..];
      if games[index2].rating.value > games[index2 - 1].rating.value {
        Swap(games, index2 - 1);
        RaisingSwaps(orig, start, s, games[..], index2, index1);
      } else {
        RaisingKeeps(orig, start, s, index2, index1);
      }
      index2 := index2 - 1;
    }
  }

  /** `sort_games`: for each adjacent pair out of order it swaps the pair and then moves the
      raised game left past every strictly lower-rated game, leaving the list in
      non-increasing order of rating with games of equal rating in their original order. */
  method SortGames(games: array<Game>)
    requires AllRated(games[..])
    modifies games
    ensures AllRated(games[..]) && Descending(games[..])
    ensures multiset(games[..]) == multiset(old(games[..]))
    ensures SameTies(old(games[..]), games[..])
  {
    ghost var orig := games[..];
    SortingStarts(orig);
    var index1 := 0;
    while index1 < games.Length - 1
      // compared with `true` so that the invariant is checked as one fact, not conjunct by conjunct
      invariant Sorting(orig, games[..], index1) == true
    {
      ghost var s0 := games[..];
      if games[index1].rating.value < games[index1 + 1].rating.value {
        Swap(games, index1);
        ghost var s1 := games[..];
        SortingSwaps(orig, s0, s1, index1);
        RaiseSwapped(games, index1, orig);
        InsertionExtends(orig, s0, s1, games[..], index1);
      } else {
        SortingKeeps(orig, s0, index1);
      }
      index1 := index1 + 1;
    }
    SortingDone(orig, games[..], index1);
  }
}
