/** The `GameGraph` class of the current engine (game_graph.py). The graph's dictionary of
    nodes is a map from game id to node value; a node names its neighbours by id, and
    `_user_nodes`, whose values are always the very nodes stored in `_nodes`, is the set of
    their ids. Loops over a dictionary or a set take the keys in an order that is left open. */
module Engine {
  import opened Common
  import opened Genres
  import opened Games
  import opened Scoring
  import opened Order
  import opened Ranking
  import opened GraphModel

  class GameGraph {
    const userGameIds: seq<int>
    const userGameGenres: seq<string>
    const userMaxPrice: real
    var nodes: map<int, Node>
    var userNodes: set<int>

    ghost predicate Valid()
      reads this
    {
      WellFormed(nodes, userNodes, userGameIds) && userMaxPrice >= 0.0
    }

    constructor(userGameIds: seq<int>, userGameGenres: seq<string>, userMaxPrice: real)
      requires userMaxPrice >= 0.0
      ensures Valid() && nodes == map[] && userNodes == {}
      ensures this.userGameIds == userGameIds && this.userGameGenres == userGameGenres
      ensures this.userMaxPrice == userMaxPrice
    {
      this.userGameIds := userGameIds;
      this.userGameGenres := userGameGenres;
      this.userMaxPrice := userMaxPrice;
      nodes := map[];
      userNodes := {};
    }

    /** `add_game`: stores a fresh node for the game under its id, replacing any node stored
        there, and records it as a user node when the user listed its id. The neighbour
        relation stays symmetric unless a node that had neighbours is replaced. */
    method AddGame(game: Game)
      requires Valid() && ValidGame(game)
      modifies this
      ensures Valid()
      ensures nodes == old(nodes)[game.id := Vertex(game, [])]
      ensures userNodes == if game.id in userGameIds then old(userNodes) + {game.id} else old(userNodes)
      ensures Symmetric(old(nodes)) && (game.id in old(nodes) ==> old(nodes)[game.id].neighbours == []) ==>
                Symmetric(nodes)
    {
      if Symmetric(nodes) && (game.id in nodes ==> nodes[game.id].neighbours == []) {
        AddNodeKeepsSymmetry(nodes, game.id, Vertex(game, []));
      }
      nodes := nodes[game.id := Vertex(game, [])];
      if game.id in userGameIds {
        userNodes := userNodes + {game.id};
      }
    }

    /** `add_edge(game1, user_node)` on the nodes stored under `other` and `user`. */
    method AddEdge(other: int, user: int)
      requires Valid() && other in nodes && user in userNodes
      modifies this
      ensures Valid() && userNodes == old(userNodes)
      ensures nodes == Link(old(nodes), other, user)
      ensures Symmetric(old(nodes)) ==> Symmetric(nodes)
    {
      LinkKeepsWellFormed(nodes, userNodes, userGameIds, other, user);
      if Symmetric(nodes) {
        LinkKeepsSymmetry(nodes, other, user);
      }
      nodes := Link(nodes, other, user);
    }

    /** `add_all_edges`: joins every user node to every other stored node, appending to both
        neighbour lists. Afterwards each node's list holds, beyond what it held before, every
        other stored node when it is a user node, and every user node other than itself. */
    method AddAllEdges()
      requires Valid()
      modifies this
      ensures Valid() && userNodes == old(userNodes)
      ensures EdgesGrown(old(nodes), nodes, userNodes)
      ensures Symmetric(old(nodes)) ==> Symmetric(nodes)
    {
      forall k | k in userNodes ensures k in nodes.Keys {
      }
      var pending := userNodes;
      ghost var done: set<int> := {};
      while pending != {}
        invariant Valid() && userNodes == old(userNodes)
        invariant pending + done == userNodes && pending !! done
        invariant EdgesGrown(old(nodes), nodes, done)
        decreases pending
      {
        var user := Choose(pending);
        ghost var before := nodes;
        AddEdgesOf(user);
        EdgesGrow(old(nodes), before, nodes, done, user);
        pending := pending - {user};
        done := done + {user};
      }
      if Symmetric(old(nodes)) {
        EdgesKeepSymmetry(old(nodes), nodes, userNodes);
      }
    }

    /** The inner loop of `add_all_edges` for one user node: an edge to every other stored
        node. */
    method AddEdgesOf(user: int)
      requires Valid() && user in userNodes
      modifies this
      ensures Valid() && userNodes == old(userNodes)
      ensures RoundGrown(old(nodes), nodes, user, nodes.Keys)
    {
      var others := nodes.Keys;
      ghost var seen: set<int> := {};
      while others != {}
        invariant userNodes == old(userNodes)
        invariant others + seen == nodes.Keys && others !! seen
        invariant RoundGrown(old(nodes), nodes, user, seen)
        decreases others
      {
        var other := Choose(others);
        Visit(user, other, old(nodes), seen);
        others := others - {other};
        seen := seen + {other};
      }
      RoundKeepsWellFormed(old(nodes), nodes, user, seen, userNodes, userGameIds);
    }

    /** One pass of that inner loop: `if user_node != other_node: add_edge(...)`. */
    method Visit(user: int, other: int, ghost start: map<int, Node>, ghost seen: set<int>)
      requires WellFormed(start, userNodes, userGameIds) && userMaxPrice >= 0.0
      requires user in userNodes && other in nodes && other !in seen && seen <= nodes.Keys
      requires RoundGrown(start, nodes, user, seen)
      modifies this
      ensures userNodes == old(userNodes) && nodes.Keys == old(nodes).Keys
      ensures RoundGrown(start, nodes, user, seen + {other})
    {
      RoundKeepsWellFormed(start, nodes, user, seen, userNodes, userGameIds);
      RoundGrows(start, nodes, user, seen, other);
      if user != other {
        AddEdge(other, user);
      }
    }

    // ---- catalogue maxima and the user's genres ----

    /** `max_price`: the highest price among the stored games, and 0.0 when none is positive. */
    method MaxPrice() returns (maxSoFar: real)
      ensures maxSoFar == MaxPriceOver(nodes, nodes.Keys)
    {
      maxSoFar := 0.0;
      var pending := nodes.Keys;
      while pending != {}
        invariant pending <= nodes.Keys
        invariant IsMaxPrice(nodes, nodes.Keys - pending, maxSoFar)
        decreases pending
      {
        var k := Choose(pending);
        if nodes[k].game.price > maxSoFar {
          maxSoFar := nodes[k].game.price;
        }
        pending := pending - {k};
      }
      MaxPriceUnique(nodes, nodes.Keys, maxSoFar);
    }

    /** `max_positive_ratio`: the highest positive ratio among the stored games, and 0 when
        none is positive. */
    method MaxPositiveRatio() returns (maxSoFar: int)
      ensures maxSoFar == MaxRatioOver(nodes, nodes.Keys)
    {
      maxSoFar := 0;
      var pending := nodes.Keys;
      while pending != {}
        invariant pending <= nodes.Keys
        invariant IsMaxRatio(nodes, nodes.Keys - pending, maxSoFar)
        decreases pending
      {
        var k := Choose(pending);
        if nodes[k].game.positiveRatio > maxSoFar {
          maxSoFar := nodes[k].game.positiveRatio;
        }
        pending := pending - {k};
      }
      MaxRatioUnique(nodes, nodes.Keys, maxSoFar);
    }

    /** `user_genres`: every genre of a user node's game, each listed once. */
    method UserGenres() returns (genres: seq<string>)
      requires Valid()
      ensures Distinct(genres)
      ensures Elems(genres) == UserGenreSet(nodes, userNodes)
    {
      genres := [];
      var pending := userNodes;
      ghost var done: set<int> := {};
      while pending != {}
        invariant pending + done == userNodes && pending !! done
        invariant Distinct(genres) && Elems(genres) == UserGenreSet(nodes, done)
        decreases pending
      {
        var k := Choose(pending);
        var own := nodes[k].game.genres;
        for i := 0 to |own|
          invariant Distinct(genres)
          invariant Elems(genres) == UserGenreSet(nodes, done) + Elems(own[..i])
        {
          assert own[..i + 1] == own[..i] + [own[i]];
          assert Elems(own[..i + 1]) == Elems(own[..i]) + {own[i]};
          assert Elems(genres + [own[i]]) == Elems(genres) + {own[i]};
          if own[i] !in genres {
            genres := genres + [own[i]];
          }
        }
        assert own[..|own|] == own;
        assert UserGenreSet(nodes, done + {k}) == UserGenreSet(nodes, done) + Elems(own);
        pending := pending - {k};
        done := done + {k};
      }
    }

    // ---- scores ----

    /** `compute_score_game`: rates the game of node `k` with its game-mode score. The source
        divides by the largest ratio, the number of user nodes and the number of user genres,
        so it raises ZeroDivisionError, before changing anything, exactly when the graph is
        not scorable. */
    method ComputeScoreGame(k: int) returns (outcome: Outcome)
      requires Valid() && k in nodes && userGameIds != []
      modifies this
      ensures Valid() && userNodes == old(userNodes)
      ensures outcome.Fail? <==> !Scorable(old(nodes), userNodes, userGameIds, userGameGenres)
      ensures outcome.Fail? ==> outcome.error == ZeroDivisionError && nodes == old(nodes)
      ensures outcome.Done? ==>
                nodes == old(nodes)[k := Rated(old(nodes)[k], ScoreOf(old(nodes), userNodes, userGameIds, userGameGenres, userMaxPrice, k))]
    {
      var userGenres := UserGenres();
      var node := nodes[k];
      var maxPrice := MaxPrice();
      var maxRatio := MaxPositiveRatio();
      if maxRatio == 0 || |userNodes| == 0 {
        return Fail(ZeroDivisionError);
      }
      UserGenresNonEmpty(nodes, userNodes, userGameIds);
      DistinctCard(userGenres);
      var unionOverlap := GenreCount(node.game, userGenres);
      var statedOverlap := GenreCount(node.game, userGameGenres);
      var score := GameModeScore(node.game, |node.neighbours|, |userNodes|, unionOverlap, |userGenres|,
                                 statedOverlap, maxPrice, maxRatio, userMaxPrice);
      RatingKeepsWellFormed(nodes, userNodes, userGameIds, userGameGenres, userMaxPrice, k);
      nodes := nodes[k := Rated(node, score)];
      outcome := Done;
    }

    /** `compute_score_genre`: rates the game of node `k` with its genre-mode score. Its guard
        on the preferred genres never fails, so it raises ZeroDivisionError, before changing
        anything, exactly when the preferred-genre list is empty or no game has a positive
        ratio. */
    method ComputeScoreGenre(k: int) returns (outcome: Outcome)
      requires Valid() && k in nodes && userGameIds == []
      modifies this
      ensures Valid() && userNodes == old(userNodes)
      ensures outcome.Fail? <==> !Scorable(old(nodes), userNodes, userGameIds, userGameGenres)
      ensures outcome.Fail? ==> outcome.error == ZeroDivisionError && nodes == old(nodes)
      ensures outcome.Done? ==>
                nodes == old(nodes)[k := Rated(old(nodes)[k], ScoreOf(old(nodes), userNodes, userGameIds, userGameGenres, userMaxPrice, k))]
    {
      var maxPrice := MaxPrice();
      var maxRatio := MaxPositiveRatio();
      var node := nodes[k];
      var statedOverlap := GenreCount(node.game, userGameGenres);
      var genreScore := GenreTermAsWritten(statedOverlap, userGameGenres);
      if genreScore.Raise? {
        return Fail(genreScore.error);
      }
      if maxRatio == 0 {
        return Fail(ZeroDivisionError);
      }
      var ratePrice := RatePrice(node.game.positiveRatio, maxRatio, node.game.price, maxPrice);
      var score := if node.game.price > userMaxPrice then 0.0 else genreScore.value + ratePrice;
      GenreGuardFinding(statedOverlap, userGameGenres);
      RatingKeepsWellFormed(nodes, userNodes, userGameIds, userGameGenres, userMaxPrice, k);
      nodes := nodes[k := Rated(node, score)];
      outcome := Done;
    }

    /** `compute_score`: the genre-mode score when the user listed no played games, the
        game-mode score otherwise. */
    method ComputeScore(k: int) returns (outcome: Outcome)
      requires Valid() && k in nodes
      modifies this
      ensures Valid() && userNodes == old(userNodes)
      ensures outcome.Fail? <==> !Scorable(old(nodes), userNodes, userGameIds, userGameGenres)
      ensures outcome.Fail? ==> outcome.error == ZeroDivisionError && nodes == old(nodes)
      ensures outcome.Done? ==>
                nodes == old(nodes)[k := Rated(old(nodes)[k], ScoreOf(old(nodes), userNodes, userGameIds, userGameGenres, userMaxPrice, k))]
    {
      if userGameIds == [] {
        outcome := ComputeScoreGenre(k);
      } else {
        outcome := ComputeScoreGame(k);
      }
    }

    /** `assign_all_scores`: rates every stored game with its score. Scores read no rating, so
        the order of the nodes does not matter; the call raises, leaving the graph as it was,
        exactly when the graph has nodes but is not scorable. */
    method AssignAllScores() returns (outcome: Outcome)
      requires Valid()
      modifies this
      ensures Valid() && userNodes == old(userNodes)
      ensures outcome.Fail? <==> old(nodes).Keys != {} && !Scorable(old(nodes), userNodes, userGameIds, userGameGenres)
      ensures outcome.Fail? ==> outcome.error == ZeroDivisionError && nodes == old(nodes)
      ensures outcome.Done? ==>
                nodes == ScoredGraph(old(nodes), userNodes, userGameIds, userGameGenres, userMaxPrice)
      ensures outcome.Done? ==> Scored(nodes)
    {
      var pending := nodes.Keys;
      outcome := Done;
      while pending != {}
        invariant Valid() && userNodes == old(userNodes)
        invariant PartlyScored(old(nodes), nodes, pending, userNodes, userGameIds, userGameGenres, userMaxPrice)
        invariant outcome == Done
        decreases pending
      {
        var k := Choose(pending);
        ghost var cur := nodes;
        outcome := ComputeScore(k);
        if outcome.Fail? {
          ScoringFails(old(nodes), cur, pending, userNodes, userGameIds, userGameGenres, userMaxPrice, k);
          return;
        }
        ScoringStep(old(nodes), cur, pending, userNodes, userGameIds, userGameGenres, userMaxPrice, k);
        pending := pending - {k};
      }
      ScoringDone(old(nodes), nodes, userNodes, userGameIds, userGameGenres, userMaxPrice);
    }

    // ---- recommendations ----

    /** `top_games` as written. Its loop runs while fewer than `total` games are picked OR the
        pool is empty, so once the pool runs dry it asks `highest_scoring_game` for a game of
        the empty pool and removes the `None` it returns, which raises KeyError: the call
        raises exactly when `total` is at least the number of stored games. Otherwise it
        returns `total` games, a top selection of the stored games, best first. */
    method TopGamesAsWritten(total: nat) returns (r: Result<seq<Game>>)
      requires Valid() && Scored(nodes)
      ensures r.Raise? <==> total >= |nodes|
      ensures r.Raise? ==> r.error == KeyError
      ensures r.Ok? ==> |r.value| == total && IsTopOf(GamesOf(nodes, nodes.Keys), r.value)
      ensures r.Ok? ==> AllRated(r.value) && Descending(r.value)
    {
      var possible := set k | k in nodes :: nodes[k].game;
      assert possible == GamesOf(nodes, nodes.Keys);
      ScoredRatings(nodes, userNodes, userGameIds, possible);
      GamesOfCard(nodes, nodes.Keys);
      r := SelectAllAsWritten(possible, total);
    }

    /** `top_games` with the loop guard its docstring intends (`and`, `!= 0`): the
        `min(total, number of stored games)` highest-rated stored games, best first. */
    method TopGames(total: nat) returns (r: seq<Game>)
      requires Valid() && Scored(nodes)
      ensures |r| == Min(total, |nodes|)
      ensures IsTopOf(GamesOf(nodes, nodes.Keys), r)
      ensures AllRated(r) && Descending(r)
    {
      var possible := set k | k in nodes :: nodes[k].game;
      assert possible == GamesOf(nodes, nodes.Keys);
      ScoredRatings(nodes, userNodes, userGameIds, possible);
      GamesOfCard(nodes, nodes.Keys);
      assert possible - {} == possible;
      r := SelectTop(possible, {}, total);
    }

    /** The first loop of `highest_scoring_games`: the games of the neighbours of the user
        nodes. (Its membership test compares a node with a set of games, so it always
        passes; adding a game already in the set changes nothing.) */
    method NeighbourGames() returns (possible: set<Game>)
      requires Valid()
      ensures possible == NeighbourPool(nodes, userNodes)
    {
      possible := {};
      var pending := userNodes;
      ghost var done: set<int> := {};
      while pending != {}
        invariant pending + done == userNodes && pending !! done
        invariant possible == NeighbourPool(nodes, done)
        decreases pending
      {
        var k := Choose(pending);
        var neighbours := nodes[k].neighbours;
        assert forall m :: m in neighbours ==> m in nodes;
        for i := 0 to |neighbours|
          invariant forall m :: m in neighbours ==> m in nodes
          invariant possible == NeighbourPool(nodes, done) + GamesOf(nodes, Elems(neighbours[..i]))
        {
          assert Elems(neighbours[..i + 1]) == Elems(neighbours[..i]) + {neighbours[i]};
          GamesOfInsert(nodes, Elems(neighbours[..i]), neighbours[i]);
          possible := possible + {nodes[neighbours[i]].game};
        }
        assert neighbours[..|neighbours|] == neighbours;
        assert NeighbourPool(nodes, done + {k}) == NeighbourPool(nodes, done) + GamesOf(nodes, Elems(neighbours));
        pending := pending - {k};
        done := done + {k};
      }
    }

    /** `highest_scoring_games`: when the user nodes have neighbours, the
        `min(total, number of candidates)` highest-rated games among the games of those
        neighbours that are not the user's own, best first; otherwise what `top_games` as
        written gives, so it raises KeyError exactly when `totalGames` is at least the number
        of stored games. */
    method HighestScoringGames(totalGames: nat) returns (r: Result<seq<Game>>)
      requires Valid() && Scored(nodes)
      ensures var unowned := NeighbourPool(nodes, userNodes) - GamesOf(nodes, userNodes);
              NeighbourPool(nodes, userNodes) != {} ==>
                r.Ok? && |r.value| == Min(totalGames, |unowned|) && IsTopOf(unowned, r.value)
      ensures NeighbourPool(nodes, userNodes) == {} ==>
                && (r.Raise? <==> totalGames >= |nodes|)
                && (r.Raise? ==> r.error == KeyError)
                && (r.Ok? ==> |r.value| == totalGames && IsTopOf(GamesOf(nodes, nodes.Keys), r.value))
      ensures r.Ok? ==> AllRated(r.value) && Descending(r.value)
    {
      var possible := NeighbourGames();
      assert possible <= GamesOf(nodes, nodes.Keys);
      ScoredRatings(nodes, userNodes, userGameIds, possible);
      if possible != {} {
        var userGames := set k | k in userNodes :: nodes[k].game;
        assert userGames == GamesOf(nodes, userNodes);
        var picked := SelectTop(possible, userGames, totalGames);
        r := Ok(picked);
      } else {
        r := TopGamesAsWritten(totalGames);
      }
    }

    /** `highest_scoring_games` with the loop guard of `top_games` corrected: the same picks
        when the user nodes have neighbours, otherwise the `min(total, number of stored games)`
        highest-rated stored games; it never raises. */
    method HighestScoringGamesCorrected(totalGames: nat) returns (r: seq<Game>)
      requires Valid() && Scored(nodes)
      ensures var unowned := NeighbourPool(nodes, userNodes) - GamesOf(nodes, userNodes);
              NeighbourPool(nodes, userNodes) != {} ==> |r| == Min(totalGames, |unowned|) && IsTopOf(unowned, r)
      ensures NeighbourPool(nodes, userNodes) == {} ==>
                |r| == Min(totalGames, |nodes|) && IsTopOf(GamesOf(nodes, nodes.Keys), r)
      ensures AllRated(r) && Descending(r)
    {
      var possible := NeighbourGames();
      assert possible <= GamesOf(nodes, nodes.Keys);
      ScoredRatings(nodes, userNodes, userGameIds, possible);
      if possible != {} {
        var userGames := set k | k in userNodes :: nodes[k].game;
        assert userGames == GamesOf(nodes, userNodes);
        r := SelectTop(possible, userGames, totalGames);
      } else {
        r := TopGames(totalGames);
      }
    }
  }
}
