/** A value-level description of the current engine's graph (game_graph.py): the invariants
    of `GameGraph` and `GameNode`, the edge operation, the catalogue maxima, the user's genres
    and the score each node's game receives. The `GameGraph` class of the Engine module is
    proved against these definitions. */
module GraphModel {
  import opened Common
  import opened Genres
  import opened Games
  import opened Scoring

  /** The representation invariants of `GameGraph`, with those of `Game` for every stored
      game: each node is stored under its game's id, each neighbour id names a stored node, and
      the user nodes are exactly the stored games whose id the user listed. */
  ghost predicate WellFormed(nodes: map<int, Node>, userNodes: set<int>, userGameIds: seq<int>) {
    && (forall k :: k in nodes ==> nodes[k].game.id == k && ValidGame(nodes[k].game))
    && Closed(nodes)
    && (forall k :: k in userNodes <==> k in nodes && k in userGameIds)
  }

  /** Every neighbour key names a stored node. */
  ghost predicate Closed<G, K(!new)>(nodes: map<K, Vertex<G, K>>) {
    forall k, m :: k in nodes && m in nodes[k].neighbours ==> m in nodes
  }

  /** The representation invariant of `GameNode`: every node is among the neighbours of each
      of its neighbours. */
  ghost predicate Symmetric<G, K(!new)>(nodes: map<K, Vertex<G, K>>) {
    forall k, m :: Adjacent(nodes, k, m) ==> Adjacent(nodes, m, k)
  }

  /** Node `m` is among the neighbours of stored node `k`. */
  ghost predicate Adjacent<G, K>(nodes: map<K, Vertex<G, K>>, k: K, m: K) {
    k in nodes && m in nodes[k].neighbours
  }

  /** `{b}` as a multiset when `k` is `a`, empty otherwise: what an edge `a`-`b` adds to the
      neighbour list of `k`. */
  function EndOf<K(==)>(k: K, a: K, b: K): multiset<K> {
    if k == a then multiset{b} else multiset{}
  }

  /** `add_edge(game1, user_node)`: `user_node` is appended to the neighbours of `game1`, then
      `game1` to those of `user_node` (twice to the same list when the two are one node). */
  function Link<G, K(==)>(nodes: map<K, Vertex<G, K>>, a: K, b: K): (r: map<K, Vertex<G, K>>)
    requires a in nodes && b in nodes
    ensures r.Keys == nodes.Keys
    ensures forall k :: k in r ==> r[k].game == nodes[k].game && nodes[k].neighbours <= r[k].neighbours
    ensures forall k :: k in r ==>
              multiset(r[k].neighbours) == multiset(nodes[k].neighbours) + EndOf(k, a, b) + EndOf(k, b, a)
  {
    var first := nodes[a := Vertex(nodes[a].game, nodes[a].neighbours + [b])];
    first[b := Vertex(first[b].game, first[b].neighbours + [a])]
  }

  /** An edge keeps the neighbour relation symmetric. */
  lemma LinkKeepsSymmetry<G, K(!new)>(nodes: map<K, Vertex<G, K>>, a: K, b: K)
    requires a in nodes && b in nodes && Symmetric(nodes)
    ensures Symmetric(Link(nodes, a, b))
  {
    var r := Link(nodes, a, b);
    forall k, m | Adjacent(r, k, m)
      ensures Adjacent(r, m, k)
    {
      assert m in multiset(r[k].neighbours);
      if m !in nodes[k].neighbours {
        assert (k == a && m == b) || (k == b && m == a);
        assert k in multiset(r[m].neighbours);
      } else {
        assert Adjacent(nodes, k, m);
      }
    }
  }

  /** An edge between stored nodes keeps the graph well formed. */
  lemma LinkKeepsWellFormed(nodes: map<int, Node>, userNodes: set<int>, userGameIds: seq<int>, a: int, b: int)
    requires a in nodes && b in nodes && WellFormed(nodes, userNodes, userGameIds)
    ensures WellFormed(Link(nodes, a, b), userNodes, userGameIds)
  {
    LinkKeepsClosed(nodes, a, b);
  }

  /** An edge between stored nodes only adds keys of stored nodes to neighbour lists. */
  lemma LinkKeepsClosed<G, K(!new)>(nodes: map<K, Vertex<G, K>>, a: K, b: K)
    requires a in nodes && b in nodes && Closed(nodes)
    ensures Closed(Link(nodes, a, b))
  {
    var r := Link(nodes, a, b);
    forall k, m | k in r && m in r[k].neighbours ensures m in r {
      assert m in multiset(r[k].neighbours);
      if m !in nodes[k].neighbours {
        assert m == a || m == b;
      }
    }
  }

  /** How many times `add_all_edges`, after the rounds of the user nodes in `done`, has
      appended `m` to the neighbours of node `k`: once when `k` is a handled user node and `m`
      another stored node, and once more when `m` is a handled user node other than `k`. */
  function EdgeCount(keys: set<int>, done: set<int>, k: int, m: int): nat {
    (if k in done && m in keys && m != k then 1 else 0) + (if m in done && m != k then 1 else 0)
  }

  /** How many times the round of user node `u`, after visiting the nodes in `seen`, has
      appended `m` to the neighbours of node `k`. */
  function RoundCount(u: int, seen: set<int>, k: int, m: int): nat {
    (if k == u && m in seen && m != u then 1 else 0) + (if k in seen && k != u && m == u then 1 else 0)
  }

  /** `b` is `a` with the round of user node `u` done over the nodes `seen`: the same nodes and
      games, every neighbour list extended at its end by what that round appends. */
  ghost predicate RoundGrown(a: map<int, Node>, b: map<int, Node>, u: int, seen: set<int>) {
    && a.Keys == b.Keys
    && forall k :: k in b ==>
         && b[k].game == a[k].game
         && a[k].neighbours <= b[k].neighbours
         && forall m :: multiset(b[k].neighbours)[m] == multiset(a[k].neighbours)[m] + RoundCount(u, seen, k, m)
  }

  /** A round only appends stored nodes, so it keeps the graph well formed. */
  lemma RoundKeepsWellFormed(a: map<int, Node>, b: map<int, Node>, u: int, seen: set<int>,
                             userNodes: set<int>, userGameIds: seq<int>)
    requires RoundGrown(a, b, u, seen) && WellFormed(a, userNodes, userGameIds)
    requires u in a && seen <= a.Keys
    ensures WellFormed(b, userNodes, userGameIds)
  {
    forall k, m | k in b && m in b[k].neighbours ensures m in b {
      assert multiset(b[k].neighbours)[m] > 0;
      if m !in a[k].neighbours {
        assert RoundCount(u, seen, k, m) > 0;
      }
    }
  }

  /** One step of the inner loop of `add_all_edges`: the edge to node `o` unless it is `u`. */
  lemma RoundGrows(a: map<int, Node>, b: map<int, Node>, u: int, seen: set<int>, o: int)
    requires RoundGrown(a, b, u, seen) && o !in seen && u in b && o in b
    ensures RoundGrown(a, if o != u then Link(b, o, u) else b, u, seen + {o})
  {
    var c := if o != u then Link(b, o, u) else b;
    forall k | k in c
      ensures a[k].neighbours <= c[k].neighbours
      ensures forall m :: multiset(c[k].neighbours)[m] == multiset(a[k].neighbours)[m] + RoundCount(u, seen + {o}, k, m)
    {
      assert a[k].neighbours <= b[k].neighbours <= c[k].neighbours;
      forall m ensures multiset(c[k].neighbours)[m] == multiset(a[k].neighbours)[m] + RoundCount(u, seen + {o}, k, m) {
        RoundCountStep(u, seen, o, k, m);
        assert multiset(b[k].neighbours)[m] == multiset(a[k].neighbours)[m] + RoundCount(u, seen, k, m);
      }
    }
  }

  /** What visiting node `o` adds to the round's count for node `k` and neighbour `m`: the
      two ends of the edge `o`-`u`, unless `o` is `u` itself. */
  lemma RoundCountStep(u: int, seen: set<int>, o: int, k: int, m: int)
    requires o !in seen
    ensures RoundCount(u, seen + {o}, k, m)
            == RoundCount(u, seen, k, m) + (if o != u then EndOf(k, o, u)[m] + EndOf(k, u, o)[m] else 0)
  {
  }

  /** `b` is `a` after the rounds of the user nodes in `done`. */
  ghost predicate EdgesGrown(a: map<int, Node>, b: map<int, Node>, done: set<int>) {
    && a.Keys == b.Keys
    && forall k :: k in b ==>
         && b[k].game == a[k].game
         && a[k].neighbours <= b[k].neighbours
         && forall m :: multiset(b[k].neighbours)[m] == multiset(a[k].neighbours)[m] + EdgeCount(b.Keys, done, k, m)
  }

  /** `add_all_edges` on a graph without edges: no node becomes its own neighbour, a node
      that is not a user node gets each user node as a neighbour exactly once and nothing
      else, and a user node gets every other node once and every other user node once more
      (once from its own round and once from the other's). */
  lemma EdgesOnFreshGraph(a: map<int, Node>, b: map<int, Node>, users: set<int>)
    requires EdgesGrown(a, b, users) && users <= a.Keys
    requires forall k :: k in a ==> a[k].neighbours == []
    ensures forall k :: k in b ==> k !in b[k].neighbours
    ensures forall k, m :: k in b && k !in users ==>
              multiset(b[k].neighbours)[m] == (if m in users then 1 else 0)
    ensures forall k, m :: k in users ==>
              multiset(b[k].neighbours)[m] ==
                (if m in b && m != k then 1 else 0) + (if m in users && m != k then 1 else 0)
  {
    forall k | k in b ensures k !in b[k].neighbours {
      assert multiset(b[k].neighbours)[k] == 0;
    }
  }

  /** A finished round of one more user node. */
  lemma EdgesGrow(a: map<int, Node>, b: map<int, Node>, c: map<int, Node>, done: set<int>, u: int)
    requires EdgesGrown(a, b, done) && RoundGrown(b, c, u, b.Keys) && u !in done && u in b
    ensures EdgesGrown(a, c, done + {u})
  {
    forall k | k in c
      ensures a[k].neighbours <= c[k].neighbours
      ensures forall m :: multiset(c[k].neighbours)[m] == multiset(a[k].neighbours)[m] + EdgeCount(c.Keys, done + {u}, k, m)
    {
      assert a[k].neighbours <= b[k].neighbours <= c[k].neighbours;
      forall m ensures multiset(c[k].neighbours)[m] == multiset(a[k].neighbours)[m] + EdgeCount(c.Keys, done + {u}, k, m) {
        assert multiset(c[k].neighbours)[m] == multiset(b[k].neighbours)[m] + RoundCount(u, b.Keys, k, m);
        assert multiset(b[k].neighbours)[m] == multiset(a[k].neighbours)[m] + EdgeCount(b.Keys, done, k, m);
        EdgeCountStep(b.Keys, done, u, k, m);
      }
    }
  }

  /** What the round of user node `u` adds to the count for node `k` and neighbour `m`. */
  lemma EdgeCountStep(keys: set<int>, done: set<int>, u: int, k: int, m: int)
    requires u !in done && k in keys
    ensures EdgeCount(keys, done + {u}, k, m) == EdgeCount(keys, done, k, m) + RoundCount(u, keys, k, m)
  {
  }

  /** The rounds of `add_all_edges` keep the neighbour relation symmetric. */
  lemma EdgesKeepSymmetry(a: map<int, Node>, b: map<int, Node>, users: set<int>)
    requires EdgesGrown(a, b, users) && users <= a.Keys && Symmetric(a)
    requires forall k, m :: k in a && m in a[k].neighbours ==> m in a
    ensures Symmetric(b)
  {
    forall k, m | Adjacent(b, k, m) ensures Adjacent(b, m, k) {
      assert multiset(b[k].neighbours)[m] > 0;
      if m in a[k].neighbours {
        assert Adjacent(a, m, k);
        assert multiset(a[m].neighbours)[k] > 0;
      } else {
        assert EdgeCount(b.Keys, users, k, m) > 0;
        assert EdgeCount(b.Keys, users, m, k) > 0;
      }
      assert multiset(b[m].neighbours)[k] > 0;
    }
  }

  /** Storing a fresh node under `id` keeps the relation symmetric when the node it replaces,
      if any, had no neighbours. */
  lemma AddNodeKeepsSymmetry<G, K(!new)>(nodes: map<K, Vertex<G, K>>, id: K, node: Vertex<G, K>)
    requires Symmetric(nodes) && node.neighbours == []
    requires id in nodes ==> nodes[id].neighbours == []
    ensures Symmetric(nodes[id := node])
  {
    var r := nodes[id := node];
    forall k, m | Adjacent(r, k, m) ensures Adjacent(r, m, k) {
      assert Adjacent(nodes, k, m);
      assert Adjacent(nodes, m, k);
    }
  }

  // ---- catalogue maxima ----

  /** `r` is what `max_price` returns over the nodes `keys`: the largest price, or 0.0 when no
      price is positive. */
  ghost predicate IsMaxPrice(nodes: map<int, Node>, keys: set<int>, r: real)
    requires keys <= nodes.Keys
  {
    && r >= 0.0
    && (forall k :: k in keys ==> nodes[k].game.price <= r)
    && (r == 0.0 || exists k :: k in keys && nodes[k].game.price == r)
  }

  ghost function MaxPriceOver(nodes: map<int, Node>, keys: set<int>): (r: real)
    requires keys <= nodes.Keys
    ensures IsMaxPrice(nodes, keys, r)
    decreases keys
  {
    if keys == {} then 0.0
    else
      var k := Any(keys);
      var rest := MaxPriceOver(nodes, keys - {k});
      if nodes[k].game.price > rest then nodes[k].game.price else rest
  }

  /** The maximum price is determined by its defining properties. */
  lemma MaxPriceUnique(nodes: map<int, Node>, keys: set<int>, r: real)
    requires keys <= nodes.Keys && IsMaxPrice(nodes, keys, r)
    ensures r == MaxPriceOver(nodes, keys)
  {
    var m := MaxPriceOver(nodes, keys);
    if r != 0.0 {
      var k :| k in keys && nodes[k].game.price == r;
      assert r <= m;
    }
    if m != 0.0 {
      var k :| k in keys && nodes[k].game.price == m;
      assert m <= r;
    }
  }

  /** `r` is what `max_positive_ratio` returns over the nodes `keys`: the largest ratio, or 0
      when no ratio is positive. */
  ghost predicate IsMaxRatio(nodes: map<int, Node>, keys: set<int>, r: int)
    requires keys <= nodes.Keys
  {
    && r >= 0
    && (forall k :: k in keys ==> nodes[k].game.positiveRatio <= r)
    && (r == 0 || exists k :: k in keys && nodes[k].game.positiveRatio == r)
  }

  ghost function MaxRatioOver(nodes: map<int, Node>, keys: set<int>): (r: int)
    requires keys <= nodes.Keys
    ensures IsMaxRatio(nodes, keys, r)
    decreases keys
  {
    if keys == {} then 0
    else
      var k := Any(keys);
      var rest := MaxRatioOver(nodes, keys - {k});
      if nodes[k].game.positiveRatio > rest then nodes[k].game.positiveRatio else rest
  }

  lemma MaxRatioUnique(nodes: map<int, Node>, keys: set<int>, r: int)
    requires keys <= nodes.Keys && IsMaxRatio(nodes, keys, r)
    ensures r == MaxRatioOver(nodes, keys)
  {
    var m := MaxRatioOver(nodes, keys);
    if r != 0 {
      var k :| k in keys && nodes[k].game.positiveRatio == r;
      assert r <= m;
    }
    if m != 0 {
      var k :| k in keys && nodes[k].game.positiveRatio == m;
      assert m <= r;
    }
  }

  // ---- the user's genres and the scores ----

  /** The genres of the games of the user nodes: the labels `user_genres` lists, each once. */
  ghost function UserGenreSet(nodes: map<int, Node>, users: set<int>): set<string> {
    set k, x | k in users && k in nodes && x in nodes[k].game.genres :: x
  }

  /** A well-formed graph with a user node has a user genre, since no game has an empty genre
      list. */
  lemma UserGenresNonEmpty(nodes: map<int, Node>, userNodes: set<int>, userGameIds: seq<int>)
    requires WellFormed(nodes, userNodes, userGameIds) && userNodes != {}
    ensures UserGenreSet(nodes, userNodes) != {}
  {
    var k := Any(userNodes);
    assert ValidGame(nodes[k].game);
    var x := nodes[k].game.genres[0];
    assert x in nodes[k].game.genres;
    assert x in UserGenreSet(nodes, userNodes);
  }

  /** The scores can be computed without dividing by zero: some game has a positive ratio;
      when the user listed played games, one of them is stored (and so contributes a genre);
      when the user listed none, the preferred-genre list is not empty (the genre term divides
      by its length behind a guard that never fails). */
  ghost predicate Scorable(nodes: map<int, Node>, userNodes: set<int>, userGameIds: seq<int>,
                           userGameGenres: seq<string>) {
    && MaxRatioOver(nodes, nodes.Keys) != 0
    && (userGameIds != [] ==> userNodes != {} && UserGenreSet(nodes, userNodes) != {})
    && (userGameIds == [] ==> userGameGenres != [])
  }

  /** The score `compute_score` assigns to the game of node `k`: the genre-mode score when the
      user listed no played games, the game-mode score otherwise. It is zero for a game above
      the user's price ceiling, and, in game mode, for a game whose count against the stated
      genres differs from the number of user nodes. */
  ghost function ScoreOf(nodes: map<int, Node>, userNodes: set<int>, userGameIds: seq<int>,
                         userGameGenres: seq<string>, userMaxPrice: real, k: int): (r: real)
    requires k in nodes && Scorable(nodes, userNodes, userGameIds, userGameGenres)
    ensures nodes[k].game.price > userMaxPrice ==> r == 0.0
    ensures userGameIds != [] && GenreOverlap(nodes[k].game.genres, Elems(userGameGenres)) != |userNodes| ==> r == 0.0
  {
    var g := nodes[k].game;
    var maxPrice := MaxPriceOver(nodes, nodes.Keys);
    var maxRatio := MaxRatioOver(nodes, nodes.Keys);
    var stated := GenreOverlap(g.genres, Elems(userGameGenres));
    if userGameIds == [] then
      GenreModeScore(g, stated, |userGameGenres|, maxPrice, maxRatio, userMaxPrice)
    else
      var userGenres := UserGenreSet(nodes, userNodes);
      GameModeScore(g, |nodes[k].neighbours|, |userNodes|, GenreOverlap(g.genres, userGenres),
                    |userGenres|, stated, maxPrice, maxRatio, userMaxPrice)
  }

  /** In a well-formed graph every score is non-negative: the lower half of the bound the
      `Game` docstring states for `rating`. */
  lemma ScoreNonNegative(nodes: map<int, Node>, userNodes: set<int>, userGameIds: seq<int>,
                         userGameGenres: seq<string>, userMaxPrice: real, k: int)
    requires WellFormed(nodes, userNodes, userGameIds) && k in nodes
    requires Scorable(nodes, userNodes, userGameIds, userGameGenres)
    ensures ScoreOf(nodes, userNodes, userGameIds, userGameGenres, userMaxPrice, k) >= 0.0
  {
    var g := nodes[k].game;
    var maxPrice := MaxPriceOver(nodes, nodes.Keys);
    var maxRatio := MaxRatioOver(nodes, nodes.Keys);
    var stated := GenreOverlap(g.genres, Elems(userGameGenres));
    if userGameIds == [] {
      GenreModeScoreSign(g, stated, |userGameGenres|, maxPrice, maxRatio, userMaxPrice);
    } else {
      var userGenres := UserGenreSet(nodes, userNodes);
      GameModeScoreSign(g, |nodes[k].neighbours|, |userNodes|, GenreOverlap(g.genres, userGenres),
                        |userGenres|, stated, maxPrice, maxRatio, userMaxPrice);
    }
  }

  /** Rating a stored game with its score keeps the graph well formed, the score being
      non-negative. (Stated as an implication, so that a caller passes its state as one fact.) */
  lemma RatingKeepsWellFormed(nodes: map<int, Node>, userNodes: set<int>, userGameIds: seq<int>,
                              userGameGenres: seq<string>, userMaxPrice: real, k: int)
    ensures WellFormed(nodes, userNodes, userGameIds) && k in nodes && Scorable(nodes, userNodes, userGameIds, userGameGenres)
            ==> WellFormed(nodes[k := Rated(nodes[k], ScoreOf(nodes, userNodes, userGameIds, userGameGenres, userMaxPrice, k))],
                           userNodes, userGameIds)
  {
    if WellFormed(nodes, userNodes, userGameIds) && k in nodes && Scorable(nodes, userNodes, userGameIds, userGameGenres) {
      ScoreNonNegative(nodes, userNodes, userGameIds, userGameGenres, userMaxPrice, k);
    }
  }

  /** The node with its game's rating set to `score`. */
  function Rated(node: Node, score: real): Node {
    Vertex(node.game.(rating := Some(score)), node.neighbours)
  }

  /** The graph after `assign_all_scores`: every game rated with its score. */
  ghost function ScoredGraph(nodes: map<int, Node>, userNodes: set<int>, userGameIds: seq<int>,
                             userGameGenres: seq<string>, userMaxPrice: real): (r: map<int, Node>)
    requires nodes.Keys == {} || Scorable(nodes, userNodes, userGameIds, userGameGenres)
    ensures r.Keys == nodes.Keys
    ensures forall k :: k in r ==> r[k].neighbours == nodes[k].neighbours && r[k].game.rating.Some?
  {
    map k | k in nodes :: Rated(nodes[k], ScoreOf(nodes, userNodes, userGameIds, userGameGenres, userMaxPrice, k))
  }

  /** Two graphs that differ at most in the ratings of their games. */
  ghost predicate SameUpToRatings(a: map<int, Node>, b: map<int, Node>) {
    && a.Keys == b.Keys
    && forall k :: k in a ==>
         a[k].neighbours == b[k].neighbours && a[k].game.(rating := None) == b[k].game.(rating := None)
  }

  /** No score reads a rating: graphs that differ only in their ratings are scorable alike and
      give every game the same score. */
  lemma ScoreIgnoresRatings(a: map<int, Node>, b: map<int, Node>, userNodes: set<int>,
                            userGameIds: seq<int>, userGameGenres: seq<string>, userMaxPrice: real, k: int)
    requires SameUpToRatings(a, b)
    ensures Scorable(a, userNodes, userGameIds, userGameGenres) == Scorable(b, userNodes, userGameIds, userGameGenres)
    ensures k in a && Scorable(a, userNodes, userGameIds, userGameGenres) ==>
              ScoreOf(a, userNodes, userGameIds, userGameGenres, userMaxPrice, k) ==
              ScoreOf(b, userNodes, userGameIds, userGameGenres, userMaxPrice, k)
  {
    forall m | m in a ensures a[m].game.price == b[m].game.price
      && a[m].game.positiveRatio == b[m].game.positiveRatio && a[m].game.genres == b[m].game.genres
    {
      assert a[m].game.(rating := None).price == b[m].game.(rating := None).price;
      assert a[m].game.(rating := None).positiveRatio == b[m].game.(rating := None).positiveRatio;
      assert a[m].game.(rating := None).genres == b[m].game.(rating := None).genres;
    }
    MaxPriceUnique(b, b.Keys, MaxPriceOver(a, a.Keys));
    MaxRatioUnique(b, b.Keys, MaxRatioOver(a, a.Keys));
    assert UserGenreSet(a, userNodes) == UserGenreSet(b, userNodes);
  }

  /** `cur` is `start` with the games of the nodes outside `pending` rated with their scores
      in `start`, and the others untouched: the state of `assign_all_scores` part-way. */
  ghost predicate PartlyScored(start: map<int, Node>, cur: map<int, Node>, pending: set<int>,
                               userNodes: set<int>, userGameIds: seq<int>, userGameGenres: seq<string>,
                               userMaxPrice: real) {
    && pending <= cur.Keys
    && SameUpToRatings(start, cur)
    && (pending != cur.Keys ==> Scorable(start, userNodes, userGameIds, userGameGenres))
    && (forall k :: k in pending ==> cur[k] == start[k])
    && (forall k :: k in cur && k !in pending ==>
          Scorable(start, userNodes, userGameIds, userGameGenres) &&
          cur[k] == Rated(start[k], ScoreOf(start, userNodes, userGameIds, userGameGenres, userMaxPrice, k)))
  }

  /** Rating one more game with its score in the current graph keeps the loop's state. */
  lemma ScoringStep(start: map<int, Node>, cur: map<int, Node>, pending: set<int>, userNodes: set<int>,
                    userGameIds: seq<int>, userGameGenres: seq<string>, userMaxPrice: real, k: int)
    requires PartlyScored(start, cur, pending, userNodes, userGameIds, userGameGenres, userMaxPrice)
    requires k in pending && Scorable(cur, userNodes, userGameIds, userGameGenres)
    ensures Scorable(start, userNodes, userGameIds, userGameGenres)
    ensures PartlyScored(start, cur[k := Rated(cur[k], ScoreOf(cur, userNodes, userGameIds, userGameGenres, userMaxPrice, k))],
                         pending - {k}, userNodes, userGameIds, userGameGenres, userMaxPrice)
  {
    ScoreIgnoresRatings(start, cur, userNodes, userGameIds, userGameGenres, userMaxPrice, k);
    var next := cur[k := Rated(cur[k], ScoreOf(cur, userNodes, userGameIds, userGameGenres, userMaxPrice, k))];
    assert SameUpToRatings(start, next);
  }

  /** The first score that cannot be computed is met before any game is rated. */
  lemma ScoringFails(start: map<int, Node>, cur: map<int, Node>, pending: set<int>, userNodes: set<int>,
                     userGameIds: seq<int>, userGameGenres: seq<string>, userMaxPrice: real, k: int)
    requires PartlyScored(start, cur, pending, userNodes, userGameIds, userGameGenres, userMaxPrice)
    requires k in pending && !Scorable(cur, userNodes, userGameIds, userGameGenres)
    ensures cur == start && start.Keys != {} && !Scorable(start, userNodes, userGameIds, userGameGenres)
  {
    ScoreIgnoresRatings(start, cur, userNodes, userGameIds, userGameGenres, userMaxPrice, k);
    assert pending == cur.Keys;
    assert forall j :: j in cur ==> cur[j] == start[j];
  }

  /** With nothing pending, every game is rated with its score. */
  lemma ScoringDone(start: map<int, Node>, cur: map<int, Node>, userNodes: set<int>,
                    userGameIds: seq<int>, userGameGenres: seq<string>, userMaxPrice: real)
    requires PartlyScored(start, cur, {}, userNodes, userGameIds, userGameGenres, userMaxPrice)
    ensures start.Keys != {} ==> Scorable(start, userNodes, userGameIds, userGameGenres)
    ensures cur == ScoredGraph(start, userNodes, userGameIds, userGameGenres, userMaxPrice)
  {
    if start.Keys != {} {
      assert cur.Keys != {};
    }
  }

  /** Scoring twice gives what scoring once gives: `assign_all_scores` is idempotent. */
  lemma ScoringIdempotent(nodes: map<int, Node>, userNodes: set<int>, userGameIds: seq<int>,
                          userGameGenres: seq<string>, userMaxPrice: real)
    requires Scorable(nodes, userNodes, userGameIds, userGameGenres)
    ensures var once := ScoredGraph(nodes, userNodes, userGameIds, userGameGenres, userMaxPrice);
            Scorable(once, userNodes, userGameIds, userGameGenres) &&
            ScoredGraph(once, userNodes, userGameIds, userGameGenres, userMaxPrice) == once
  {
    var once := ScoredGraph(nodes, userNodes, userGameIds, userGameGenres, userMaxPrice);
    assert SameUpToRatings(nodes, once);
    ScoreIgnoresRatings(nodes, once, userNodes, userGameIds, userGameGenres, userMaxPrice, 0);
    forall k | k in once
      ensures ScoreOf(once, userNodes, userGameIds, userGameGenres, userMaxPrice, k) ==
              ScoreOf(nodes, userNodes, userGameIds, userGameGenres, userMaxPrice, k)
    {
      ScoreIgnoresRatings(nodes, once, userNodes, userGameIds, userGameGenres, userMaxPrice, k);
    }
  }

  // ---- recommendation pools ----

  /** Every stored game carries a rating. */
  ghost predicate Scored(nodes: map<int, Node>) {
    forall k :: k in nodes ==> nodes[k].game.rating.Some?
  }

  /** The games of the nodes `keys`. */
  ghost function GamesOf(nodes: map<int, Node>, keys: set<int>): set<Game> {
    set k | k in keys && k in nodes :: nodes[k].game
  }

  /** Adding a stored key adds its game. */
  lemma GamesOfInsert(nodes: map<int, Node>, keys: set<int>, x: int)
    requires x in nodes
    ensures GamesOf(nodes, keys + {x}) == GamesOf(nodes, keys) + {nodes[x].game}
  {
    forall g | g in GamesOf(nodes, keys + {x}) ensures g in GamesOf(nodes, keys) + {nodes[x].game} {
      var k :| k in keys + {x} && k in nodes && nodes[k].game == g;
      if k != x {
        assert k in keys;
      }
    }
  }

  /** The games of the neighbours of the user nodes: the pool `highest_scoring_games` draws
      from. */
  ghost function NeighbourPool(nodes: map<int, Node>, users: set<int>): set<Game> {
    set k, m | k in users && k in nodes && m in nodes[k].neighbours && m in nodes :: nodes[m].game
  }

  /** Nodes are stored under their game's id, so distinct nodes hold distinct games. */
  lemma {:induction false} GamesOfCard(nodes: map<int, Node>, keys: set<int>)
    requires keys <= nodes.Keys && forall k :: k in nodes ==> nodes[k].game.id == k
    ensures |GamesOf(nodes, keys)| == |keys|
    decreases keys
  {
    if keys != {} {
      var x := Any(keys);
      GamesOfCard(nodes, keys - {x});
      assert GamesOf(nodes, keys) == GamesOf(nodes, keys - {x}) + {nodes[x].game};
      assert nodes[x].game !in GamesOf(nodes, keys - {x});
    }
  }

  /** In a scored, well-formed graph every stored game has a non-negative rating. */
  lemma ScoredRatings(nodes: map<int, Node>, userNodes: set<int>, userGameIds: seq<int>, pool: set<Game>)
    requires WellFormed(nodes, userNodes, userGameIds) && Scored(nodes)
    requires pool <= GamesOf(nodes, nodes.Keys)
    ensures forall g :: g in pool ==> g.rating.Some? && g.rating.value >= 0.0
  {
    forall g | g in pool ensures g.rating.Some? && g.rating.value >= 0.0 {
      var k :| k in nodes && nodes[k].game == g;
    }
  }
}
