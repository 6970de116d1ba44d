/** The logic the earlier versions of the engine share (older_versions/gamegraph1.py,
    game_graph_csv.py and AbstractGraphVersion.py), written once over any game type `G`:

    - the recursive `top_games(total, recorded_games)`;
    - `node_list`;
    - `GameNode._helper_top_similar_games`, both as written and with its running maximum
      updated.

    A game is compared by a score function: its rating for `top_games`, and the number of
    genres it shares with the node's game for the similar-games helper. The sets of recorded
    or visited games hold `Option<G>`, because the source adds the `None` it picks when
    nothing qualifies. */
module Legacy {
  import opened Common
  import opened Games

  /** The games stored in a graph. */
  function StoredGames<G(==), K>(nodes: map<K, Vertex<G, K>>): (r: set<G>)
    ensures forall k :: k in nodes ==> nodes[k].game in r
    ensures forall g :: g in r ==> exists k :: k in nodes && nodes[k].game == g
  {
    set k | k in nodes :: nodes[k].game
  }

  // ---- top_games(total, recorded_games) ----

  /** `p` is what one call of `top_games` picks from `pool` when the games in `recorded` are
      passed over: `None` exactly when no unrecorded game scores above 0, and otherwise an
      unrecorded game that scores above 0 and at least as high as every unrecorded game. */
  ghost predicate BestUnrecorded<G>(pool: set<G>, score: G -> real, recorded: set<Option<G>>, p: Option<G>) {
    && (p.None? <==> forall g :: g in pool && Some(g) !in recorded ==> score(g) <= 0.0)
    && (p.Some? ==>
          && p.value in pool && Some(p.value) !in recorded && score(p.value) > 0.0
          && forall g :: g in pool && Some(g) !in recorded ==> score(g) <= score(p.value))
  }

  /** The loop of `top_games`: scans the pool in an unspecified order, keeping the game whose
      score is strictly above the best so far, starting from 0, and skipping recorded games. */
  method PickBest<G(==)>(pool: set<G>, score: G -> real, recorded: set<Option<G>>) returns (best: Option<G>)
    ensures BestUnrecorded(pool, score, recorded, best)
  {
    var maxSoFar := 0.0;
    best := None;
    var rest := pool;
    while rest != {}
      invariant rest <= pool
      invariant best.None? ==> maxSoFar == 0.0
      invariant best.Some? ==> best.value in pool && Some(best.value) !in recorded && score(best.value) == maxSoFar > 0.0
      invariant forall g :: g in pool - rest && Some(g) !in recorded ==> score(g) <= maxSoFar
      decreases rest
    {
      var g := Choose(rest);
      if Some(g) !in recorded && score(g) > maxSoFar {
        best := Some(g);
        maxSoFar := score(g);
      }
      rest := rest - {g};
    }
  }

  /** Every pick is the best game not recorded before it: not in `recorded` and not picked
      earlier. */
  ghost predicate RankedPicks<G>(pool: set<G>, score: G -> real, recorded: set<Option<G>>, picks: seq<Option<G>>) {
    forall i :: 0 <= i < |picks| ==> BestUnrecorded(pool, score, recorded + Elems(picks[..i]), picks[i])
  }

  /** The elements of a prefix of `[p] + rest`. */
  lemma ConsPrefix<T>(p: T, rest: seq<T>, i: int)
    requires 0 < i <= |rest| + 1
    ensures Elems(([p] + rest)[..i]) == {p} + Elems(rest[..i - 1])
  {
    assert ([p] + rest)[..i] == [p] + rest[..i - 1];
  }

  /** A best pick followed by the picks made with it recorded is a ranked list of picks. */
  lemma RankedCons<G>(pool: set<G>, score: G -> real, recorded: set<Option<G>>, p: Option<G>, rest: seq<Option<G>>)
    requires BestUnrecorded(pool, score, recorded, p)
    requires RankedPicks(pool, score, recorded + {p}, rest)
    ensures RankedPicks(pool, score, recorded, [p] + rest)
  {
    var picks := [p] + rest;
    forall i | 0 <= i < |picks|
      ensures BestUnrecorded(pool, score, recorded + Elems(picks[..i]), picks[i])
    {
      if i == 0 {
        assert picks[..0] == [];
      } else {
        ConsPrefix(p, rest, i);
        assert recorded + Elems(picks[..i]) == (recorded + {p}) + Elems(rest[..i - 1]);
        assert picks[i] == rest[i - 1];
      }
    }
  }

  /** `top_games(total, recorded_games)` for a graph whose games are `pool`: `total` picks,
      each the best game not recorded before it, every pick (`None` included) added to the
      recorded set. */
  method TopPicks<G(==)>(pool: set<G>, score: G -> real, total: nat, recorded: set<Option<G>>)
    returns (picks: seq<Option<G>>, recordedAfter: set<Option<G>>)
    ensures |picks| == total
    ensures recordedAfter == recorded + Elems(picks)
    ensures RankedPicks(pool, score, recorded, picks)
    decreases total
  {
    if total == 0 {
      picks, recordedAfter := [], recorded;
      assert Elems(picks) == {};
      return;
    }
    var best := PickBest(pool, score, recorded);
    var rest;
    rest, recordedAfter := TopPicks(pool, score, total - 1, recorded + {best});
    picks := [best] + rest;
    RankedCons(pool, score, recorded, best, rest);
    assert Elems(picks) == {best} + Elems(rest);
  }

  /** What ranked picks promise together: once a pick is `None` every later pick is too;
      the games picked are distinct, unrecorded games of the pool scoring above 0; and a later
      pick never scores above an earlier one. */
  lemma {:induction false} RankedPicksOrder<G>(pool: set<G>, score: G -> real, recorded: set<Option<G>>, picks: seq<Option<G>>, i: int, j: int)
    requires RankedPicks(pool, score, recorded, picks)
    requires 0 <= i < j < |picks| && picks[j].Some?
    ensures picks[i].Some? && picks[i] != picks[j]
    ensures picks[j].value in pool && picks[j] !in recorded && score(picks[j].value) > 0.0
    ensures score(picks[j].value) <= score(picks[i].value)
  {
    var before := recorded + Elems(picks[..i]);
    var atJ := recorded + Elems(picks[..j]);
    assert BestUnrecorded(pool, score, before, picks[i]);
    assert BestUnrecorded(pool, score, atJ, picks[j]);
    assert picks[..j][..i] == picks[..i];
    assert Elems(picks[..i]) <= Elems(picks[..j]);
    assert picks[..j][i] == picks[i];
    assert picks[i] in Elems(picks[..j]);
    var g := picks[j].value;
    assert g in pool && Some(g) !in before;
  }

  /** `top_games(total, recorded_games)` as written, for a graph whose games are `pool`:
      testing a stored game for membership in `recorded_games` hashes it, which raises
      TypeError, so the call raises exactly when it has a game to test; on an empty graph it
      returns `total` times `None`, recording `None`. */
  method UnhashablePicks<G(==)>(pool: set<G>, total: nat, recorded: set<Option<G>>)
    returns (r: Result<seq<Option<G>>>, recordedAfter: set<Option<G>>)
    ensures r.Raise? <==> total > 0 && pool != {}
    ensures r.Raise? ==> r.error == TypeError && recordedAfter == recorded
    ensures r.Ok? ==> |r.value| == total && (forall i :: 0 <= i < total ==> r.value[i] == None)
    ensures r.Ok? ==> recordedAfter == recorded + Elems(r.value)
    decreases total
  {
    if total == 0 {
      r, recordedAfter := Ok([]), recorded;
      assert Elems(r.value) == {};
      return;
    }
    if pool != {} {
      return Raise(TypeError), recorded;
    }
    var rest;
    rest, recordedAfter := UnhashablePicks(pool, total - 1, recorded + {None});
    r := Ok([None] + rest.value);
    assert Elems(r.value) == {None} + Elems(rest.value);
  }

  // ---- node_list ----

  /** `node_list`: one node per key of the graph, in the (unspecified) order of the keys. */
  method NodeList<G, K(==)>(nodes: map<K, Vertex<G, K>>) returns (list: seq<Vertex<G, K>>, ghost order: seq<K>)
    ensures Distinct(order) && Elems(order) == nodes.Keys
    ensures |list| == |order| == |nodes|
    ensures forall i :: 0 <= i < |list| ==> order[i] in nodes && list[i] == nodes[order[i]]
  {
    list, order := [], [];
    var pending := nodes.Keys;
    while pending != {}
      invariant pending <= nodes.Keys
      invariant Distinct(order) && Elems(order) == nodes.Keys - pending
      invariant |list| == |order|
      invariant forall i :: 0 <= i < |list| ==> order[i] in nodes && list[i] == nodes[order[i]]
      decreases pending
    {
      var k := Choose(pending);
      assert k !in Elems(order);
      assert Elems(order + [k]) == Elems(order) + {k};
      list := list + [nodes[k]];
      order := order + [k];
      pending := pending - {k};
    }
    DistinctCard(order);
    assert nodes.Keys - pending == nodes.Keys;
  }

  // ---- GameNode._helper_top_similar_games ----

  /** The games of the neighbours of the node stored under `k`, in the order of its list. */
  function NeighbourGames<G, K>(nodes: map<K, Vertex<G, K>>, k: K): (r: seq<G>)
    requires k in nodes && forall m :: m in nodes[k].neighbours ==> m in nodes
    ensures |r| == |nodes[k].neighbours|
    ensures forall i :: 0 <= i < |r| ==> r[i] == nodes[nodes[k].neighbours[i]].game
  {
    var neighbours := nodes[k].neighbours;
    seq(|neighbours|, i requires 0 <= i < |neighbours| => nodes[neighbours[i]].game)
  }

  /** A neighbour qualifies for the helper's pick when it has not been visited and shares at
      least one genre with the node's game. */
  predicate Qualifies<G(==)>(g: G, sim: G -> real, visited: set<Option<G>>) {
    Some(g) !in visited && sim(g) > 0.0
  }

  /** What the helper's loop picks as written: the running maximum is never updated, so every
      qualifying neighbour replaces the previous pick and the last one in list order wins. */
  function LastQualifying<G(==)>(games: seq<G>, sim: G -> real, visited: set<Option<G>>): Option<G>
    decreases |games|
  {
    if games == [] then None
    else if Qualifies(games[|games| - 1], sim, visited) then Some(games[|games| - 1])
    else LastQualifying(games[..|games| - 1], sim, visited)
  }

  /** `games[j]` qualifies and no later neighbour does. */
  predicate LastToQualify<G(==)>(games: seq<G>, sim: G -> real, visited: set<Option<G>>, j: int) {
    && 0 <= j < |games| && Qualifies(games[j], sim, visited)
    && forall k :: j < k < |games| ==> !Qualifies(games[k], sim, visited)
  }

  /** The as-written pick is `None` exactly when no neighbour qualifies; otherwise it is a
      qualifying neighbour, and it is the one that qualifies last in list order. */
  lemma {:induction false} LastQualifyingProps<G>(games: seq<G>, sim: G -> real, visited: set<Option<G>>)
    ensures var p := LastQualifying(games, sim, visited);
            && (p.None? <==> forall i :: 0 <= i < |games| ==> !Qualifies(games[i], sim, visited))
            && (p.Some? ==> p.value in games && Qualifies(p.value, sim, visited))
            && (forall j :: LastToQualify(games, sim, visited, j) ==> p == Some(games[j]))
    decreases |games|
  {
    if games != [] {
      var n := |games| - 1;
      var init := games[..n];
      LastQualifyingProps(init, sim, visited);
      assert forall i :: 0 <= i < n ==> init[i] == games[i];
      if !Qualifies(games[n], sim, visited) {
        forall j | LastToQualify(games, sim, visited, j)
          ensures LastQualifying(games, sim, visited) == Some(games[j])
        {
          assert j < n && init[j] == games[j];
          assert LastToQualify(init, sim, visited, j);
        }
      }
    }
  }

  /** The as-written pick need not be the most similar neighbour: of two neighbours sharing 2
      and 1 genres, listed in that order, it picks the second. */
  lemma LastQualifyingFinding()
    ensures var sim := (g: int) => g as real;
            && LastQualifying([2, 1], sim, {}) == Some(1)
            && Qualifies(2, sim, {}) && sim(2) > sim(1)
  {
    var sim := (g: int) => g as real;
    assert [2, 1][..1] == [2];
  }

  /** The loop of `_helper_top_similar_games` as written. */
  method ScanAsWritten<G(==)>(games: seq<G>, sim: G -> real, visited: set<Option<G>>) returns (most: Option<G>)
    ensures most == LastQualifying(games, sim, visited)
  {
    var maxSoFar := 0.0;
    most := None;
    for i := 0 to |games|
      invariant most == LastQualifying(games[..i], sim, visited)
    {
      assert games[..i + 1][..i] == games[..i];
      if Some(games[i]) !in visited && sim(games[i]) > maxSoFar {
        most := Some(games[i]);
      }
    }
    assert games[..|games|] == games;
  }

  /** `_helper_top_similar_games(total, visited_so_far)` as written, for games that can be put
      in a set: `min(total, number of neighbours)` picks, each the last qualifying neighbour
      not visited before it. */
  method SimilarAsWritten<G(==)>(games: seq<G>, sim: G -> real, total: nat, visited: set<Option<G>>)
    returns (picks: seq<Option<G>>, visitedAfter: set<Option<G>>)
    ensures |picks| == Min(total, |games|)
    ensures visitedAfter == visited + Elems(picks)
    ensures forall i :: 0 <= i < |picks| ==> picks[i] == LastQualifying(games, sim, visited + Elems(picks[..i]))
    decreases total
  {
    var count := total;
    if count > |games| {
      count := |games|;
    }
    if count == 0 {
      picks, visitedAfter := [], visited;
      assert Elems(picks) == {};
      return;
    }
    var most := ScanAsWritten(games, sim, visited);
    var rest;
    rest, visitedAfter := SimilarAsWritten(games, sim, count - 1, visited + {most});
    picks := [most] + rest;
    assert Elems(picks) == {most} + Elems(rest);
    forall i | 0 <= i < |picks|
      ensures picks[i] == LastQualifying(games, sim, visited + Elems(picks[..i]))
    {
      if i == 0 {
        assert picks[..0] == [];
        assert visited + Elems(picks[..0]) == visited;
      } else {
        ConsPrefix(most, rest, i);
        assert visited + Elems(picks[..i]) == (visited + {most}) + Elems(rest[..i - 1]);
        assert picks[i] == rest[i - 1];
      }
    }
  }

  /** `_helper_top_similar_games` with the running maximum updated on each pick, as its
      docstring intends: `min(total, number of neighbours)` picks, each the most similar
      qualifying neighbour not visited before it (or `None` once none qualifies). */
  method TopSimilar<G(==)>(games: seq<G>, sim: G -> real, total: nat, visited: set<Option<G>>)
    returns (picks: seq<Option<G>>, visitedAfter: set<Option<G>>)
    ensures |picks| == Min(total, |games|)
    ensures visitedAfter == visited + Elems(picks)
    ensures RankedPicks(Elems(games), sim, visited, picks)
  {
    var count := total;
    if count > |games| {
      count := |games|;
    }
    picks, visitedAfter := TopPicks(Elems(games), sim, count, visited);
  }
}
