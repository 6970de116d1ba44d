/** The free functions of game_graph.py that rank games: the in-place descending insertion
    sort (`sort_games`, `sort_games_helper`) and `highest_scoring_game`. Every game they
    compare must carry a rating: the source never sets the attribute before scoring, so
    reading the rating of an unscored game raises AttributeError. */
module Ranking {
  import opened Common
  import opened Games
  import opened Order

  /** The tuple swap `games[i], games[i + 1] = games[i + 1], games[i]`: the two neighbouring
      games trade places and nothing else changes. */
  method Swap(games: array<Game>, i: int)
    requires 0 <= i < games.Length - 1
    modifies games
    ensures games[..] == old(games[..])[i := old(games[i + 1])][i + 1 := old(games[i])]
  {
    games[i], games[i + 1] := games[i + 1], games[i];
  }

  /** `sort_games_helper`: with `games[:current_index]` sorted, moves the game at
      `current_index` left past every strictly lower-rated game, leaving
      `games[:current_index + 1]` sorted, a rearrangement of what it held, and the rest of
      the list untouched. */
  method SortGamesHelper(games: array<Game>, currentIndex: int)
    requires 0 <= currentIndex < games.Length
    requires AllRated(games[..]) && DescendingBetween(games[..], 0, currentIndex)
    modifies games
    ensures AllRated(games[..]) && DescendingBetween(games[..], 0, currentIndex + 1)
    ensures games[currentIndex + 1..] == old(games[currentIndex + 1..])
    ensures multiset(games[..currentIndex + 1]) == multiset(old(games[..currentIndex + 1]))
    ensures multiset(games[..]) == multiset(old(games[..]))
    ensures SameTies(old(games[..]), games[..])
  {
    ghost var orig := games[..];
    HelperStarts(orig, currentIndex);
    var index := currentIndex;
    while index > 0
      // compared with `true` so that the invariant is checked as one fact, not conjunct by conjunct
      invariant Raising(orig, orig, games[..], index, currentIndex) == true
    {
      ghost var s := games[..];
      if games[index].rating.value > games[index - 1].rating.value {
        Swap(games, index - 1);
        RaisingSwaps(orig, orig, s, games[..], index, currentIndex);
      } else {
        RaisingKeeps(orig, orig, s, index, currentIndex);
      }
      index := index - 1;
    }
    HelperDone(orig, orig, games[..], currentIndex);
    assert old(games[currentIndex + 1..]) == orig[currentIndex + 1..];
    assert old(games[..currentIndex + 1]) == orig[..currentIndex + 1];
  }

  /** `sort_games`: rearranges the list into non-increasing order of rating, keeping games
      of equal rating in their original order. */
  method SortGames(games: array<Game>)
    requires AllRated(games[..])
    modifies games
    ensures AllRated(games[..]) && Descending(games[..])
    ensures multiset(games[..]) == multiset(old(games[..]))
    ensures SameTies(old(games[..]), games[..])
  {
    SortingStarts(games[..]);
    var index := 0;
    while index < games.Length - 1
      // compared with `true` so that the invariant is checked as one fact, not conjunct by conjunct
      invariant Sorting(old(games[..]), games[..], index) == true
    {
      ghost var s0 := games[..];
      if games[index].rating.value < games[index + 1].rating.value {
        Swap(games, index);
        ghost var s1 := games[..];
        SortingSwaps(old(games[..]), s0, s1, index);
        SortGamesHelper(games, index);
        SameTiesTrans(old(games[..]), s1, games[..]);
        SortingExtends(old(games[..]), s0, s1, games[..], index);
      } else {
        SortingKeeps(old(games[..]), s0, index);
      }
      index := index + 1;
    }
    SortingDone(old(games[..]), games[..], index);
  }

  /** `highest_scoring_game`: scans the set keeping the last game whose rating is at least
      the best so far, starting from 0. It returns `None` exactly when every rating is
      negative (so, for non-negative ratings, exactly when the set is empty); otherwise a
      member whose rating is at least every member's. Which of several tied games is returned
      depends on Python's set order and is not specified. */
  method HighestScoringGame(games: set<Game>) returns (best: Option<Game>)
    requires forall g :: g in games ==> g.rating.Some?
    ensures best.None? <==> forall g :: g in games ==> g.rating.value < 0.0
    ensures best.Some? ==> best.value in games && best.value.rating.value >= 0.0
    ensures best.Some? ==> forall g :: g in games ==> g.rating.value <= best.value.rating.value
    ensures (forall g :: g in games ==> g.rating.value >= 0.0) ==> (best.None? <==> games == {})
  {
    var highest: real := 0.0;
    best := None;
    var rest := games;
    while rest != {}
      invariant rest <= games
      invariant best.None? ==> highest == 0.0 && forall g :: g in games - rest ==> g.rating.value < 0.0
      invariant best.Some? ==> best.value in games - rest && highest == best.value.rating.value
      invariant best.Some? ==> highest >= 0.0 && forall g :: g in games - rest ==> g.rating.value <= highest
      decreases rest
    {
      var g :| g in rest;
      if g.rating.value >= highest {
        highest := g.rating.value;
        best := Some(g);
      }
      rest := rest - {g};
    }
  }

  /** `picked` holds distinct games of `pool` and no game of `pool` left out rates above any
      picked one: the picks are a top selection of the pool. */
  ghost predicate IsTopOf(pool: set<Game>, picked: seq<Game>)
    requires forall g :: g in pool ==> g.rating.Some?
  {
    && (forall i :: 0 <= i < |picked| ==> picked[i] in pool)
    && Distinct(picked)
    && (forall g, i :: g in pool && g !in picked && 0 <= i < |picked| ==>
          g.rating.value <= picked[i].rating.value)
  }

  /** A rearrangement of a top selection is a top selection of the same pool. */
  lemma TopOfPermutation(pool: set<Game>, s: seq<Game>, t: seq<Game>)
    requires forall g :: g in pool ==> g.rating.Some?
    requires IsTopOf(pool, s) && multiset(s) == multiset(t)
    ensures IsTopOf(pool, t)
  {
    DistinctPermutation(s, t);
    forall i | 0 <= i < |t| ensures t[i] in s {
      assert t[i] in multiset(t);
    }
    forall g | g in s ensures g in t {
      assert g in multiset(s);
    }
  }

  /** The sorted copy of a list, as `sort_games` leaves it: non-increasing in rating, a
      rearrangement of the list, and ties in their original order. */
  method Sorted(games: seq<Game>) returns (sorted: seq<Game>)
    requires AllRated(games)
    ensures AllRated(sorted) && Descending(sorted)
    ensures multiset(sorted) == multiset(games) && |sorted| == |games|
    ensures SameTies(games, sorted)
  {
    var a := new Game[|games|](i requires 0 <= i < |games| => games[i]);
    assert a[..] == games;
    SortGames(a);
    sorted := a[..];
  }

  /** The state of a selection loop that repeatedly moves a highest-rated game out of `rest`,
      keeping it in `picked` unless it is `excluded`: every pick is an unexcluded game of the
      pool, no unexcluded game has been dropped unpicked, and nothing left rates above a
      pick. */
  ghost predicate Selecting(pool: set<Game>, excluded: set<Game>, rest: set<Game>, picked: seq<Game>)
    requires forall g :: g in pool ==> g.rating.Some?
  {
    && rest <= pool
    && Distinct(picked)
    && (forall i :: 0 <= i < |picked| ==> picked[i] in pool && picked[i] !in excluded && picked[i] !in rest)
    && (forall g :: g in pool && g !in excluded && g !in picked ==> g in rest)
    && (forall g, i :: g in rest && 0 <= i < |picked| ==> g.rating.value <= picked[i].rating.value)
  }

  /** Moving out a highest-rated game of `rest` keeps the selection's state. */
  lemma SelectStep(pool: set<Game>, excluded: set<Game>, rest: set<Game>, picked: seq<Game>, best: Game)
    requires forall g :: g in pool ==> g.rating.Some?
    requires Selecting(pool, excluded, rest, picked)
    requires best in rest && forall g :: g in rest ==> g.rating.value <= best.rating.value
    ensures Selecting(pool, excluded, rest - {best}, if best in excluded then picked else picked + [best])
  {
  }

  /** The picks are a top selection of the unexcluded games, and together with the unexcluded
      games left they make up all unexcluded games of the pool. */
  lemma SelectCounts(pool: set<Game>, excluded: set<Game>, rest: set<Game>, picked: seq<Game>)
    requires forall g :: g in pool ==> g.rating.Some?
    requires Selecting(pool, excluded, rest, picked)
    ensures IsTopOf(pool - excluded, picked)
    ensures |picked| + |rest - excluded| == |pool - excluded|
  {
    DistinctCard(picked);
    assert pool - excluded == Elems(picked) + (rest - excluded);
    assert Elems(picked) !! (rest - excluded);
  }

  /** The selection loop of `highest_scoring_games` followed by `sort_games`: it moves a
      highest-rated game out of `pool` while games remain and fewer than `total` are picked,
      keeping those that are not `excluded`. With non-negative ratings the result is the
      `min(total, number of unexcluded games)` highest-rated unexcluded games, best first. */
  method SelectTop(pool: set<Game>, excluded: set<Game>, total: nat) returns (picked: seq<Game>)
    requires forall g :: g in pool ==> g.rating.Some? && g.rating.value >= 0.0
    ensures |picked| == Min(total, |pool - excluded|)
    ensures IsTopOf(pool - excluded, picked)
    ensures AllRated(picked) && Descending(picked)
  {
    var rest := pool;
    var actual: seq<Game> := [];
    while rest != {} && |actual| != total
      invariant Selecting(pool, excluded, rest, actual) && |actual| <= total
      decreases rest
    {
      var best := HighestScoringGame(rest);
      var highest := best.value;
      SelectStep(pool, excluded, rest, actual, highest);
      rest := rest - {highest};
      if highest !in excluded {
        actual := actual + [highest];
      }
    }
    SelectCounts(pool, excluded, rest, actual);
    picked := Sorted(actual);
    TopOfPermutation(pool - excluded, actual, picked);
  }

  /** The selection loop of `top_games` as written, followed by `sort_games`. Its guard keeps
      the loop running while fewer than `total` games are picked OR the pool is empty, so once
      the pool runs dry the `None` that `highest_scoring_game` returns is removed from the
      set, which raises KeyError: with non-negative ratings that happens exactly when `total`
      is at least the size of the pool. */
  method SelectAllAsWritten(pool: set<Game>, total: nat) returns (r: Result<seq<Game>>)
    requires forall g :: g in pool ==> g.rating.Some? && g.rating.value >= 0.0
    ensures r.Raise? <==> total >= |pool|
    ensures r.Raise? ==> r.error == KeyError
    ensures r.Ok? ==> |r.value| == total && IsTopOf(pool, r.value)
    ensures r.Ok? ==> AllRated(r.value) && Descending(r.value)
  {
    var possible := pool;
    var actual: seq<Game> := [];
    while |actual| != total || |possible| == 0
      invariant Selecting(pool, {}, possible, actual) && |actual| <= total
      decreases |possible|
    {
      var best := HighestScoringGame(possible);
      if best.None? {
        SelectCounts(pool, {}, possible, actual);
        assert possible - {} == possible;
        return Raise(KeyError);
      }
      SelectStep(pool, {}, possible, actual, best.value);
      possible := possible - {best.value};
      actual := actual + [best.value];
    }
    SelectCounts(pool, {}, possible, actual);
    assert possible - {} == possible && pool - {} == pool;
    var sorted := Sorted(actual);
    TopOfPermutation(pool, actual, sorted);
    r := Ok(sorted);
  }
}

