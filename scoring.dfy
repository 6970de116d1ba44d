/** The score arithmetic of the current engine (game_graph.py:184-245), factored out of the
    methods that assign `Game.rating`. Python's `/` on ints is true division; it is modelled
    on reals, and every divisor the source can hit with zero is a precondition (the engine
    raises ZeroDivisionError there) unless the source guards it. */
module Scoring {
  import opened Common
  import opened Games

  const RatePriceWeight: real := 0.6
  const NeighbourWeight: real := 0.3
  const UserGenreWeight: real := 0.1
  const PreferredGenreWeight: real := 0.4

  /** The rating/price term of both modes. When the game is the most expensive one, or every
      game is free, the ratio is used unweighted. */
  function RatePrice(ratio: int, maxRatio: int, price: real, maxPrice: real): real
    requires maxRatio != 0
  {
    if maxPrice == price || maxPrice == 0.0 then
      (ratio as real) / (maxRatio as real)
    else
      (ratio as real) / (maxRatio as real) * ((maxPrice - price) / maxPrice) * RatePriceWeight
  }

  /** For a ratio and price within the catalogue's maxima the term lies in [0, 1], and in
      [0, 0.6] whenever the weighted branch is taken. */
  lemma RatePriceBounds(ratio: int, maxRatio: int, price: real, maxPrice: real)
    requires 0 <= ratio <= maxRatio && maxRatio > 0
    requires 0.0 <= price <= maxPrice
    ensures 0.0 <= RatePrice(ratio, maxRatio, price, maxPrice) <= 1.0
    ensures maxPrice != price && maxPrice != 0.0 ==>
              RatePrice(ratio, maxRatio, price, maxPrice) <= RatePriceWeight
  {
    var q := (ratio as real) / (maxRatio as real);
    assert 0.0 <= q <= 1.0;
    if maxPrice != price && maxPrice != 0.0 {
      var f := (maxPrice - price) / maxPrice;
      assert 0.0 <= f <= 1.0;
      assert 0.0 <= q * f <= 1.0 by {
        assert q * f <= 1.0 * f;
      }
    }
  }

  /** In the weighted branch a cheaper game gets at least the term of a dearer one with the
      same ratio; the most expensive game itself gets the unweighted ratio, which is at least
      the term of any cheaper game. */
  lemma RatePriceByPrice(ratio: int, maxRatio: int, cheap: real, dear: real, maxPrice: real)
    requires 0 <= ratio <= maxRatio && maxRatio > 0
    requires 0.0 <= cheap <= dear <= maxPrice
    ensures dear < maxPrice ==>
              RatePrice(ratio, maxRatio, dear, maxPrice) <= RatePrice(ratio, maxRatio, cheap, maxPrice)
    ensures dear == maxPrice ==>
              RatePrice(ratio, maxRatio, cheap, maxPrice) <= RatePrice(ratio, maxRatio, dear, maxPrice)
  {
    var q := (ratio as real) / (maxRatio as real);
    assert 0.0 <= q;
    if dear < maxPrice {
      assert (maxPrice - dear) / maxPrice <= (maxPrice - cheap) / maxPrice;
      assert q * ((maxPrice - dear) / maxPrice) <= q * ((maxPrice - cheap) / maxPrice);
    } else {
      RatePriceBounds(ratio, maxRatio, cheap, maxPrice);
      if maxPrice != cheap && maxPrice != 0.0 {
        var f := (maxPrice - cheap) / maxPrice;
        assert 0.0 <= f <= 1.0;
        assert q * f * RatePriceWeight <= q * 1.0 * 1.0;
      }
    }
  }

  /** The score of a game when the user supplied played games (`compute_score_game`):
      `neighbours` is the length of the node's neighbour list, `unionOverlap`/`unionSize` the
      game's genre count against, and the length of, the user's genre list, and `statedOverlap`
      its genre count against the preferred genres. The score is zero when the game is above
      the user's price ceiling, or when its count against the preferred genres differs from
      the number of user nodes. */
  function GameModeScore(g: Game, neighbours: nat, userNodeCount: nat, unionOverlap: nat,
                         unionSize: nat, statedOverlap: nat, maxPrice: real, maxRatio: int,
                         ceiling: real): (r: real)
    requires maxRatio != 0 && userNodeCount != 0 && unionSize != 0
    ensures g.price > ceiling ==> r == 0.0
    ensures statedOverlap != userNodeCount ==> r == 0.0
  {
    var ratePrice := RatePrice(g.positiveRatio, maxRatio, g.price, maxPrice);
    var neighbourScore := (neighbours as real / userNodeCount as real) * NeighbourWeight;
    var genreScore := (unionOverlap as real / unionSize as real) * UserGenreWeight;
    if g.price > ceiling || statedOverlap != userNodeCount then 0.0
    else ratePrice + neighbourScore + genreScore
  }

  /** For a game whose ratio and price lie within the catalogue's maxima the game-mode score is
      never negative, and it is positive exactly when the game passes both filters and has a
      positive ratio, a neighbour or a genre in common with the user's games. */
  lemma GameModeScoreSign(g: Game, neighbours: nat, userNodeCount: nat, unionOverlap: nat,
                          unionSize: nat, statedOverlap: nat, maxPrice: real, maxRatio: int,
                          ceiling: real)
    requires 0 <= g.positiveRatio <= maxRatio && maxRatio > 0
    requires 0.0 <= g.price <= maxPrice
    requires userNodeCount != 0 && unionSize != 0
    ensures GameModeScore(g, neighbours, userNodeCount, unionOverlap, unionSize, statedOverlap,
                          maxPrice, maxRatio, ceiling) >= 0.0
    ensures GameModeScore(g, neighbours, userNodeCount, unionOverlap, unionSize, statedOverlap,
                          maxPrice, maxRatio, ceiling) > 0.0 <==>
            g.price <= ceiling && statedOverlap == userNodeCount &&
            (RatePrice(g.positiveRatio, maxRatio, g.price, maxPrice) > 0.0 ||
             neighbours > 0 || unionOverlap > 0)
  {
    RatePriceBounds(g.positiveRatio, maxRatio, g.price, maxPrice);
    assert neighbours as real / userNodeCount as real >= 0.0;
    assert neighbours > 0 ==> neighbours as real / userNodeCount as real > 0.0;
    assert unionOverlap as real / unionSize as real >= 0.0;
    assert unionOverlap > 0 ==> unionOverlap as real / unionSize as real > 0.0;
  }

  /** The docstring bound `rating <= 1.0` does not hold: the most expensive game, with the
      best ratio, two neighbours and one user node scores 1.7. */
  lemma GameModeScoreCanExceedOne()
    ensures GameModeScore(Game(1, "g", ["rpg"], 10.0, 100, None), 2, 1, 1, 1, 1, 10.0, 100, 20.0) > 1.0
  {
  }

  // ---- genre mode ----

  /** The guard of game_graph.py:233 as written: `len(genres) != []` compares an int with a
      list, which Python evaluates to True for every list. */
  predicate GenreGuardAsWritten(preferred: seq<string>) {
    true
  }

  /** The preferred-genre term as written: the guard always lets the division through, so an
      empty preference list raises ZeroDivisionError. */
  function GenreTermAsWritten(overlap: nat, preferred: seq<string>): Result<real> {
    if !GenreGuardAsWritten(preferred) then Ok(0.0)
    else if |preferred| == 0 then Raise(ZeroDivisionError)
    else Ok((overlap as real / |preferred| as real) * PreferredGenreWeight)
  }

  /** The preferred-genre term with the evidently intended guard `len(genres) != 0`: an empty
      preference list contributes nothing. */
  function GenreTerm(overlap: nat, preferredCount: nat): (r: real)
    ensures r >= 0.0
    ensures preferredCount == 0 ==> r == 0.0
    ensures overlap <= preferredCount ==> r <= PreferredGenreWeight
  {
    if preferredCount != 0 then (overlap as real / preferredCount as real) * PreferredGenreWeight
    else 0.0
  }

  /** The term as written raises exactly when the preference list is empty, and otherwise
      agrees with the corrected term. */
  lemma GenreGuardFinding(overlap: nat, preferred: seq<string>)
    ensures GenreTermAsWritten(overlap, preferred).Raise? <==> preferred == []
    ensures preferred != [] ==> GenreTermAsWritten(overlap, preferred) == Ok(GenreTerm(overlap, |preferred|))
    ensures preferred == [] ==> GenreTerm(overlap, |preferred|) == 0.0
  {
  }

  /** The score of a game when the user supplied no played games (`compute_score_genre`),
      with the corrected guard: zero above the user's price ceiling, otherwise the
      preferred-genre term plus the rating/price term. */
  function GenreModeScore(g: Game, overlap: nat, preferredCount: nat, maxPrice: real,
                          maxRatio: int, ceiling: real): (r: real)
    requires maxRatio != 0
    ensures g.price > ceiling ==> r == 0.0
  {
    var genreScore := GenreTerm(overlap, preferredCount);
    var ratePrice := RatePrice(g.positiveRatio, maxRatio, g.price, maxPrice);
    if g.price > ceiling then 0.0 else genreScore + ratePrice
  }

  /** Within the catalogue's maxima the genre-mode score is never negative, and it is positive
      exactly when the game is affordable and has a positive rating/price or genre term. */
  lemma GenreModeScoreSign(g: Game, overlap: nat, preferredCount: nat, maxPrice: real,
                           maxRatio: int, ceiling: real)
    requires 0 <= g.positiveRatio <= maxRatio && maxRatio > 0
    requires 0.0 <= g.price <= maxPrice
    ensures GenreModeScore(g, overlap, preferredCount, maxPrice, maxRatio, ceiling) >= 0.0
    ensures GenreModeScore(g, overlap, preferredCount, maxPrice, maxRatio, ceiling) > 0.0 <==>
            g.price <= ceiling &&
            (RatePrice(g.positiveRatio, maxRatio, g.price, maxPrice) > 0.0 ||
             GenreTerm(overlap, preferredCount) > 0.0)
  {
    RatePriceBounds(g.positiveRatio, maxRatio, g.price, maxPrice);
  }
}
