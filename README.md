# Steam game recommender: a verified model of its game graphs

The recommender keeps a catalogue of Steam games in a graph. Each node holds one game and a
list of neighbouring nodes. An edge joins two games that are related: in the current engine,
a game the user has played and any other game; in the earlier versions, two games that
share enough genres. The engine scores every game against the user's preferences and
recommends the best-rated ones.

This project models the graph classes of five versions of that engine in Dafny and proves
what each operation does:

- **game_graph.py**, the current engine (`Engine`, `Scoring`, `Ranking`, `Order`, `GraphModel`,
  `Games`, `Genres`):
  - building the graph (`add_game`, `add_edge`, `add_all_edges`);
  - the catalogue maxima and the user's genres;
  - the two scoring modes and `assign_all_scores`;
  - the in-place descending insertion sort;
  - `highest_scoring_game`, `top_games` and `highest_scoring_games`.
- **older_versions/gamegraph1.py**, the first version (`GamesV1`, `GraphV1`, `Legacy`): threshold
  graphs over genre lists, the recursive `top_games`, `node_list`, the similar-games search of
  a node, and its own `sort_games` (proved with the sort invariants in `Order`).
- **game_graph_csv.py** (`SetGames`, `GraphCsv`): the same graph over genre sets, with edges
  added by game id.
- **game_graph_1.py** (`GraphByName`): nodes stored under the game's name.
- **AbstractGraphVersion.py** (`AbstractGraph`): an abstract graph and its two subclasses.

How the model is built:

- A graph is a class whose `nodes` field is a map from key to node value.
- A node (`Games.Vertex`) names its neighbours by their keys, so Python's shared node objects
  become keys into that map.
- Python's `list.append` on a neighbour list becomes a reassignment of the map entry
  (`GraphModel.Link`).
- Loops over a dictionary or a set take an element whose choice is left open
  (`Common.Choose`). Every property is therefore proved for every iteration order.
- `Game.rating` is `None` until the game is scored. In game_graph.py an unscored game has no
  `rating` attribute at all (`Game.__init__` never sets it), and `None` stands for that
  absent attribute; reading it raises AttributeError. The earlier versions' loaders pass
  `None` explicitly.
- Exceptions the source raises on reachable inputs are modelled as results:
  `Common.Result`/`Common.Outcome` carrying a `Common.PyError`.

Where the code does something other than its docstrings, comments or names suggest, the
model follows the code:

- The neighbour term of a score divides the length of the node's neighbour list, duplicates
  included, by the number of user nodes.
- `genre_count` counts the entries of the game's genre list, with repeats, not distinct
  labels.
- The docstring bound `rating <= 1.0` does not hold (`Scoring.GameModeScoreCanExceedOne`).
- `top_games` works whether or not the user listed games; its docstring's
  `user_game_ids == []` is not needed.
- In the first version, genres are compared case-sensitively.
- `compute_score_genre` guards its genre term with a test that always passes, so an empty
  preferred-genre list raises ZeroDivisionError (`Engine.GameGraph.ComputeScoreGenre`).
- `highest_scoring_games` falls back on `top_games` as written, so it raises KeyError when
  the user nodes have no neighbours and `total_games` is at least the number of stored games
  (`Engine.GameGraph.HighestScoringGames`).
- The corrected versions of these two guards are modelled beside them (see Findings).
- Some parts of the source never run as written:
  - game_graph_1.py stops loading with an indentation error at line 145.
  - AbstractGraphVersion.py evaluates the annotation `dict[int, GameNode]` at line 16, and
    neither `GameNode` nor `Game` is defined there.
  - The model gives each of these classes the behaviour its methods' bodies describe.

## Model

| member | source | states |
|---|---|---|
| Genres.OverlapBounds | game_graph.py:53-60 | the case-insensitive genre count never exceeds the game's genre list, and equals its length exactly when every genre matches |
| Genres.OverlapIgnoresCase | game_graph.py:55-58 | lower-casing the game's genres or the collection first does not change the count |
| Genres.OverlapMonotone | game_graph.py:53-60 | a collection covering more lower-cased labels never gives a smaller count |
| Games.GenreCount | game_graph.py:53-60 | the loop counts the genres whose lower-cased form is among the lower-cased collection, and the count is at most the number of genres |
| Engine.GameGraph.constructor | game_graph.py:106-112 | an empty graph with no user nodes, keeping the user's ids, genres and price ceiling |
| Engine.GameGraph.AddGame | game_graph.py:114-120 | a fresh node replaces whatever was stored under the game's id, the id becomes a user node exactly when the user listed it, the graph stays well formed, and symmetry is kept unless a node with neighbours is replaced |
| GraphModel.AddNodeKeepsSymmetry | game_graph.py:114-120 | storing a node without neighbours in place of one without neighbours keeps the neighbour relation symmetric |
| GraphModel.Link | game_graph.py:133-140 | an edge keeps every key and game, only extends neighbour lists, and adds exactly one entry to each endpoint's list for the other |
| GraphModel.LinkKeepsSymmetry | game_graph.py:71-72 | an edge keeps the `GameNode` invariant that every node is a neighbour of each of its neighbours |
| GraphModel.LinkKeepsClosed | game_graph.py:133-140 | an edge between stored nodes only names stored nodes |
| GraphModel.LinkKeepsWellFormed | game_graph.py:91-94 | an edge keeps the graph's representation invariants |
| Engine.GameGraph.AddEdge | game_graph.py:133-140 | the two stored nodes are linked both ways, the user nodes are unchanged and symmetry is kept |
| Engine.GameGraph.AddEdgesOf | game_graph.py:127-131 | the inner loop, for any order of the keys, appends the user node to every other node's list and every other node to the user node's list |
| Engine.GameGraph.Visit | game_graph.py:128-131 | one step of that loop links the pair unless it is one node |
| Engine.GameGraph.AddAllEdges | game_graph.py:122-131 | for any order of the keys, each node's list grows at its end by every other stored node when it is a user node, and by every user node other than itself; the graph stays well formed and symmetric |
| GraphModel.EdgesGrow | game_graph.py:126-131 | one more finished round of the outer loop adds exactly that user node's edges |
| GraphModel.EdgesKeepSymmetry | game_graph.py:122-131 | all rounds together keep the neighbour relation symmetric |
| GraphModel.EdgesOnFreshGraph | game_graph.py:122-131 | on a graph without edges no node becomes its own neighbour, a non-user node lists each user node once, and a user node lists every other node once plus every other user node once more |
| Engine.GameGraph.MaxPrice | game_graph.py:142-149 | the result is the largest price of a stored game, and 0.0 when no price is positive |
| GraphModel.MaxPriceUnique | game_graph.py:142-149 | the maximum price is fixed by its defining properties, so the loop's result does not depend on the order of the keys |
| Engine.GameGraph.MaxPositiveRatio | game_graph.py:151-158 | the result is the largest positive ratio of a stored game, and 0 when none is positive |
| GraphModel.MaxRatioUnique | game_graph.py:151-158 | the maximum ratio is fixed by its defining properties, so the loop's result does not depend on the order of the keys |
| Engine.GameGraph.UserGenres | game_graph.py:160-168 | the list holds each genre of the user nodes' games exactly once, and no other label |
| GraphModel.UserGenresNonEmpty | game_graph.py:160-168 | a graph with a user node has a user genre, since no game has an empty genre list |
| Scoring.RatePriceBounds | game_graph.py:203-206 | within the catalogue maxima the rating/price term lies in [0, 1], and in [0, 0.6] in the weighted branch |
| Scoring.RatePriceByPrice | game_graph.py:203-206 | a cheaper game never gets a lower term than a dearer one below the maximum price, and the most expensive game gets the largest term |
| Scoring.GameModeScore | game_graph.py:208-216 | the score is zero above the user's price ceiling, and zero when the genre count against the stated genres differs from the number of user nodes |
| Scoring.GameModeScoreSign | game_graph.py:184-216 | the game-mode score is never negative, and it is positive exactly when the game passes both filters and has a positive rating/price term, a neighbour or a shared genre |
| Scoring.GameModeScoreCanExceedOne | game_graph.py:36 | the rating bound `rating <= 1.0` of the `Game` invariant is broken by a concrete game with a score of 1.7 |
| Scoring.GenreGuardFinding | game_graph.py:233-235 | the term as written raises exactly on an empty preference list, and otherwise equals the corrected term |
| Scoring.GenreTerm | game_graph.py:231-235 | the corrected preferred-genre term is non-negative, zero for an empty preference list and at most 0.4 |
| Scoring.GenreModeScore | game_graph.py:237-245 | the genre-mode score is zero above the user's price ceiling |
| Scoring.GenreModeScoreSign | game_graph.py:218-245 | the genre-mode score is never negative, and it is positive exactly when the game is affordable and has a positive rating/price or genre term |
| GraphModel.ScoreOf | game_graph.py:175-182 | the score assigned by either mode is zero above the price ceiling, and in game mode zero when the stated-genre count differs from the number of user nodes |
| GraphModel.ScoreNonNegative | game_graph.py:36 | every assigned score is non-negative, the lower half of the `Game` rating invariant |
| GraphModel.RatingKeepsWellFormed | game_graph.py:214-216 | rating a stored game with its score keeps every representation invariant of the graph |
| GraphModel.ScoreIgnoresRatings | game_graph.py:184-245 | no score reads a rating, so graphs that differ only in ratings score alike |
| GraphModel.ScoredGraph | game_graph.py:170-173 | after scoring, every node keeps its key and neighbours and its game carries a rating |
| GraphModel.ScoringStep | game_graph.py:172-173 | scoring one more node keeps the loop's state |
| GraphModel.ScoringFails | game_graph.py:172-173 | the first score that cannot be computed is met before any game is rated |
| GraphModel.ScoringDone | game_graph.py:170-173 | when the loop ends, every game is rated with its score, whatever the order |
| GraphModel.ScoringIdempotent | game_graph.py:170-173 | scoring a scored graph again changes nothing |
| Engine.GameGraph.ComputeScoreGame | game_graph.py:184-216 | the node's game gets its game-mode score; exactly when the largest ratio is 0 or there is no user node, ZeroDivisionError is raised and nothing changes |
| Engine.GameGraph.ComputeScoreGenre | game_graph.py:218-245 | the node's game gets its genre-mode score; exactly when the preferred-genre list is empty or the largest ratio is 0, ZeroDivisionError is raised and nothing changes |
| Engine.GameGraph.ComputeScore | game_graph.py:175-182 | the mode follows whether the user listed games; it raises exactly when the graph is not scorable: no positive ratio, no stored user game in game mode, or no preferred genre in genre mode |
| Engine.GameGraph.AssignAllScores | game_graph.py:170-173 | for any order of the keys, every stored game gets its score; it raises, leaving the graph unchanged, exactly when the graph has nodes and is not scorable (no game has a positive ratio; in game mode, no stored user game has a genre; in genre mode, the preferred-genre list is empty) |
| Ranking.Swap | game_graph.py:373 | the tuple swap: the two neighbouring games trade places and nothing else in the list changes |
| Order.SwapKeepsTies | game_graph.py:373 | exchanging neighbours with different ratings keeps every rating's games in the same order |
| Order.InsertingStep | game_graph.py:385-387 | one step of the helper's loop keeps the inserted game's run sorted and not above the sorted part before it |
| Order.RaisingSwaps | game_graph.py:385-387 | a step of an insertion loop that swaps keeps the insertion's shape, the untouched suffix, the same games and the ties in order |
| Order.RaisingKeeps | game_graph.py:385-386 | a step of an insertion loop that does not swap keeps that state for the next index |
| Order.HelperDone | game_graph.py:378-387 | when an insertion loop ends, the prefix through the inserted index is sorted and holds the games it held, and the rest is as it was |
| Ranking.SortGamesHelper | game_graph.py:378-387 | with the prefix before `current_index` sorted, the prefix through `current_index` ends sorted, holds the same games, keeps ties in order, and nothing after it changes |
| Order.SwapStartsInsertion | game_graph.py:372-374 | swapping an out-of-order pair after a sorted prefix starts an insertion whose moved game rates no higher than the prefix |
| Order.SortingSwaps | game_graph.py:372-374 | swapping an out-of-order pair after a sorted prefix puts the list in the insertion loop's starting state, with the same games and ties in order |
| Order.SortingExtends | game_graph.py:372-375 | after the swap and the helper, the sorted prefix has grown by one and the list is still a stable rearrangement of the original |
| Order.SortingDone | game_graph.py:372 | once the last pair is handled the whole list is sorted, holds the same games and keeps ties in order |
| Ranking.SortGames | game_graph.py:369-375 | the list ends in non-increasing order of rating, holds the same games, and keeps games of equal rating in their original order |
| Ranking.Sorted | game_graph.py:369-375 | a sorted copy is ordered, a rearrangement of its input of the same length, and stable |
| Ranking.HighestScoringGame | game_graph.py:390-398 | `None` exactly when every rating is negative (for non-negative ratings, exactly on the empty set); otherwise a member rated at least as high as every member |
| Ranking.TopOfPermutation | game_graph.py:267 | sorting a top selection keeps it a top selection of the same pool |
| Ranking.SelectStep | game_graph.py:286-290 | taking a best game out of the pool keeps the selection loop's state |
| Ranking.SelectCounts | game_graph.py:286-290 | the picks are a top selection of the unexcluded games, and picks plus unexcluded games left make up all of them |
| Ranking.SelectTop | game_graph.py:285-292 | the result has `min(total, number of unexcluded games)` games, is a top selection of them, and is sorted best first |
| Ranking.SelectAllAsWritten | game_graph.py:257-268 | the loop as written raises KeyError exactly when `total` is at least the pool size, and otherwise returns `total` games forming a top selection, sorted |
| GraphModel.GamesOfInsert | game_graph.py:279-282 | adding a stored key to a key set adds exactly its game |
| GraphModel.GamesOfCard | game_graph.py:92 | since nodes are stored under their game's id, a set of keys has as many games as keys |
| GraphModel.ScoredRatings | game_graph.py:36 | in a scored, well-formed graph every game has a non-negative rating |
| Engine.GameGraph.TopGamesAsWritten | game_graph.py:247-268 | `top_games` as written raises KeyError exactly when `total` is at least the number of stored games, and otherwise returns `total` of the highest-rated stored games, best first |
| Engine.GameGraph.TopGames | game_graph.py:247-268 | with the intended guard, it returns the `min(total, number of stored games)` highest-rated stored games, best first |
| Engine.GameGraph.NeighbourGames | game_graph.py:277-282 | the set is exactly the games of the neighbours of the user nodes |
| Engine.GameGraph.HighestScoringGames | game_graph.py:270-295 | with neighbours present, it returns the `min(total, number of candidates)` highest-rated neighbour games that are not the user's own, best first; otherwise it gives what `top_games` as written gives: KeyError exactly when `total_games` is at least the number of stored games, else `total_games` of the highest-rated stored games, best first |
| Engine.GameGraph.HighestScoringGamesCorrected | game_graph.py:270-295 | with the guard of `top_games` corrected it never raises; without neighbours it returns the `min(total, number of stored games)` highest-rated stored games, best first |
| Genres.MatchingProps | older_versions/gamegraph1.py:52-58 | the matched list is no longer than the game's genres, holds only genres in both lists, and keeps each collection genre as often as the game lists it |
| GamesV1.GenreList | older_versions/gamegraph1.py:52-58 | the loop keeps, in order and with repeats, the game's genres that occur in the collection |
| GamesV1.GenreCount | older_versions/gamegraph1.py:39-41 | the count is the length of the matched list, at most the number of the game's genres |
| GamesV1.SameNumGame | older_versions/gamegraph1.py:43-50 | true exactly when at least `total_needed` of the game's genres occur among the other game's |
| GraphV1.GameGraph.constructor | older_versions/gamegraph1.py:129-134 | an empty graph keeping both thresholds and the user's genres |
| GraphV1.GameGraph.AddGame | older_versions/gamegraph1.py:136-142 | a fresh node is stored under the game's id exactly when enough of its genres are the user's; otherwise nothing changes |
| GraphV1.GameGraph.AddEdge | older_versions/gamegraph1.py:144-152 | the nodes are linked both ways exactly when they share at least `min_genres_edge` genres; otherwise nothing changes; symmetry is kept |
| Legacy.StoredGames | older_versions/gamegraph1.py:165-166 | the set holds the game of every stored node and nothing else |
| Legacy.PickBest | older_versions/gamegraph1.py:163-169 | for any order of the keys, the pick is `None` exactly when no unrecorded game scores above 0, and otherwise an unrecorded game that scores above 0 and at least as high as every unrecorded game |
| Legacy.RankedCons | older_versions/gamegraph1.py:170-173 | a best pick followed by the picks made with it recorded is a ranked list |
| Legacy.TopPicks | older_versions/gamegraph1.py:154-173 | `total` picks, each the best game not recorded before it, with every pick added to the recorded set |
| Legacy.UnhashablePicks | older_versions/gamegraph1.py:154-173 | `top_games` with games that cannot be hashed: TypeError exactly when `total > 0` and a game is stored; otherwise `total` copies of `None`, with `None` recorded |
| Legacy.RankedPicksOrder | older_versions/gamegraph1.py:154-173 | in ranked picks, once a pick is `None` all later picks are too; the games are distinct, unrecorded and score above 0; and scores never increase along the list |
| GraphV1.GameGraph.TopGamesAsWritten | older_versions/gamegraph1.py:154-173 | with the unhashable dataclass game, it raises TypeError exactly when `total > 0` and a game is stored; on an empty graph it returns `total` copies of `None` |
| GraphV1.GameGraph.TopGames | older_versions/gamegraph1.py:154-173 | with hashable games, `total` ranked picks of the highest-rated stored games, each recorded |
| Legacy.NodeList | older_versions/gamegraph1.py:175-180 | the list holds every stored node exactly once, in the order of the keys |
| GraphV1.GameGraph.NodeList | older_versions/gamegraph1.py:175-180 | the list holds every stored node exactly once |
| Legacy.NeighbourGames | older_versions/gamegraph1.py:92-93 | the games of a node's neighbours, one per neighbour in list order |
| Legacy.LastQualifyingProps | older_versions/gamegraph1.py:89-95 | the as-written pick is `None` exactly when no neighbour qualifies; otherwise it is the last qualifying neighbour in list order |
| Legacy.LastQualifyingFinding | older_versions/gamegraph1.py:90-95 | of two neighbours sharing 2 and then 1 genres, the as-written pick is the second |
| Legacy.ScanAsWritten | older_versions/gamegraph1.py:89-95 | the scan as written returns the last qualifying neighbour |
| Legacy.SimilarAsWritten | older_versions/gamegraph1.py:78-98 | the helper as written gives `min(total, number of neighbours)` picks, each the last qualifying neighbour not visited before it |
| Legacy.TopSimilar | older_versions/gamegraph1.py:78-98 | the corrected helper gives `min(total, number of neighbours)` ranked picks, each the most similar unvisited neighbour |
| GraphV1.GameGraph.TopSimilarGamesAsWritten | older_versions/gamegraph1.py:71-98 | with the unhashable dataclass game, it raises TypeError exactly when there is a neighbour to test, and otherwise returns `[]` |
| GraphV1.GameGraph.TopSimilarGames | older_versions/gamegraph1.py:71-98 | with hashable games, `min(total, number of neighbours)` picks ranked by shared genres with the node's game |
| GraphV1.RaiseSwapped | older_versions/gamegraph1.py:263-265 | from the state just after the swap, the inner loop ends with the prefix through `index1` sorted, the same games, the rest untouched and ties in order |
| Order.InsertionExtends | older_versions/gamegraph1.py:260-265 | when the inner loop ends, the sorted prefix has grown by one |
| GraphV1.SortGames | older_versions/gamegraph1.py:255-265 | the list ends in non-increasing order of rating, holds the same games, and keeps equal-rated games in order |
| Genres.SharedGenresProps | game_graph_csv.py:53-56 | the shared genres are no more than either set, and sharing is symmetric |
| SetGames.GenreList | game_graph_csv.py:53-56 | exactly the genres the game shares with the collection |
| SetGames.GenreCount | game_graph_csv.py:39-41 | the count is at most the size of either set |
| SetGames.SameNumGameProps | game_graph_csv.py:43-51 | `same_num_game` is symmetric in the two games and monotone in the requirement |
| GraphCsv.GameGraph.constructor | game_graph_csv.py:127-132 | an empty graph keeping both thresholds and the user's genres |
| GraphCsv.GameGraph.AddGame | game_graph_csv.py:134-140 | a fresh node is stored exactly when the game shares at least `min_genres_game` genres with the user; otherwise nothing changes |
| GraphCsv.GameGraph.AddEdge | game_graph_csv.py:142-154 | two distinct stored games are linked both ways exactly when they share at least `min_genres_edge` genres; otherwise nothing changes; symmetry is kept |
| GraphCsv.GameGraph.TopGamesAsWritten | game_graph_csv.py:156-175 | with the unhashable dataclass game, it raises TypeError exactly when `total > 0` and a game is stored |
| GraphCsv.GameGraph.TopGames | game_graph_csv.py:156-175 | with hashable games, `total` ranked picks of the highest-rated stored games |
| GraphCsv.GameGraph.TopSimilarGamesAsWritten | game_graph_csv.py:69-98 | with the unhashable dataclass game, it raises TypeError exactly when there is a neighbour to test |
| GraphCsv.GameGraph.TopSimilarGames | game_graph_csv.py:69-98 | with hashable games, `min(total, number of neighbours)` picks ranked by shared genres |
| GraphByName.GameGraph.constructor | game_graph_1.py:85-88 | an empty graph whose `user_genres` is unassigned |
| GraphByName.GameGraph.AddGame | game_graph_1.py:90-95 | it raises AttributeError while `user_genres` is unassigned; otherwise it stores the node under its game's name exactly when the game shares at least `game_total` genres with the user |
| GraphByName.GameGraph.AddEdge | game_graph_1.py:97-107 | the nodes are linked both ways exactly when they share a genre; otherwise nothing changes; symmetry is kept |
| AbstractGraph.AbstractGameGraph.constructor | AbstractGraphVersion.py:18-20 | an empty graph |
| AbstractGraph.AbstractGameGraph.AddGame | AbstractGraphVersion.py:22-25 | always raises NotImplementedError |
| AbstractGraph.AbstractGameGraph.AddEdge | AbstractGraphVersion.py:27-33 | always raises NotImplementedError |
| AbstractGraph.AbstractGameGraph.TopGames | AbstractGraphVersion.py:35-54 | `total` ranked picks of the highest-rated stored games, each recorded |
| AbstractGraph.AbstractGameGraph.NodeList | AbstractGraphVersion.py:56-61 | the list holds every stored node exactly once |
| AbstractGraph.SimilarGameGraph.constructor | AbstractGraphVersion.py:79-83 | an empty graph keeping the edge threshold and the user's games |
| AbstractGraph.SimilarGameGraph.AddGame | AbstractGraphVersion.py:85-88 | a fresh node always replaces whatever was stored under the game's id |
| AbstractGraph.SimilarGameGraph.AddEdge | AbstractGraphVersion.py:90-95 | the nodes are linked both ways exactly when they share at least `min_genres_edge` genres; otherwise nothing changes |
| AbstractGraph.SimilarGenreGraph.constructor | AbstractGraphVersion.py:112-116 | an empty graph keeping the genre list and the threshold |
| AbstractGraph.SimilarGenreGraph.AddGame | AbstractGraphVersion.py:118-124 | a fresh node is stored exactly when enough of the game's genres are in the genre list; otherwise nothing changes |
| AbstractGraph.SimilarGenreGraph.AddEdge | AbstractGraphVersion.py:126-132 | the nodes are always linked both ways, keeping symmetry |

## Left out

- Reading the catalogue and genre files (`read_data_csv`, `read_metadata_csv`, `load_*`, `generate_graph`, `graph_list`), the runners and the GUI are left out. They are file I/O and user interaction.
- `sort_games` of game_graph_csv.py is left out. It is a stub with an empty body.
- Iteration order of dictionaries and sets is not modelled. Every loop over one is proved for all orders. As a result, which of several tied games `highest_scoring_game` or `top_games` returns is not pinned down.
- Object identity is not modelled. Nodes and games are values, and neighbours are keys into the graph. A neighbour reference left pointing at a node that `add_game` replaced under the same key is therefore not modelled.
- Floating point is modelled as exact reals, and Python's `int / int` as real division.
- `str.lower()` is modelled on ASCII letters only.
- Engine.GameGraph.AddGame: keeps symmetry only when the replaced node had no neighbours. Neighbours are keys, so a node that listed the replaced node now lists its replacement; in the source it keeps a reference to the old object.
- GraphV1.GameGraph.TopGames: requires every stored game to be rated. In the source an unrated game's `None > 0` raises TypeError; that error path is not modelled.
- GraphCsv.GameGraph.TopGames: requires every stored game to be rated, for the same reason.
- AbstractGraph.AbstractGameGraph.TopGames: requires every stored game to be rated, for the same reason.
- AbstractGraph.AbstractGameGraph.TopGames: AbstractGraphVersion.py defines no `Game`. The model assumes a hashable game with the first version's case-sensitive, list-based genre count, so the TypeError that the first version's unhashable dataclass would cause is not modelled for this class.
- Ranking.SortGames: requires every game to be rated. In game_graph.py an unscored game has no `rating` attribute, so reading it raises AttributeError; that error path is not modelled.
- Engine.GameGraph.TopGames: requires a scored graph, as the source's callers ensure by calling `assign_all_scores` first. Reading the rating of an unscored game raises AttributeError, because the attribute is never set before scoring; that path is not modelled.
- Engine.GameGraph.TopGamesAsWritten: requires a scored graph, for the same reason.
- Engine.GameGraph.HighestScoringGames: requires a scored graph, for the same reason.
- Engine.GameGraph.HighestScoringGamesCorrected: requires a scored graph, for the same reason.
- Ranking.HighestScoringGame, Ranking.Sorted, Ranking.SelectTop, Ranking.SelectAllAsWritten: require every game they compare to be rated; in game_graph.py reading the rating of an unscored game raises AttributeError.
- The line-281 test of `highest_scoring_games` compares a node with a set of games, so it always passes. The model adds each neighbour's game, which gives the same set.
- SetGames.SetGame does not keep the release date, the operating systems or the positive ratio. No graph operation reads them.
- GraphByName.GameGraph: `user_genres` is an optional field that callers may assign, standing for the attribute the constructor never sets.

## Findings

| source | as written | input that shows it | evidently intended | confidence | as-written member | corrected member |
|---|---|---|---|---|---|---|
| game_graph.py:263 | `while len(actual_suggestions) != total or len(possible_suggestions) == 0` keeps looping once the pool is empty and removes `None` from the set | a graph with one scored game and `total = 1`: raises KeyError | stop when `total` games are picked or the pool is empty (`and`, `!= 0`) | not executed | Engine.GameGraph.TopGamesAsWritten | Engine.GameGraph.TopGames |
| game_graph.py:233 | `len(self.user_game_genres) != []` compares an int with a list and is always true | no user games and an empty preferred-genre list: ZeroDivisionError | skip the genre term when the list is empty (`!= 0`) | not executed | Scoring.GenreGuardFinding | Scoring.GenreTerm |
| older_versions/gamegraph1.py:90-95 | the running maximum `max_genres_so_far` is never updated, so the last qualifying neighbour wins | neighbours sharing 2 and then 1 genres: the second is picked | pick the neighbour sharing the most genres | not executed | Legacy.LastQualifyingFinding | Legacy.TopSimilar |
| older_versions/gamegraph1.py:9 | `@dataclass` with the default `eq=True` makes `Game` unhashable, so the membership tests at lines 94 and 167 raise | `top_games(1, set())` on a graph with one game: TypeError | games usable in a set (`frozen=True` or `unsafe_hash=True`) | not executed | GraphV1.GameGraph.TopGamesAsWritten | GraphV1.GameGraph.TopGames |
| game_graph_csv.py:9 | the same unhashable `@dataclass` game; the membership tests at lines 94 and 169 raise | `top_similar_games(1)` on a node with one neighbour: TypeError | games usable in a set | not executed | GraphCsv.GameGraph.TopSimilarGamesAsWritten | GraphCsv.GameGraph.TopSimilarGames |
