/** The orders the ranking code sorts into and the states its sorting loops keep: games
    sorted by descending rating, games of equal rating kept in their original order, and the
    per-round invariants of the insertion sort in game_graph.py and older_versions/gamegraph1.py. */
module Order {
  import opened Common
  import opened Games

  predicate AllRated(s: seq<Game>) {
    forall i :: 0 <= i < |s| ==> s[i].rating.Some?
  }

  /** `s[lo..hi]` is in non-increasing order of rating. */
  predicate DescendingBetween(s: seq<Game>, lo: int, hi: int)
    requires AllRated(s) && 0 <= lo <= hi <= |s|
  {
    forall i, j :: lo <= i < j < hi ==> s[j].rating.value <= s[i].rating.value
  }

  predicate Descending(s: seq<Game>)
    requires AllRated(s)
  {
    DescendingBetween(s, 0, |s|)
  }

  /** The subsequence of the games of `s` whose rating is `v`, in their order in `s`. */
  function WithRating(s: seq<Game>, v: Option<real>): seq<Game>
    decreases |s|
  {
    if s == [] then []
    else WithRating(s[..|s| - 1], v) + (if s[|s| - 1].rating == v then [s[|s| - 1]] else [])
  }

  /** `t` orders the games of each rating as `s` does: a stable rearrangement. */
  ghost predicate SameTies(s: seq<Game>, t: seq<Game>) {
    forall v :: WithRating(s, v) == WithRating(t, v)
  }

  lemma {:induction false} WithRatingAppend(s: seq<Game>, t: seq<Game>, v: Option<real>)
    ensures WithRating(s + t, v) == WithRating(s, v) + WithRating(t, v)
    decreases |t|
  {
    if t == [] {
      assert s + t == s;
    } else {
      var t' := t[..|t| - 1];
      assert (s + t)[..|s + t| - 1] == s + t';
      assert (s + t)[|s + t| - 1] == t[|t| - 1];
      WithRatingAppend(s, t', v);
    }
  }

  /** The games of one rating in a list of three parts are those of each part in turn. */
  lemma WithRatingSplice(pre: seq<Game>, mid: seq<Game>, post: seq<Game>, v: Option<real>)
    ensures WithRating(pre + mid + post, v) == WithRating(pre, v) + WithRating(mid, v) + WithRating(post, v)
  {
    WithRatingAppend(pre + mid, post, v);
    WithRatingAppend(pre, mid, v);
  }

  /** Two games of different ratings contribute the same to each rating in either order. */
  lemma WithRatingPairSwap(a: Game, b: Game, v: Option<real>)
    requires a.rating != b.rating
    ensures WithRating([a, b], v) == WithRating([b, a], v)
  {
    assert [a, b][..1] == [a];
    assert [b, a][..1] == [b];
  }

  /** Exchanging two neighbouring games of different ratings keeps every rating's games in
      the same order. */
  lemma SwapKeepsTies(s: seq<Game>, i: int)
    requires 0 <= i < |s| - 1 && s[i].rating != s[i + 1].rating
    ensures SameTies(s, s[i := s[i + 1]][i + 1 := s[i]])
  {
    var t := s[i := s[i + 1]][i + 1 := s[i]];
    var pre, post := s[..i], s[i + 2..];
    assert s == pre + [s[i], s[i + 1]] + post;
    assert t == pre + [s[i + 1], s[i]] + post;
    forall v ensures WithRating(s, v) == WithRating(t, v) {
      WithRatingSplice(pre, [s[i], s[i + 1]], post, v);
      WithRatingSplice(pre, [s[i + 1], s[i]], post, v);
      WithRatingPairSwap(s[i], s[i + 1], v);
    }
  }

  lemma SameTiesTrans(r: seq<Game>, s: seq<Game>, t: seq<Game>)
    requires SameTies(r, s) && SameTies(s, t)
    ensures SameTies(r, t)
  {
  }

  /** A rearrangement keeps every lower bound on the ratings. */
  lemma BoundKeptByPermutation(s: seq<Game>, t: seq<Game>, y: real)
    requires multiset(s) == multiset(t)
    requires forall i :: 0 <= i < |s| ==> s[i].rating.Some? && s[i].rating.value >= y
    ensures forall i :: 0 <= i < |t| ==> t[i].rating.Some? && t[i].rating.value >= y
  {
    forall i | 0 <= i < |t| ensures t[i].rating.Some? && t[i].rating.value >= y {
      assert t[i] in multiset(t);
      assert t[i] in s;
    }
  }

  /** What an insertion keeps while the game it inserts moves left from `currentIndex`,
      starting from the list `start` and sorting the list `orig`: the insertion's shape, the
      part after `currentIndex` untouched, the same games as `start`, and the ties of `orig`
      in order. */
  ghost predicate Raising(orig: seq<Game>, start: seq<Game>, cur: seq<Game>, index: int, currentIndex: int) {
    && |cur| == |start| && 0 <= index <= currentIndex < |cur|
    && AllRated(cur) && Inserting(cur, index, currentIndex)
    && cur[currentIndex + 1..] == start[currentIndex + 1..]
    && multiset(cur) == multiset(start)
    && SameTies(orig, cur)
  }

  /** What `sort_games_helper` keeps while the game it inserts moves left from
      `currentIndex`: the part before `index` is sorted and untouched, the part from `index`
      to `currentIndex` is sorted, and nothing before `index` rates below anything after it. */
  predicate Inserting(s: seq<Game>, index: int, currentIndex: int)
    requires AllRated(s) && 0 <= index <= currentIndex < |s|
  {
    && DescendingBetween(s, 0, index)
    && DescendingBetween(s, index, currentIndex + 1)
    && forall j, k :: 0 <= j < index < k <= currentIndex ==> s[k].rating.value <= s[j].rating.value
  }

  /** One round of the helper's loop: the swap when the game at `index` rates strictly above
      its left neighbour, then the step to `index - 1`. */
  lemma InsertingStep(s: seq<Game>, index: int, currentIndex: int)
    requires AllRated(s) && 0 < index <= currentIndex < |s| && Inserting(s, index, currentIndex)
    ensures var t := if s[index].rating.value > s[index - 1].rating.value
                     then s[index - 1 := s[index]][index := s[index - 1]] else s;
            && AllRated(t) && t[currentIndex + 1..] == s[currentIndex + 1..]
            && Inserting(t, index - 1, currentIndex)
  {
    if s[index].rating.value > s[index - 1].rating.value {
      var t := s[index - 1 := s[index]][index := s[index - 1]];
      assert AllRated(t);
      assert t[currentIndex + 1..] == s[currentIndex + 1..];
    }
  }

  /** A round of an insertion loop that swaps keeps its state: when the game at `index`
      rates strictly above its left neighbour, the list `t` with the two exchanged is in the
      state for `index - 1`. (Stated as an implication, so that a loop's state is passed
      along as one fact.) */
  lemma RaisingSwaps(orig: seq<Game>, start: seq<Game>, s: seq<Game>, t: seq<Game>, index: int, currentIndex: int)
    ensures Raising(orig, start, s, index, currentIndex) && index > 0
            && s[index].rating.value > s[index - 1].rating.value
            && t == s[index - 1 := s[index]][index := s[index - 1]]
            ==> Raising(orig, start, t, index - 1, currentIndex)
  {
    if Raising(orig, start, s, index, currentIndex) && index > 0
       && s[index].rating.value > s[index - 1].rating.value
       && t == s[index - 1 := s[index]][index := s[index - 1]]
    {
      InsertingStep(s, index, currentIndex);
      SwapKeepsTies(s, index - 1);
      SameTiesTrans(orig, s, t);
    }
  }

  /** A round of an insertion loop that does not swap keeps its state. */
  lemma RaisingKeeps(orig: seq<Game>, start: seq<Game>, s: seq<Game>, index: int, currentIndex: int)
    ensures Raising(orig, start, s, index, currentIndex) && index > 0
            && s[index].rating.value <= s[index - 1].rating.value
            ==> Raising(orig, start, s, index - 1, currentIndex)
  {
    if Raising(orig, start, s, index, currentIndex) && index > 0
       && s[index].rating.value <= s[index - 1].rating.value
    {
      InsertingStep(s, index, currentIndex);
    }
  }

  /** The helper starts in that state when the list is sorted before `currentIndex`. */
  lemma HelperStarts(s: seq<Game>, currentIndex: int)
    requires 0 <= currentIndex < |s| && AllRated(s) && DescendingBetween(s, 0, currentIndex)
    ensures Raising(s, s, s, currentIndex, currentIndex)
  {
  }

  /** When an insertion loop ends, `cur[:currentIndex + 1]` is sorted and holds the games
      `start` held there, and the rest is as in `start`. */
  lemma HelperDone(orig: seq<Game>, start: seq<Game>, cur: seq<Game>, currentIndex: int)
    requires Raising(orig, start, cur, 0, currentIndex)
    ensures AllRated(cur) && DescendingBetween(cur, 0, currentIndex + 1)
    ensures cur[currentIndex + 1..] == start[currentIndex + 1..]
    ensures multiset(cur[..currentIndex + 1]) == multiset(start[..currentIndex + 1])
    ensures multiset(cur) == multiset(start) && SameTies(orig, cur)
  {
    PrefixMultiset(start, cur, currentIndex + 1);
  }

  /** Two rearrangements of each other that agree after position `k` agree, as multisets,
      before it. */
  lemma PrefixMultiset(s: seq<Game>, t: seq<Game>, k: int)
    requires 0 <= k <= |s| == |t|
    requires multiset(s) == multiset(t) && s[k..] == t[k..]
    ensures multiset(s[..k]) == multiset(t[..k])
  {
    assert s == s[..k] + s[k..];
    assert t == t[..k] + t[k..];
    assert multiset(s) == multiset(s[..k]) + multiset(s[k..]);
    assert multiset(t) == multiset(t[..k]) + multiset(t[k..]);
    forall x ensures multiset(s[..k])[x] == multiset(t[..k])[x] {
      assert multiset(s)[x] == multiset(s[..k])[x] + multiset(s[k..])[x];
      assert multiset(t)[x] == multiset(t[..k])[x] + multiset(t[k..])[x];
    }
  }

  /** What `sort_games` keeps at the start of the round for `index`: the list is a stable
      rearrangement of `orig` and sorted through `index`. */
  ghost predicate Sorting(orig: seq<Game>, cur: seq<Game>, index: int) {
    && |cur| == |orig| && 0 <= index && (|cur| == 0 || index <= |cur| - 1)
    && AllRated(cur)
    && DescendingBetween(cur, 0, if |cur| == 0 then 0 else index + 1)
    && multiset(cur) == multiset(orig)
    && SameTies(orig, cur)
  }

  /** Before the first round. */
  lemma SortingStarts(s: seq<Game>)
    requires AllRated(s)
    ensures Sorting(s, s, 0)
  {
  }

  /** A round whose pair is in order keeps the sorted prefix growing. */
  lemma SortingKeeps(orig: seq<Game>, s: seq<Game>, index: int)
    ensures Sorting(orig, s, index) && index < |s| - 1
            && s[index].rating.value >= s[index + 1].rating.value
            ==> Sorting(orig, s, index + 1)
  {
  }

  /** Swapping the out-of-order pair just after a sorted prefix starts an insertion: the
      prefix before it stays sorted, and the game moved right rates no higher than any game
      before it. */
  lemma SwapStartsInsertion(s0: seq<Game>, s1: seq<Game>, index: int)
    requires 0 <= index < |s0| - 1 && AllRated(s0) && DescendingBetween(s0, 0, index + 1)
    requires s0[index].rating.value < s0[index + 1].rating.value
    requires s1 == s0[index := s0[index + 1]][index + 1 := s0[index]]
    ensures AllRated(s1) && Inserting(s1, index, index)
    ensures forall j :: 0 <= j <= index ==> s1[index + 1].rating.value <= s1[j].rating.value
  {
    assert AllRated(s1);
  }

  /** The swap of an out-of-order pair starts the insertion loop's state. */
  lemma SortingSwaps(orig: seq<Game>, s0: seq<Game>, s1: seq<Game>, index: int)
    ensures Sorting(orig, s0, index) && index < |s0| - 1
            && s0[index].rating.value < s0[index + 1].rating.value
            && s1 == s0[index := s0[index + 1]][index + 1 := s0[index]]
            ==> Raising(orig, s1, s1, index, index)
  {
    if Sorting(orig, s0, index) && index < |s0| - 1
       && s0[index].rating.value < s0[index + 1].rating.value
       && s1 == s0[index := s0[index + 1]][index + 1 := s0[index]]
    {
      SwapStartsInsertion(s0, s1, index);
      SwapKeepsTies(s0, index);
      SameTiesTrans(orig, s0, s1);
    }
  }

  /** After `sort_games` swaps the out-of-order pair at `index` and the insertion re-sorts
      `games[:index + 1]`, the sorted prefix has grown by one: everything the insertion
      rearranged rates at least the game now at `index + 1`. */
  lemma SortingExtends(orig: seq<Game>, s0: seq<Game>, s1: seq<Game>, cur: seq<Game>, index: int)
    requires Sorting(orig, s0, index) && index < |s0| - 1
    requires s0[index].rating.value < s0[index + 1].rating.value
    requires s1 == s0[index := s0[index + 1]][index + 1 := s0[index]]
    requires |cur| == |s1| && AllRated(cur) && DescendingBetween(cur, 0, index + 1)
    requires cur[index + 1..] == s1[index + 1..]
    requires multiset(cur[..index + 1]) == multiset(s1[..index + 1])
    requires multiset(cur) == multiset(s1) && SameTies(orig, cur)
    ensures Sorting(orig, cur, index + 1)
  {
    SwapStartsInsertion(s0, s1, index);
    var y := s1[index + 1].rating.value;
    assert cur[index + 1] == s1[index + 1];
    BoundKeptByPermutation(s1[..index + 1], cur[..index + 1], y);
    assert forall j :: 0 <= j <= index ==> cur[..index + 1][j] == cur[j];
  }

  /** The same step when the insertion loop's own final state is at hand, as in
      older_versions/gamegraph1.py, where the insertion is written inline. */
  lemma InsertionExtends(orig: seq<Game>, s0: seq<Game>, s1: seq<Game>, cur: seq<Game>, index: int)
    ensures Sorting(orig, s0, index) && index < |s0| - 1
            && s0[index].rating.value < s0[index + 1].rating.value
            && s1 == s0[index := s0[index + 1]][index + 1 := s0[index]]
            && Raising(orig, s1, cur, 0, index)
            ==> Sorting(orig, cur, index + 1)
  {
    if Sorting(orig, s0, index) && index < |s0| - 1
       && s0[index].rating.value < s0[index + 1].rating.value
       && s1 == s0[index := s0[index + 1]][index + 1 := s0[index]]
       && Raising(orig, s1, cur, 0, index)
    {
      HelperDone(orig, s1, cur, index);
      SortingExtends(orig, s0, s1, cur, index);
    }
  }

  /** After the last round the whole list is sorted. */
  lemma SortingDone(orig: seq<Game>, cur: seq<Game>, index: int)
    ensures Sorting(orig, cur, index) && !(index < |cur| - 1)
            ==> AllRated(cur) && Descending(cur) && multiset(cur) == multiset(orig) && SameTies(orig, cur)
  {
  }
}
