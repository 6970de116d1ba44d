/** Genre labels and the three ways the versions of the engine compare them:
    - the current engine (game_graph.py) counts the entries of a game's genre list whose
      lower-cased form occurs among the lower-cased labels of a collection;
    - older_versions/gamegraph1.py keeps, in order and with repeats, the entries of a game's
      genre list that occur (case-sensitively) in a collection;
    - game_graph_csv.py and game_graph_1.py intersect two genre sets. */
module Genres {
  import opened Common

  /** Lower-casing of one character; only the ASCII letters are mapped. */
  function LowerChar(c: char): char {
    if 'A' <= c <= 'Z' then (c as int + 32) as char else c
  }

  /** Python's `str.lower()`, restricted to ASCII letters. */
  function Lower(s: string): (r: string)
    ensures |r| == |s|
    ensures forall i :: 0 <= i < |s| ==> r[i] == LowerChar(s[i])
  {
    seq(|s|, i requires 0 <= i < |s| => LowerChar(s[i]))
  }

  /** Lower-casing twice is lower-casing once. */
  lemma LowerIdempotent(s: string)
    ensures Lower(Lower(s)) == Lower(s)
  {
  }

  /** The list comprehension `[g.lower() for g in coll]`. */
  function LowerAll(coll: seq<string>): (r: seq<string>)
    ensures |r| == |coll|
    ensures forall i :: 0 <= i < |coll| ==> r[i] == Lower(coll[i])
  {
    seq(|coll|, i requires 0 <= i < |coll| => Lower(coll[i]))
  }

  /** The lower-cased forms of a set of labels. */
  function Lowered(coll: set<string>): set<string> {
    set c | c in coll :: Lower(c)
  }

  /** The entries of `genres`, in order and with repeats, whose lower-cased form is in `lowered`. */
  function CaselessMatches(genres: seq<string>, lowered: set<string>): seq<string>
    decreases |genres|
  {
    if genres == [] then []
    else
      var init := CaselessMatches(genres[..|genres| - 1], lowered);
      if Lower(genres[|genres| - 1]) in lowered then init + [genres[|genres| - 1]] else init
  }

  /** The number of entries of `genres` that match some label of `coll`, ignoring case.
      It depends on `coll` only through its set of labels. */
  function GenreOverlap(genres: seq<string>, coll: set<string>): nat {
    |CaselessMatches(genres, Lowered(coll))|
  }

  /** The overlap lies between 0 and the length of the genre list, and reaches that length
      exactly when every genre of the list matches the collection. */
  lemma {:induction false} OverlapBounds(genres: seq<string>, coll: set<string>)
    ensures GenreOverlap(genres, coll) <= |genres|
    ensures GenreOverlap(genres, coll) == |genres| <==>
            forall i :: 0 <= i < |genres| ==> Lower(genres[i]) in Lowered(coll)
    decreases |genres|
  {
    if genres != [] {
      var init := genres[..|genres| - 1];
      OverlapBounds(init, coll);
      assert forall i :: 0 <= i < |init| ==> init[i] == genres[i];
    }
  }

  /** Matching only looks at lower-cased forms: lower-casing the game's genres or the
      collection's labels first changes nothing. */
  lemma {:induction false} OverlapIgnoresCase(genres: seq<string>, coll: set<string>)
    ensures GenreOverlap(LowerAll(genres), coll) == GenreOverlap(genres, coll)
    ensures GenreOverlap(genres, Lowered(coll)) == GenreOverlap(genres, coll)
    decreases |genres|
  {
    LoweredTwice(coll);
    if genres != [] {
      var init := genres[..|genres| - 1];
      OverlapIgnoresCase(init, coll);
      assert LowerAll(genres)[..|genres| - 1] == LowerAll(init);
      LowerIdempotent(genres[|genres| - 1]);
    }
  }

  lemma LoweredTwice(coll: set<string>)
    ensures Lowered(Lowered(coll)) == Lowered(coll)
  {
    forall c | c in Lowered(coll) ensures Lower(c) == c {
      var d :| d in coll && Lower(d) == c;
      LowerIdempotent(d);
    }
  }

  /** A collection whose labels cover more lower-cased forms never yields a smaller overlap. */
  lemma {:induction false} OverlapMonotone(genres: seq<string>, small: set<string>, large: set<string>)
    requires Lowered(small) <= Lowered(large)
    ensures GenreOverlap(genres, small) <= GenreOverlap(genres, large)
    decreases |genres|
  {
    if genres != [] {
      OverlapMonotone(genres[..|genres| - 1], small, large);
    }
  }

  // ---- older_versions/gamegraph1.py: case-sensitive, in order, with repeats ----

  /** The entries of `genres`, in order and with repeats, that occur in `coll`. */
  function Matching(genres: seq<string>, coll: seq<string>): seq<string>
    decreases |genres|
  {
    if genres == [] then []
    else
      var init := Matching(genres[..|genres| - 1], coll);
      if genres[|genres| - 1] in coll then init + [genres[|genres| - 1]] else init
  }

  /** Every entry of `Matching` is in the collection, it is no longer than the genre list, and
      it keeps every genre of the list that is in the collection (counted with repeats). */
  lemma {:induction false} MatchingProps(genres: seq<string>, coll: seq<string>)
    ensures |Matching(genres, coll)| <= |genres|
    ensures forall x :: x in Matching(genres, coll) ==> x in coll && x in genres
    ensures forall x :: x in coll ==>
              multiset(Matching(genres, coll))[x] == multiset(genres)[x]
    decreases |genres|
  {
    if genres != [] {
      var init := genres[..|genres| - 1];
      MatchingProps(init, coll);
      assert genres == init + [genres[|genres| - 1]];
    }
  }

  // ---- game_graph_csv.py and game_graph_1.py: genre sets ----

  /** `self.genres.intersection(genre_collection)`; its size is the genre count. */
  function SharedGenres(genres: set<string>, coll: set<string>): set<string> {
    genres * coll
  }

  /** The shared genres are no more than either set, and sharing is symmetric. */
  lemma SharedGenresProps(a: set<string>, b: set<string>)
    ensures |SharedGenres(a, b)| <= |a| && |SharedGenres(a, b)| <= |b|
    ensures SharedGenres(a, b) == SharedGenres(b, a)
  {
    SubsetCard(a * b, a);
    SubsetCard(a * b, b);
  }
}
