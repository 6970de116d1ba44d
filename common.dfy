/** Small shared vocabulary: optional values, the Python exceptions the engine can raise,
    and a few facts about sequences used throughout the model. */
module Common {

  /** Python's `Optional[...]`: `None` or a value. */
  datatype Option<+T> = None | Some(value: T)

  /** The Python exceptions that some operations of the engine raise on their error paths. */
  datatype PyError =
    | KeyError            // `set.remove` of an element that is not in the set
    | ZeroDivisionError   // a division whose divisor is zero
    | AttributeError      // reading an attribute that was never assigned
    | NotImplementedError // an abstract method of a base class
    | TypeError           // hashing an instance of a class that is not hashable

  /** The outcome of an operation that either returns a value or raises. */
  datatype Result<+T> = Ok(value: T) | Raise(error: PyError)

  /** The outcome of an operation that returns nothing or raises. */
  datatype Outcome = Done | Fail(error: PyError)

  function Min(a: int, b: int): (m: int)
    ensures m <= a && m <= b && (m == a || m == b)
  {
    if a <= b then a else b
  }

  /** Some element of a non-empty set; which one is left open. */
  ghost function Any<T>(s: set<T>): (x: T)
    requires s != {}
    ensures x in s
  {
    var x :| x in s; x
  }

  /** Takes some element of a non-empty set: the next key of a loop over a dictionary or a
      set, whose order is not modelled. */
  method Choose<T>(s: set<T>) returns (x: T)
    requires s != {}
    ensures x in s
  {
    x :| x in s;
  }

  /** The elements of a sequence, as a set. */
  function Elems<T>(s: seq<T>): set<T> {
    set x | x in s
  }

  /** No element occurs twice. */
  predicate Distinct<T(==)>(s: seq<T>) {
    forall i, j :: 0 <= i < j < |s| ==> s[i] != s[j]
  }

  /** A duplicate-free sequence has as many elements as the set of its elements. */
  lemma {:induction false} DistinctCard<T>(s: seq<T>)
    requires Distinct(s)
    ensures |Elems(s)| == |s|
  {
    if s != [] {
      var t := s[..|s| - 1];
      var x := s[|s| - 1];
      assert Distinct(t);
      DistinctCard(t);
      assert x !in Elems(t);
      assert Elems(s) == Elems(t) + {x};
    }
  }

  /** A sequence is duplicate-free exactly when it holds no element more than once. */
  lemma {:induction false} DistinctCounts<T>(s: seq<T>)
    ensures Distinct(s) <==> forall x :: multiset(s)[x] <= 1
  {
    if Distinct(s) {
      DistinctBoundsCounts(s);
    } else {
      var i, j :| 0 <= i < j < |s| && s[i] == s[j];
      var x := s[i];
      assert s == s[..i] + [x] + s[i + 1..j] + [x] + s[j + 1..];
      assert multiset(s)[x] >= 2;
    }
  }

  lemma {:induction false} DistinctBoundsCounts<T>(s: seq<T>)
    requires Distinct(s)
    ensures forall x :: multiset(s)[x] <= 1
  {
    if s != [] {
      var init := s[..|s| - 1];
      assert s == init + [s[|s| - 1]];
      assert Distinct(init);
      DistinctBoundsCounts(init);
      assert s[|s| - 1] !in init;
    }
  }

  /** A rearrangement of a duplicate-free sequence is duplicate-free. */
  lemma DistinctPermutation<T>(s: seq<T>, t: seq<T>)
    requires Distinct(s) && multiset(s) == multiset(t)
    ensures Distinct(t)
  {
    DistinctCounts(s);
    DistinctCounts(t);
  }

  /** A subset is no larger than its superset. */
  lemma {:induction false} SubsetCard<T>(a: set<T>, b: set<T>)
    requires a <= b
    ensures |a| <= |b|
    decreases b
  {
    if a != {} {
      var x :| x in a;
      SubsetCard(a - {x}, b - {x});
    }
  }
}
