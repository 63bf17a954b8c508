/** Shared vocabulary: the error outcomes of the batch transform, a result
    wrapper, and a few facts about sequences without duplicates. */
module Common {

  /** The ways the transform can stop. */
  datatype Error =
    | SampleSizeInvalid  // random.sample: sample larger than the population, or negative
    | LengthMismatch     // coordinate and value sequences of different lengths
    | IndexOutOfBounds   // a row or column index outside the matrix shape

  datatype Result<T> = Success(value: T) | Failure(error: Error)

  predicate NoDups<T(==)>(s: seq<T>) {
    forall i, j :: 0 <= i < j < |s| ==> s[i] != s[j]
  }

  function Elems<T>(s: seq<T>): set<T> {
    set x | x in s
  }

  /** The distinct values of `s` in order of first appearance (pandas `unique`). */
  function Unique(s: seq<int>): (r: seq<int>)
    ensures NoDups(r)
    ensures forall x :: x in r <==> x in s
    ensures |r| <= |s|
  {
    if s == [] then []
    else
      var t := Unique(s[..|s| - 1]);
      var x := s[|s| - 1];
      assert forall y :: y in s <==> y in s[..|s| - 1] || y == x by {
        assert s == s[..|s| - 1] + [x];
      }
      if x in t then t else t + [x]
  }

  /** A sequence without duplicates has as many distinct elements as entries. */
  lemma {:induction false} NoDupsCard<T>(s: seq<T>)
    requires NoDups(s)
    ensures |Elems(s)| == |s|
  {
    if s != [] {
      var t := s[..|s| - 1];
      var x := s[|s| - 1];
      assert s == t + [x];
      assert Elems(s) == Elems(t) + {x};
      assert forall i :: 0 <= i < |t| ==> t[i] == s[i] != x;
      assert x !in Elems(t);
      NoDupsCard(t);
    }
  }

  /** A subset of a finite set with as many elements is the whole set. */
  lemma SubsetOfSameSize<T>(a: set<T>, b: set<T>)
    requires a <= b && |a| == |b|
    ensures a == b
  {
    assert b == a + (b - a);
    assert a * (b - a) == {};
    assert |b| == |a| + |b - a|;
    assert |b - a| == 0;
  }

  /** The elements of a prefix grown by one. */
  lemma ElemsSnoc<T>(s: seq<T>, i: nat)
    requires i < |s|
    ensures Elems(s[..i + 1]) == Elems(s[..i]) + {s[i]}
  {
    assert s[..i + 1] == s[..i] + [s[i]];
  }
}
