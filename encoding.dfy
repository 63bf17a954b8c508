/** The index encoder: the sorted distinct user and movie ids, and each
    record's row and column as its id's position in those sorted lists
    (`np.sort(unique())` and `astype('category').cat.codes`). */
module Encoding {
  import opened Common
  import opened Records

  predicate StrictlyIncreasing(xs: seq<int>) {
    forall i, j :: 0 <= i < j < |xs| ==> xs[i] < xs[j]
  }

  function InsertSorted(xs: seq<int>, x: int): (r: seq<int>)
    requires StrictlyIncreasing(xs)
    ensures StrictlyIncreasing(r)
    ensures forall y :: y in r <==> y in xs || y == x
  {
    if xs == [] then [x]
    else if x == xs[0] then xs
    else if x < xs[0] then [x] + xs
    else
      var t := InsertSorted(xs[1..], x);
      assert forall y :: y in xs <==> y == xs[0] || y in xs[1..];
      assert forall j :: 0 <= j < |t| ==> xs[0] < t[j] by {
        forall j | 0 <= j < |t| ensures xs[0] < t[j] {
          assert t[j] in t;
          if t[j] != x {
            var m :| 0 <= m < |xs[1..]| && xs[1..][m] == t[j];
            assert xs[m + 1] == t[j];
          }
        }
      }
      [xs[0]] + t
  }

  /** The distinct values of `s`, ascending. */
  function SortedDistinct(s: seq<int>): (r: seq<int>)
    ensures StrictlyIncreasing(r)
    ensures forall y :: y in r <==> y in s
  {
    if s == [] then []
    else
      assert s == s[..|s| - 1] + [s[|s| - 1]];
      InsertSorted(SortedDistinct(s[..|s| - 1]), s[|s| - 1])
  }

  /** The position of `x` in `xs`: a categorical code. */
  function IndexOf(xs: seq<int>, x: int): (i: nat)
    requires x in xs
    ensures i < |xs| && xs[i] == x
    ensures forall j :: 0 <= j < i ==> xs[j] != x
  {
    if xs[0] == x then 0 else 1 + IndexOf(xs[1..], x)
  }

  /** On a strictly increasing list the code is an order-preserving bijection
      between the listed ids and `[0, |xs|)`. */
  lemma IndexBijection(xs: seq<int>)
    requires StrictlyIncreasing(xs)
    ensures forall i :: 0 <= i < |xs| ==> IndexOf(xs, xs[i]) == i
    ensures forall x, y :: x in xs && y in xs ==> (x < y <==> IndexOf(xs, x) < IndexOf(xs, y))
  {
  }

  /** In a strictly increasing list, the elements below position `i` are
      exactly the `i` listed values smaller than `xs[i]`. */
  lemma SmallerInSorted(xs: seq<int>, i: nat)
    requires StrictlyIncreasing(xs) && i < |xs|
    ensures (set y | y in xs && y < xs[i]) == Elems(xs[..i])
    ensures |Elems(xs[..i])| == i
  {
    var prefix := xs[..i];
    assert NoDups(prefix);
    NoDupsCard(prefix);
    forall y | y in xs && y < xs[i] ensures y in prefix {
      var j :| 0 <= j < |xs| && xs[j] == y;
      assert !(i <= j);
      assert prefix[j] == y;
    }
  }

  /** The code of `x` is the number of distinct ids in `s` smaller than `x`. */
  lemma IndexOfRank(s: seq<int>, x: int)
    requires x in s
    ensures IndexOf(SortedDistinct(s), x) == |set y | y in s && y < x|
  {
    var xs := SortedDistinct(s);
    var i := IndexOf(xs, x);
    SmallerInSorted(xs, i);
    assert (set y | y in s && y < x) == (set y | y in xs && y < xs[i]);
  }

  /** The encoded rating triples with the id lists that define their indices. */
  datatype Encoded = Encoded(users: seq<int>, movies: seq<int>, rows: seq<int>, cols: seq<int>, vals: seq<real>)

  /** The categorical code of every id: its position in the category list. */
  function Codes(categories: seq<int>, ids: seq<int>): (codes: seq<int>)
    requires forall k :: 0 <= k < |ids| ==> ids[k] in categories
    ensures |codes| == |ids|
    ensures forall k :: 0 <= k < |ids| ==> 0 <= codes[k] < |categories| && categories[codes[k]] == ids[k]
  {
    seq(|ids|, k requires 0 <= k < |ids| => IndexOf(categories, ids[k]))
  }

  /** Lines 49-52: sorted id lists and one (row, column, rating) per record. */
  function Encode(records: seq<Rating>): (e: Encoded)
    ensures StrictlyIncreasing(e.users) && Elems(e.users) == UserSet(records)
    ensures StrictlyIncreasing(e.movies) && Elems(e.movies) == MovieSet(records)
    ensures |e.rows| == |e.cols| == |e.vals| == |records|
    ensures forall k :: 0 <= k < |records| ==>
      && 0 <= e.rows[k] < |e.users| && e.users[e.rows[k]] == records[k].user
      && 0 <= e.cols[k] < |e.movies| && e.movies[e.cols[k]] == records[k].movie
      && e.vals[k] == records[k].rating
  {
    var uids := UserIds(records);
    var mids := MovieIds(records);
    var users := SortedDistinct(uids);
    var movies := SortedDistinct(mids);
    IdsElems(records);
    assert Elems(users) == Elems(uids);
    assert Elems(movies) == Elems(mids);
    assert forall k :: 0 <= k < |uids| ==> uids[k] in users;
    assert forall k :: 0 <= k < |mids| ==> mids[k] in movies;
    Encoded(users, movies, Codes(users, uids), Codes(movies, mids),
      seq(|records|, k requires 0 <= k < |records| => records[k].rating))
  }

  /** Every row and every column index is used: both index spaces are dense. */
  lemma EncodeDense(records: seq<Rating>)
    ensures var e := Encode(records);
      && (forall i :: 0 <= i < |e.users| ==> i in e.rows)
      && (forall j :: 0 <= j < |e.movies| ==> j in e.cols)
  {
    var e := Encode(records);
    forall i | 0 <= i < |e.users| ensures i in e.rows {
      assert e.users[i] in UserSet(records);
      var x :| x in records && x.user == e.users[i];
      var k :| 0 <= k < |records| && records[k] == x;
      IndexBijection(e.users);
      assert e.rows[k] == i;
    }
    forall j | 0 <= j < |e.movies| ensures j in e.cols {
      assert e.movies[j] in MovieSet(records);
      var x :| x in records && x.movie == e.movies[j];
      var k :| 0 <= k < |records| && records[k] == x;
      IndexBijection(e.movies);
      assert e.cols[k] == j;
    }
  }

  /** A record's row is the number of distinct users with a smaller id. */
  lemma EncodeRowIsRank(records: seq<Rating>, k: nat)
    requires k < |records|
    ensures Encode(records).rows[k] == |set u | u in UserSet(records) && u < records[k].user|
  {
    var ids := UserIds(records);
    assert ids[k] == records[k].user;
    IndexOfRank(ids, records[k].user);
    IdsElems(records);
    assert (set u | u in ids && u < records[k].user) == (set u | u in UserSet(records) && u < records[k].user);
  }
}
