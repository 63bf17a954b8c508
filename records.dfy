/** The rating log and the user sampler: rating scaling, the user population,
    the draw of a percentage of users, and the filter to their records. */
module Records {
  import opened Common
  import opened Sampling

  /** One row of the rating log once the timestamp column is dropped. */
  datatype Rating = Rating(user: int, movie: int, rating: real)

  /** Every rating doubled, so that half-star ratings become whole numbers. */
  function Doubled(records: seq<Rating>): (r: seq<Rating>)
    ensures |r| == |records|
    ensures forall i :: 0 <= i < |r| ==>
      r[i].user == records[i].user && r[i].movie == records[i].movie && r[i].rating == 2.0 * records[i].rating
  {
    seq(|records|, i requires 0 <= i < |records| => records[i].(rating := 2.0 * records[i].rating))
  }

  function UserIds(records: seq<Rating>): seq<int> {
    seq(|records|, i requires 0 <= i < |records| => records[i].user)
  }

  function MovieIds(records: seq<Rating>): seq<int> {
    seq(|records|, i requires 0 <= i < |records| => records[i].movie)
  }

  function UserSet(records: seq<Rating>): set<int> {
    set x | x in records :: x.user
  }

  function MovieSet(records: seq<Rating>): set<int> {
    set x | x in records :: x.movie
  }

  lemma IdsElems(records: seq<Rating>)
    ensures Elems(UserIds(records)) == UserSet(records)
    ensures Elems(MovieIds(records)) == MovieSet(records)
  {
    forall u | u in UserSet(records) ensures u in UserIds(records) {
      var x :| x in records && x.user == u;
      var i :| 0 <= i < |records| && records[i] == x;
      assert UserIds(records)[i] == u;
    }
    forall m | m in MovieSet(records) ensures m in MovieIds(records) {
      var x :| x in records && x.movie == m;
      var i :| 0 <= i < |records| && records[i] == x;
      assert MovieIds(records)[i] == m;
    }
  }

  /** The distinct users in order of first appearance: the sampling population. */
  function Population(records: seq<Rating>): (r: seq<int>)
    ensures NoDups(r)
    ensures Elems(r) == UserSet(records)
  {
    IdsElems(records);
    Unique(UserIds(records))
  }

  /** The records whose user is in `users`, in their original order and with
      their multiplicity (`dataset.loc[dataset['userId'].isin(sample)]`). */
  function KeepUsers(records: seq<Rating>, users: set<int>): (r: seq<Rating>)
    ensures forall x :: multiset(r)[x] == if x.user in users then multiset(records)[x] else 0
    ensures forall x :: x in r <==> x in records && x.user in users
  {
    if records == [] then []
    else
      var t := KeepUsers(records[..|records| - 1], users);
      var x := records[|records| - 1];
      assert records == records[..|records| - 1] + [x];
      if x.user in users then t + [x] else t
  }

  /** Lines 45-47: draw `(|users| * pct) // 100` distinct users and keep only
      their records; a sample size outside `[0, |users|]` is a `ValueError`. */
  function SampleUsers(records: seq<Rating>, pct: int, picks: seq<nat>): (r: Result<seq<Rating>>)
    requires var n := |Population(records)|; var k := FloorSize(n, pct);
      0 <= k <= n ==> IsDraw(picks, n, k)
    ensures var n := |Population(records)|; var k := FloorSize(n, pct);
      r.Failure? <==> k < 0 || k > n
    ensures r.Failure? ==> r.error == SampleSizeInvalid
    ensures r.Success? ==> forall x :: x in r.value ==> x in records
  {
    var pop := Population(records);
    match Sample(pop, FloorSize(|pop|, pct), picks)
    case Failure(e) => Failure(e)
    case Success(chosen) => Success(KeepUsers(records, Elems(chosen)))
  }

  /** After filtering, exactly the drawn users remain, there are exactly
      `(|users| * pct) // 100` of them, and every record of a drawn user is
      kept with its multiplicity. */
  lemma SampleUsersKeepsDrawn(records: seq<Rating>, pct: int, picks: seq<nat>)
    requires var n := |Population(records)|; var k := FloorSize(n, pct);
      0 <= k <= n && IsDraw(picks, n, k)
    ensures var pop := Population(records);
      var chosen := Sample(pop, FloorSize(|pop|, pct), picks).value;
      var kept := SampleUsers(records, pct, picks).value;
      && NoDups(chosen)
      && UserSet(kept) == Elems(chosen)
      && |UserSet(kept)| == FloorSize(|pop|, pct)
      && (forall x :: multiset(kept)[x] == if x.user in UserSet(kept) then multiset(records)[x] else 0)
  {
    var pop := Population(records);
    var k := FloorSize(|pop|, pct);
    var chosen := Sample(pop, k, picks).value;
    var kept := SampleUsers(records, pct, picks).value;
    SampleDistinct(pop, k, picks);
    assert kept == KeepUsers(records, Elems(chosen));
    forall u | u in Elems(chosen) ensures u in UserSet(kept) {
      assert u in UserSet(records);
      var x :| x in records && x.user == u;
      assert x in kept;
    }
  }

  /** Doubling changes no user id, so the user population is the same. */
  lemma DoubledUsers(records: seq<Rating>)
    ensures UserIds(Doubled(records)) == UserIds(records)
    ensures MovieIds(Doubled(records)) == MovieIds(records)
    ensures Population(Doubled(records)) == Population(records)
  {
  }

  /** The total rating user `u` gave movie `m` over all their records. */
  function RatingSum(records: seq<Rating>, u: int, m: int): real {
    if records == [] then 0.0
    else
      var x := records[|records| - 1];
      RatingSum(records[..|records| - 1], u, m) + (if x.user == u && x.movie == m then x.rating else 0.0)
  }

  /** The doubled log holds twice every total. */
  lemma {:induction false} RatingSumDoubled(records: seq<Rating>, u: int, m: int)
    ensures RatingSum(Doubled(records), u, m) == 2.0 * RatingSum(records, u, m)
  {
    if records != [] {
      var n := |records| - 1;
      assert Doubled(records)[..n] == Doubled(records[..n]);
      RatingSumDoubled(records[..n], u, m);
    }
  }

  lemma RatingSumSnoc(records: seq<Rating>, x: Rating, u: int, m: int)
    ensures RatingSum(records + [x], u, m) == RatingSum(records, u, m) + (if x.user == u && x.movie == m then x.rating else 0.0)
  {
    assert (records + [x])[..|records|] == records;
  }

  /** Filtering by users keeps the totals of the kept users and drops the others. */
  lemma {:induction false} RatingSumKeep(records: seq<Rating>, users: set<int>, u: int, m: int)
    ensures RatingSum(KeepUsers(records, users), u, m) == if u in users then RatingSum(records, u, m) else 0.0
  {
    if records != [] {
      var n := |records| - 1;
      RatingSumKeep(records[..n], users, u, m);
      if records[n].user in users {
        RatingSumSnoc(KeepUsers(records[..n], users), records[n], u, m);
      }
    }
  }
}
