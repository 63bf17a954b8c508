/** The whole batch transform: from the rating log to the ratings matrix,
    and from the ratings matrix to the test matrix, the train matrix and the
    masked users. */
module Prepare {
  import opened Common
  import opened Sampling
  import opened Records
  import opened Encoding
  import opened Entries
  import opened Builder
  import opened Masking
  import opened Csr

  /** The ratings matrix with the ids its rows and columns stand for. */
  datatype Ratings = Ratings(users: seq<int>, movies: seq<int>, entries: seq<Entry>)

  /** `picks` is the generator's choice for the user sample of line 45. */
  predicate UserDraw(records: seq<Rating>, pct: int, picks: seq<nat>) {
    DrawFor(picks, |Population(records)|, FloorSize(|Population(records)|, pct))
  }

  /** Every rating log and percentage admit a draw. */
  lemma UserDrawExists(records: seq<Rating>, pct: int)
    ensures exists picks :: UserDraw(records, pct, picks)
  {
    var n := |Population(records)|;
    DrawForExists(n, FloorSize(n, pct));
    var picks :| DrawFor(picks, n, FloorSize(n, pct));
    assert UserDraw(records, pct, picks);
  }

  /** Lines 49-53 on the kept records: sorted id lists, the records encoded
      as coordinate triples and the summed matrix built from them. */
  function Assemble(kept: seq<Rating>): (m: Ratings)
    ensures Canonical(m.entries) && InShape(m.entries, |m.users|, |m.movies|)
    ensures StrictlyIncreasing(m.users) && Elems(m.users) == UserSet(kept)
    ensures StrictlyIncreasing(m.movies) && Elems(m.movies) == MovieSet(kept)
  {
    var e := Encode(kept);
    assert InBounds(|e.users|, |e.movies|, e.rows, e.cols);
    Ratings(e.users, e.movies, Build(|e.users|, |e.movies|, e.rows, e.cols, e.vals).value)
  }

  /** Each cell holds the sum of the ratings its user gave its movie. */
  lemma AssembleValues(kept: seq<Rating>, r: nat, c: nat)
    requires r < |Assemble(kept).users| && c < |Assemble(kept).movies|
    ensures var m := Assemble(kept);
      ValueAt(m.entries, (r, c)) == RatingSum(kept, m.users[r], m.movies[c])
  {
    var e := Encode(kept);
    BuildSums(|e.users|, |e.movies|, e.rows, e.cols, e.vals, r, c);
    CodedSum(e.rows, e.cols, e.vals, kept, e.users, e.movies, r, c);
  }

  /** Row `r` holds a stored entry. */
  predicate RowUsed(es: seq<Entry>, r: nat) {
    exists i :: 0 <= i < |es| && es[i].row == r
  }

  /** Column `c` holds a stored entry. */
  predicate ColUsed(es: seq<Entry>, c: nat) {
    exists i :: 0 <= i < |es| && es[i].col == c
  }

  lemma PositionUsed(es: seq<Entry>, p: Pos)
    requires p in Positions(es)
    ensures RowUsed(es, p.0) && ColUsed(es, p.1)
  {
    var x :| x in es && PosOf(x) == p;
    var i :| 0 <= i < |es| && es[i] == x;
  }

  /** A row index some triple uses is a row holding a stored entry of the built matrix. */
  lemma BuildRowUsed(nrows: nat, ncols: nat, rows: seq<int>, cols: seq<int>, vals: seq<real>, r: nat)
    requires Build(nrows, ncols, rows, cols, vals).Success? && r in rows
    ensures RowUsed(Build(nrows, ncols, rows, cols, vals).value, r)
  {
    var es := Build(nrows, ncols, rows, cols, vals).value;
    BuildStorage(nrows, ncols, rows, cols, vals);
    var k :| 0 <= k < |rows| && rows[k] == r;
    var p: Pos := (r, cols[k] as nat);
    assert p in Positions(es);
    PositionUsed(es, p);
  }

  /** A column index some triple uses is a column holding a stored entry of the built matrix. */
  lemma BuildColUsed(nrows: nat, ncols: nat, rows: seq<int>, cols: seq<int>, vals: seq<real>, c: nat)
    requires Build(nrows, ncols, rows, cols, vals).Success? && c in cols
    ensures ColUsed(Build(nrows, ncols, rows, cols, vals).value, c)
  {
    var es := Build(nrows, ncols, rows, cols, vals).value;
    BuildStorage(nrows, ncols, rows, cols, vals);
    var k :| 0 <= k < |cols| && cols[k] == c;
    var p: Pos := (rows[k] as nat, c);
    assert p in Positions(es);
    PositionUsed(es, p);
  }

  /** Every row and every column holds a stored entry. */
  lemma AssembleDense(kept: seq<Rating>)
    ensures var m := Assemble(kept);
      && (forall r :: 0 <= r < |m.users| ==> RowUsed(m.entries, r))
      && (forall c :: 0 <= c < |m.movies| ==> ColUsed(m.entries, c))
  {
    var e := Encode(kept);
    assert Assemble(kept).entries == Build(|e.users|, |e.movies|, e.rows, e.cols, e.vals).value;
    EncodeDense(kept);
    forall r | 0 <= r < |e.users| ensures RowUsed(Assemble(kept).entries, r) {
      BuildRowUsed(|e.users|, |e.movies|, e.rows, e.cols, e.vals, r);
    }
    forall c | 0 <= c < |e.movies| ensures ColUsed(Assemble(kept).entries, c) {
      BuildColUsed(|e.users|, |e.movies|, e.rows, e.cols, e.vals, c);
    }
  }

  /** Lines 43-53: double the ratings, keep the records of a sample of users,
      encode ids as indices and build the summed compressed-row matrix. */
  function RatingsMatrix(records: seq<Rating>, pct: int, picks: seq<nat>): (r: Result<Ratings>)
    requires UserDraw(records, pct, picks)
    ensures var n := |Population(records)|; var k := FloorSize(n, pct);
      r.Failure? <==> k < 0 || k > n
    ensures r.Failure? ==> r.error == SampleSizeInvalid
    ensures r.Success? ==> Canonical(r.value.entries) && InShape(r.value.entries, |r.value.users|, |r.value.movies|)
  {
    DoubledUsers(records);
    match SampleUsers(Doubled(records), pct, picks)
    case Failure(e) => Failure(e)
    case Success(kept) => Success(Assemble(kept))
  }

  /** The users drawn at line 45: `(|users| * pct) // 100` distinct users of the log. */
  function DrawnUsers(records: seq<Rating>, pct: int, picks: seq<nat>): (drawn: set<int>)
    requires UserDraw(records, pct, picks) && 0 <= FloorSize(|Population(records)|, pct) <= |Population(records)|
    ensures drawn <= UserSet(records)
    ensures |drawn| == FloorSize(|Population(records)|, pct)
  {
    var pop := Population(records);
    SampleDistinct(pop, FloorSize(|pop|, pct), picks);
    Elems(Sample(pop, FloorSize(|pop|, pct), picks).value)
  }

  /** The records kept at line 47, with their ratings doubled: the doubled
      records of exactly the drawn users. */
  function Kept(records: seq<Rating>, pct: int, picks: seq<nat>): (kept: seq<Rating>)
    requires UserDraw(records, pct, picks) && 0 <= FloorSize(|Population(records)|, pct) <= |Population(records)|
    ensures forall x :: x in kept <==> x in Doubled(records) && x.user in DrawnUsers(records, pct, picks)
  {
    DoubledUsers(records);
    SampleUsers(Doubled(records), pct, picks).value
  }

  /** The matrix is assembled from the doubled records of exactly the drawn
      users, and there are `(|users| * pct) // 100` of them. */
  lemma RatingsMatrixKept(records: seq<Rating>, pct: int, picks: seq<nat>)
    requires UserDraw(records, pct, picks) && RatingsMatrix(records, pct, picks).Success?
    ensures var kept := Kept(records, pct, picks);
      && RatingsMatrix(records, pct, picks).value == Assemble(kept)
      && kept == KeepUsers(Doubled(records), DrawnUsers(records, pct, picks))
      && UserSet(kept) == DrawnUsers(records, pct, picks)
      && |UserSet(kept)| == FloorSize(|Population(records)|, pct)
  {
    DoubledUsers(records);
    SampleUsersKeepsDrawn(Doubled(records), pct, picks);
  }

  /** The movies of the doubled records of `users` are the movies those users rated. */
  lemma KeptMovies(records: seq<Rating>, users: set<int>)
    ensures MovieSet(KeepUsers(Doubled(records), users)) == set x | x in records && x.user in users :: x.movie
  {
    var doubled := Doubled(records);
    var kept := KeepUsers(doubled, users);
    forall y | y in MovieSet(kept) ensures y in set x | x in records && x.user in users :: x.movie {
      var x :| x in kept && x.movie == y;
      var i :| 0 <= i < |doubled| && doubled[i] == x;
      assert records[i] in records && records[i].user in users && records[i].movie == y;
    }
    forall y | y in set x | x in records && x.user in users :: x.movie ensures y in MovieSet(kept) {
      var x :| x in records && x.user in users && x.movie == y;
      var i :| 0 <= i < |records| && records[i] == x;
      assert doubled[i] in kept;
    }
  }

  /** For a percentage between 0 and 100 the matrix is always built. */
  lemma RatingsMatrixSucceeds(records: seq<Rating>, pct: int, picks: seq<nat>)
    requires UserDraw(records, pct, picks) && 0 <= pct <= 100
    ensures RatingsMatrix(records, pct, picks).Success?
  {
  }

  /** The rows are the drawn users in ascending id order, as many as
      `(|users| * pct) // 100`; the columns are the movies those users rated,
      in ascending id order. */
  lemma RatingsMatrixIds(records: seq<Rating>, pct: int, picks: seq<nat>)
    requires UserDraw(records, pct, picks) && RatingsMatrix(records, pct, picks).Success?
    ensures var m := RatingsMatrix(records, pct, picks).value;
      var drawn := DrawnUsers(records, pct, picks);
      && StrictlyIncreasing(m.users) && Elems(m.users) == drawn
      && |m.users| == FloorSize(|Population(records)|, pct)
      && StrictlyIncreasing(m.movies)
      && Elems(m.movies) == set x | x in records && x.user in drawn :: x.movie
  {
    RatingsMatrixKept(records, pct, picks);
    KeptMovies(records, DrawnUsers(records, pct, picks));
    NoDupsCard(RatingsMatrix(records, pct, picks).value.users);
  }

  /** The dense sum over the encoded triples is the rating total of the ids
      the indices stand for. */
  lemma {:induction false} CodedSum(rows: seq<int>, cols: seq<int>, vals: seq<real>, rs: seq<Rating>,
                                    users: seq<int>, movies: seq<int>, r: nat, c: nat)
    requires |rows| == |cols| == |vals| == |rs|
    requires StrictlyIncreasing(users) && StrictlyIncreasing(movies) && r < |users| && c < |movies|
    requires forall k :: 0 <= k < |rs| ==>
      && 0 <= rows[k] < |users| && users[rows[k]] == rs[k].user
      && 0 <= cols[k] < |movies| && movies[cols[k]] == rs[k].movie
      && vals[k] == rs[k].rating
    ensures DenseSum(rows, cols, vals, r, c) == RatingSum(rs, users[r], movies[c])
  {
    if rs != [] {
      var n := |rs| - 1;
      CodedSum(rows[..n], cols[..n], vals[..n], rs[..n], users, movies, r, c);
      assert rows[n] == r <==> rs[n].user == users[r];
      assert cols[n] == c <==> rs[n].movie == movies[c];
    }
  }

  /** Each cell holds twice the sum of the ratings its user gave its movie;
      repeated records of one pair add up. */
  lemma RatingsMatrixValues(records: seq<Rating>, pct: int, picks: seq<nat>, r: nat, c: nat)
    requires UserDraw(records, pct, picks) && RatingsMatrix(records, pct, picks).Success?
    requires r < |RatingsMatrix(records, pct, picks).value.users|
    requires c < |RatingsMatrix(records, pct, picks).value.movies|
    ensures var m := RatingsMatrix(records, pct, picks).value;
      ValueAt(m.entries, (r, c)) == 2.0 * RatingSum(records, m.users[r], m.movies[c])
  {
    RatingsMatrixKept(records, pct, picks);
    var kept := Kept(records, pct, picks);
    var m := Assemble(kept);
    AssembleValues(kept, r, c);
    assert m.users[r] in Elems(m.users);
    RatingSumKeep(Doubled(records), DrawnUsers(records, pct, picks), m.users[r], m.movies[c]);
    RatingSumDoubled(records, m.users[r], m.movies[c]);
  }

  /** Every row and every column of the ratings matrix holds a stored entry:
      each drawn user and each movie they rated has an index in use. */
  lemma RatingsMatrixDense(records: seq<Rating>, pct: int, picks: seq<nat>)
    requires UserDraw(records, pct, picks) && RatingsMatrix(records, pct, picks).Success?
    ensures var m := RatingsMatrix(records, pct, picks).value;
      && (forall r :: 0 <= r < |m.users| ==> RowUsed(m.entries, r))
      && (forall c :: 0 <= c < |m.movies| ==> ColUsed(m.entries, c))
  {
    RatingsMatrixKept(records, pct, picks);
    AssembleDense(Kept(records, pct, picks));
  }

  /** The results of the transform: the id lists, the two matrices and the masked rows. */
  datatype Output = Output(users: seq<int>, movies: seq<int>, train: CsrMatrix, test: CsrMatrix, masked: set<nat>)

  /** Lines 56-57: a copy of the ratings matrix with every nonzero value set to 1. */
  method TestMatrix(ratings: CsrMatrix) returns (test: CsrMatrix)
    requires ratings.Valid()
    ensures fresh(test) && fresh(test.indptr) && fresh(test.indices) && fresh(test.data)
    ensures test.Valid() && test.nrows == ratings.nrows && test.ncols == ratings.ncols
    ensures test.Entries() == Binarised(ratings.Entries())
  {
    test := new CsrMatrix.Copy(ratings);
    test.Binarise();
  }

  /** Lines 62-69: the nonzero positions of the train matrix, row by row,
      and the draw of `ceil(pct / 100 * n)` of them. */
  method DrawSamples(train: CsrMatrix, pct: int, picks: seq<nat>) returns (r: Result<seq<Pos>>)
    requires train.Valid() && MaskDraw(train.Entries(), pct, picks)
    ensures r.Failure? <==> MaskSplit(train.Entries(), pct, picks).Failure?
    ensures r.Failure? ==> r.error == SampleSizeInvalid
    ensures r.Success? ==> r.value == MaskSplit(train.Entries(), pct, picks).value.samples
    ensures r.Success? ==> forall i :: 0 <= i < |r.value| ==> r.value[i].0 < train.nrows && r.value[i].1 < train.ncols
  {
    ghost var sp := MaskSplit(train.Entries(), pct, picks);
    if sp.Success? {
      train.Layout();
      MaskSplitInShape(train.Entries(), train.nrows, train.ncols, pct, picks);
    }
    var pairs := train.Nonzero();
    r := Sample(pairs, CeilSize(|pairs|, pct), picks);
  }

  /** Lines 60-75 and 84: a copy of the ratings matrix with the drawn
      interactions zeroed and dropped from storage, and the rows they lie in. */
  method TrainMatrix(ratings: CsrMatrix, pct: int, picks: seq<nat>) returns (r: Result<(CsrMatrix, set<nat>)>)
    requires ratings.Valid() && MaskDraw(ratings.Entries(), pct, picks)
    ensures r.Failure? <==> MaskSplit(old(ratings.Entries()), pct, picks).Failure?
    ensures r.Failure? ==> r.error == SampleSizeInvalid
    ensures r.Success? ==>
      var sp := MaskSplit(old(ratings.Entries()), pct, picks).value;
      var train := r.value.0;
      && fresh(train) && fresh(train.indptr) && fresh(train.indices) && fresh(train.data)
      && train.Valid() && train.nrows == ratings.nrows && train.ncols == ratings.ncols
      && train.Entries() == sp.train && r.value.1 == sp.masked
  {
    var train := new CsrMatrix.Copy(ratings);
    var drawn := DrawSamples(train, pct, picks);
    if drawn.Failure? {
      return Failure(drawn.error);
    }
    var samples := drawn.value;
    Mask(train, samples);
    r := Success((train, MaskedRows(samples)));
  }

  /** Lines 74-75: zero the sampled positions, then drop every stored zero. */
  method Mask(train: CsrMatrix, samples: seq<Pos>)
    requires train.Valid()
    requires forall i :: 0 <= i < |samples| ==> samples[i].0 < train.nrows && samples[i].1 < train.ncols
    modifies train, train.data, train.indptr, train.indices
    ensures train.Valid() && train.Entries() == TrainEntries(old(train.Entries()), samples)
  {
    train.ZeroAt(samples);
    train.EliminateZeros();
  }

  /** Lines 53-75 and 84 on matrices updated in place: the ratings matrix is
      stored, the test matrix and the train matrix are made from copies of it. */
  method SplitRatings(m: Ratings, testPct: int, maskPicks: seq<nat>) returns (r: Result<Output>)
    requires Canonical(m.entries) && InShape(m.entries, |m.users|, |m.movies|)
    requires MaskDraw(m.entries, testPct, maskPicks)
    ensures r.Failure? <==> MaskSplit(m.entries, testPct, maskPicks).Failure?
    ensures r.Failure? ==> r.error == SampleSizeInvalid
    ensures r.Success? ==>
      var sp := MaskSplit(m.entries, testPct, maskPicks).value;
      var o := r.value;
      && o.users == m.users && o.movies == m.movies
      && fresh(o.train) && fresh(o.train.indptr) && fresh(o.train.indices) && fresh(o.train.data)
      && fresh(o.test) && fresh(o.test.indptr) && fresh(o.test.indices) && fresh(o.test.data)
      && o.train.indptr != o.test.indptr && o.train.indices != o.test.indices && o.train.data != o.test.data
      && o.train.Valid() && o.train.nrows == |m.users| && o.train.ncols == |m.movies|
      && o.test.Valid() && o.test.nrows == |m.users| && o.test.ncols == |m.movies|
      && o.test.Entries() == sp.test && o.train.Entries() == sp.train && o.masked == sp.masked
  {
    var ratings := new CsrMatrix.FromEntries(|m.users|, |m.movies|, m.entries);
    var test := TestMatrix(ratings);
    var train := TrainMatrix(ratings, testPct, maskPicks);
    if train.Failure? {
      return Failure(train.error);
    }
    r := Success(Output(m.users, m.movies, train.value.0, test, train.value.1));
  }

  /** The whole transform, lines 43-75 and 84: it stops with a sample-size
      error exactly when one of the two draws is asked for an impossible size. */
  method PrepareData(records: seq<Rating>, datasetPct: int, testPct: int, userPicks: seq<nat>, maskPicks: seq<nat>)
    returns (r: Result<Output>)
    requires UserDraw(records, datasetPct, userPicks)
    requires RatingsMatrix(records, datasetPct, userPicks).Success? ==>
      MaskDraw(RatingsMatrix(records, datasetPct, userPicks).value.entries, testPct, maskPicks)
    ensures var rm := RatingsMatrix(records, datasetPct, userPicks);
      r.Failure? <==> rm.Failure? || MaskSplit(rm.value.entries, testPct, maskPicks).Failure?
    ensures r.Failure? ==> r.error == SampleSizeInvalid
    ensures r.Success? ==>
      var m := RatingsMatrix(records, datasetPct, userPicks).value;
      var sp := MaskSplit(m.entries, testPct, maskPicks).value;
      var o := r.value;
      && o.users == m.users && o.movies == m.movies
      && fresh(o.train) && fresh(o.train.indptr) && fresh(o.train.indices) && fresh(o.train.data)
      && fresh(o.test) && fresh(o.test.indptr) && fresh(o.test.indices) && fresh(o.test.data)
      && o.train.indptr != o.test.indptr && o.train.indices != o.test.indices && o.train.data != o.test.data
      && o.train.Valid() && o.train.nrows == |m.users| && o.train.ncols == |m.movies|
      && o.test.Valid() && o.test.nrows == |m.users| && o.test.ncols == |m.movies|
      && o.test.Entries() == sp.test && o.train.Entries() == sp.train && o.masked == sp.masked
  {
    var rm := RatingsMatrix(records, datasetPct, userPicks);
    if rm.Failure? {
      return Failure(rm.error);
    }
    r := SplitRatings(rm.value, testPct, maskPicks);
  }
}
