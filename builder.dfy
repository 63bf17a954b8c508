/** The sparse matrix builder: `csr_matrix((data, (rows, cols)), shape)`,
    which checks the triples and sums the values of repeated positions into
    canonical compressed-row storage. */
module Builder {
  import opened Common
  import opened Entries

  /** Add one entry into canonical storage, adding its value to the value
      already stored at its position if there is one. */
  function Insert(es: seq<Entry>, e: Entry): (r: seq<Entry>)
    requires Canonical(es)
    ensures Canonical(r)
    ensures Positions(r) == Positions(es) + {PosOf(e)}
    ensures forall p :: ValueAt(r, p) == ValueAt(es, p) + (if p == PosOf(e) then e.val else 0.0)
  {
    if es == [] then [e]
    else if PosOf(es[0]) == PosOf(e) then
      var r := [es[0].(val := es[0].val + e.val)] + es[1..];
      PositionsCons(es[0], es[1..]);
      PositionsCons(es[0].(val := es[0].val + e.val), es[1..]);
      assert es == [es[0]] + es[1..];
      r
    else if Lt(PosOf(e), PosOf(es[0])) then
      assert PosOf(e) !in Positions(es) by {
        forall x | x in es ensures PosOf(x) != PosOf(e) {
          var j :| 0 <= j < |es| && es[j] == x;
          assert j == 0 || Lt(PosOf(es[0]), PosOf(es[j]));
        }
      }
      [e] + es
    else
      var t := Insert(es[1..], e);
      var r := [es[0]] + t;
      PositionsCons(es[0], es[1..]);
      PositionsCons(es[0], t);
      assert es == [es[0]] + es[1..];
      AboveHead(es, e, t);
      r
  }

  /** The entries after the head, and one entry beyond it, all lie beyond the head. */
  lemma AboveHead(es: seq<Entry>, e: Entry, t: seq<Entry>)
    requires Canonical(es) && es != [] && Lt(PosOf(es[0]), PosOf(e))
    requires Positions(t) == Positions(es[1..]) + {PosOf(e)}
    ensures forall j :: 0 <= j < |t| ==> Lt(PosOf(es[0]), PosOf(t[j]))
  {
    forall j | 0 <= j < |t| ensures Lt(PosOf(es[0]), PosOf(t[j])) {
      assert PosOf(t[j]) in Positions(t);
      if PosOf(t[j]) != PosOf(e) {
        var x :| x in es[1..] && PosOf(x) == PosOf(t[j]);
        var k :| 0 <= k < |es[1..]| && es[1..][k] == x;
        assert Lt(PosOf(es[0]), PosOf(es[k + 1]));
      }
    }
  }

  lemma PositionsCons(x: Entry, s: seq<Entry>)
    ensures Positions([x] + s) == {PosOf(x)} + Positions(s)
  {
    assert forall y :: y in [x] + s <==> y == x || y in s;
  }

  /** The sum of the values of all triples at position `p`: the dense reference. */
  function SumAt(ts: seq<Entry>, p: Pos): real {
    if ts == [] then 0.0
    else SumAt(ts[..|ts| - 1], p) + (if PosOf(ts[|ts| - 1]) == p then ts[|ts| - 1].val else 0.0)
  }

  /** Coordinate triples to canonical storage with duplicates summed. */
  function Accumulate(ts: seq<Entry>): (r: seq<Entry>)
    ensures Canonical(r)
    ensures Positions(r) == Positions(ts)
    ensures forall p :: ValueAt(r, p) == SumAt(ts, p)
  {
    if ts == [] then []
    else
      var t := ts[..|ts| - 1];
      var e := ts[|ts| - 1];
      assert ts == t + [e];
      assert Positions(ts) == Positions(t) + {PosOf(e)};
      Insert(Accumulate(t), e)
  }

  predicate InBounds(nrows: nat, ncols: nat, rows: seq<int>, cols: seq<int>)
    requires |rows| == |cols|
  {
    forall k :: 0 <= k < |rows| ==> 0 <= rows[k] < nrows && 0 <= cols[k] < ncols
  }

  /** The triples as unsummed entries. */
  function Triples(rows: seq<int>, cols: seq<int>, vals: seq<real>): (ts: seq<Entry>)
    requires |rows| == |cols| == |vals|
    requires forall k :: 0 <= k < |rows| ==> 0 <= rows[k] && 0 <= cols[k]
    ensures |ts| == |vals|
    ensures forall k :: 0 <= k < |ts| ==> ts[k] == Entry(rows[k] as nat, cols[k] as nat, vals[k])
  {
    seq(|vals|, k requires 0 <= k < |vals| => Entry(rows[k] as nat, cols[k] as nat, vals[k]))
  }

  /** Line 53: the coordinate lists must have one length and every index must
      lie inside the shape; the result is canonical storage in that shape. */
  function Build(nrows: nat, ncols: nat, rows: seq<int>, cols: seq<int>, vals: seq<real>): (r: Result<seq<Entry>>)
    ensures r.Failure? <==> |rows| != |vals| || |cols| != |vals| || !InBounds(nrows, ncols, rows, cols)
    ensures r.Failure? ==> r.error == if |rows| == |vals| == |cols| then IndexOutOfBounds else LengthMismatch
    ensures r.Success? ==> Canonical(r.value) && InShape(r.value, nrows, ncols)
  {
    if |rows| != |vals| || |cols| != |vals| then Failure(LengthMismatch)
    else if !InBounds(nrows, ncols, rows, cols) then Failure(IndexOutOfBounds)
    else
      var ts := Triples(rows, cols, vals);
      var es := Accumulate(ts);
      assert InShape(es, nrows, ncols) by {
        forall i | 0 <= i < |es| ensures es[i].row < nrows && es[i].col < ncols {
          assert PosOf(es[i]) in Positions(ts);
          var x :| x in ts && PosOf(x) == PosOf(es[i]);
          var k :| 0 <= k < |ts| && ts[k] == x;
        }
      }
      Success(es)
  }

  /** The sum of `vals[k]` over every `k` with `(rows[k], cols[k]) == (r, c)`. */
  function DenseSum(rows: seq<int>, cols: seq<int>, vals: seq<real>, r: int, c: int): real
    requires |rows| == |cols| == |vals|
  {
    if vals == [] then 0.0
    else
      var n := |vals| - 1;
      DenseSum(rows[..n], cols[..n], vals[..n], r, c) + (if rows[n] == r && cols[n] == c then vals[n] else 0.0)
  }

  lemma {:induction false} SumAtTriples(rows: seq<int>, cols: seq<int>, vals: seq<real>, p: Pos)
    requires |rows| == |cols| == |vals|
    requires forall k :: 0 <= k < |rows| ==> 0 <= rows[k] && 0 <= cols[k]
    ensures SumAt(Triples(rows, cols, vals), p) == DenseSum(rows, cols, vals, p.0, p.1)
  {
    if vals != [] {
      var n := |vals| - 1;
      assert Triples(rows, cols, vals)[..n] == Triples(rows[..n], cols[..n], vals[..n]);
      SumAtTriples(rows[..n], cols[..n], vals[..n], p);
    }
  }

  /** The built matrix holds at every position the sum of the values of the
      triples there, zero where there is none. */
  lemma BuildSums(nrows: nat, ncols: nat, rows: seq<int>, cols: seq<int>, vals: seq<real>, r: nat, c: nat)
    requires Build(nrows, ncols, rows, cols, vals).Success?
    ensures ValueAt(Build(nrows, ncols, rows, cols, vals).value, (r, c)) == DenseSum(rows, cols, vals, r, c)
  {
    SumAtTriples(rows, cols, vals, (r, c));
  }

  /** A slot is stored exactly at the positions some triple names, so there are
      no more slots than distinct positions, and no more than triples. */
  lemma BuildStorage(nrows: nat, ncols: nat, rows: seq<int>, cols: seq<int>, vals: seq<real>)
    requires Build(nrows, ncols, rows, cols, vals).Success?
    ensures var es := Build(nrows, ncols, rows, cols, vals).value;
      && (forall p :: p in Positions(es) <==> exists k :: 0 <= k < |vals| && rows[k] == p.0 && cols[k] == p.1)
      && |es| == |Positions(es)| <= |vals|
  {
    var ts := Triples(rows, cols, vals);
    var es := Accumulate(ts);
    forall p ensures p in Positions(ts) <==> exists k :: 0 <= k < |vals| && rows[k] == p.0 && cols[k] == p.1 {
      if p in Positions(ts) {
        var x :| x in ts && PosOf(x) == p;
        var k :| 0 <= k < |ts| && ts[k] == x;
        assert rows[k] == p.0 && cols[k] == p.1;
      }
      if exists k :: 0 <= k < |vals| && rows[k] == p.0 && cols[k] == p.1 {
        var k :| 0 <= k < |vals| && rows[k] == p.0 && cols[k] == p.1;
        assert PosOf(ts[k]) == p;
      }
    }
    PositionsCard(es);
    CardImage(ts);
  }

  /** The positions of `n` entries are at most `n`. */
  lemma {:induction false} CardImage(ts: seq<Entry>)
    ensures |Positions(ts)| <= |ts|
  {
    if ts != [] {
      var t := ts[..|ts| - 1];
      assert ts == t + [ts[|ts| - 1]];
      assert Positions(ts) == Positions(t) + {PosOf(ts[|ts| - 1])};
      CardImage(t);
    }
  }
}
