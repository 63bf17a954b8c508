/** The test/train split of the ratings matrix: the binary test matrix, the
    draw of the interactions to hide, the train matrix with those
    interactions removed, and the rows (users) that lost one. */
module Masking {
  import opened Common
  import opened Sampling
  import opened Entries

  /** The outputs of the split, as canonical storage. */
  datatype Split = Split(test: seq<Entry>, train: seq<Entry>, samples: seq<Pos>, masked: set<nat>)

  /** Line 84, `set(user_inds)`: the rows of the sampled positions. */
  function MaskedRows(samples: seq<Pos>): (r: set<nat>)
    ensures forall u :: u in r <==> exists i :: 0 <= i < |samples| && samples[i].0 == u
  {
    set i | 0 <= i < |samples| :: samples[i].0
  }

  /** Lines 74-75: the sampled positions set to zero, then every stored zero
      dropped; what remains are original entries, nonzero and not sampled,
      in storage order. */
  function TrainEntries(es: seq<Entry>, samples: seq<Pos>): (r: seq<Entry>)
    ensures |r| <= |es|
    ensures forall e :: e in r <==> e in es && e.val != 0.0 && PosOf(e) !in Elems(samples)
  {
    var z := Zeroed(es, Elems(samples));
    NonzeroEntriesMembers(z);
    assert forall e :: e in z && e.val != 0.0 <==> e in es && e.val != 0.0 && PosOf(e) !in Elems(samples) by {
      forall e ensures e in z && e.val != 0.0 <==> e in es && e.val != 0.0 && PosOf(e) !in Elems(samples) {
        if e in z && e.val != 0.0 {
          var i :| 0 <= i < |z| && z[i] == e;
          assert PosOf(es[i]) !in Elems(samples) && e == es[i];
        }
        if e in es && e.val != 0.0 && PosOf(e) !in Elems(samples) {
          var i :| 0 <= i < |es| && es[i] == e;
          assert z[i] == e;
        }
      }
    }
    NonzeroEntries(z)
  }

  /** Line 68: `ceil(pct / 100 * n)` for the `n` nonzero interactions. */
  function MaskSize(es: seq<Entry>, pct: int): (k: int)
    ensures 0 <= pct <= 100 ==> 0 <= k <= |NonzeroPositions(es)|
    ensures pct == 0 ==> k == 0
    ensures pct == 100 ==> k == |NonzeroPositions(es)|
  {
    CeilSize(|NonzeroPositions(es)|, pct)
  }

  /** On canonical storage the mask size is `pct` percent of the nonzero
      cells, rounded up. */
  lemma MaskSizeCeiling(es: seq<Entry>, pct: int)
    requires Canonical(es)
    ensures var k := MaskSize(es, pct); k * 100 - 100 < pct * |Support(es)| <= k * 100
  {
    NonzeroPositionsDistinct(es);
  }

  /** `picks` is the generator's choice for the interaction sample of line 69. */
  predicate MaskDraw(es: seq<Entry>, pct: int, picks: seq<nat>) {
    DrawFor(picks, |NonzeroPositions(es)|, MaskSize(es, pct))
  }

  /** Every ratings matrix and percentage admit a draw. */
  lemma MaskDrawExists(es: seq<Entry>, pct: int)
    ensures exists picks :: MaskDraw(es, pct, picks)
  {
    DrawForExists(|NonzeroPositions(es)|, MaskSize(es, pct));
    var picks :| DrawFor(picks, |NonzeroPositions(es)|, MaskSize(es, pct));
    assert MaskDraw(es, pct, picks);
  }

  /** Lines 56-75 and 84: test matrix, sampled interactions, train matrix and
      masked rows; `random.sample` rejects a size outside `[0, n]`. */
  function MaskSplit(es: seq<Entry>, pct: int, picks: seq<nat>): (r: Result<Split>)
    requires MaskDraw(es, pct, picks)
    ensures r.Failure? <==> MaskSize(es, pct) < 0 || MaskSize(es, pct) > |NonzeroPositions(es)|
    ensures r.Failure? ==> r.error == SampleSizeInvalid
    ensures r.Success? ==> |r.value.samples| == MaskSize(es, pct)
  {
    match Sample(NonzeroPositions(es), MaskSize(es, pct), picks)
    case Failure(e) => Failure(e)
    case Success(s) => Success(Split(Binarised(es), TrainEntries(es, s), s, MaskedRows(s)))
  }

  /** For a percentage between 0 and 100 the split always succeeds. */
  lemma MaskSplitSucceeds(es: seq<Entry>, pct: int, picks: seq<nat>)
    requires MaskDraw(es, pct, picks) && 0 <= pct <= 100
    ensures MaskSplit(es, pct, picks).Success?
  {
    var n := |NonzeroPositions(es)|;
    assert 0 <= CeilSize(n, pct) <= n;
  }

  /** The test matrix: the same stored positions, each value 0 or 1, and 1
      exactly where the ratings matrix is nonzero. */
  lemma MaskSplitTest(es: seq<Entry>, pct: int, picks: seq<nat>)
    requires Canonical(es) && MaskDraw(es, pct, picks) && MaskSplit(es, pct, picks).Success?
    ensures var t := MaskSplit(es, pct, picks).value.test;
      && Canonical(t)
      && Positions(t) == Positions(es)
      && (forall i :: 0 <= i < |t| ==> t[i].val == 0.0 || t[i].val == 1.0)
      && (forall p :: ValueAt(t, p) == if ValueAt(es, p) != 0.0 then 1.0 else 0.0)
  {
    BinarisedMatrix(es);
  }

  /** The sampled interactions: `k` distinct nonzero positions of the ratings matrix. */
  lemma MaskSplitSamples(es: seq<Entry>, pct: int, picks: seq<nat>)
    requires Canonical(es) && MaskDraw(es, pct, picks) && MaskSplit(es, pct, picks).Success?
    ensures var s := MaskSplit(es, pct, picks).value.samples;
      && NoDups(s)
      && Elems(s) <= Support(es)
      && |Elems(s)| == MaskSize(es, pct)
  {
    NonzeroPositionsDistinct(es);
    SampleDistinct(NonzeroPositions(es), MaskSize(es, pct), picks);
  }

  /** The train matrix: canonical, stored exactly at the nonzero positions
      that were not sampled, with no stored zero, holding the ratings there
      and zero at every sampled position; it has `|support| - k` entries. */
  lemma MaskSplitTrain(es: seq<Entry>, pct: int, picks: seq<nat>)
    requires Canonical(es) && MaskDraw(es, pct, picks) && MaskSplit(es, pct, picks).Success?
    ensures var sp := MaskSplit(es, pct, picks).value;
      && Canonical(sp.train)
      && Positions(sp.train) == Support(es) - Elems(sp.samples)
      && (forall i :: 0 <= i < |sp.train| ==> sp.train[i].val != 0.0)
      && (forall p :: ValueAt(sp.train, p) == if p in Elems(sp.samples) then 0.0 else ValueAt(es, p))
      && |sp.train| == |Support(es)| - MaskSize(es, pct)
  {
    var sp := MaskSplit(es, pct, picks).value;
    var s := Elems(sp.samples);
    MaskSplitSamples(es, pct, picks);
    ZeroedMatrix(es, s);
    NonzeroEntriesMatrix(Zeroed(es, s));
    assert Support(es) == (Support(es) - s) + s;
    assert |Support(es)| == |Support(es) - s| + |s|;
  }

  /** Every nonzero rating ends up in exactly one of the two places: stored
      in the train matrix or among the sampled interactions; the test matrix
      is 1 exactly at their union. */
  lemma MaskSplitPartition(es: seq<Entry>, pct: int, picks: seq<nat>)
    requires Canonical(es) && MaskDraw(es, pct, picks) && MaskSplit(es, pct, picks).Success?
    ensures var sp := MaskSplit(es, pct, picks).value;
      && Positions(sp.train) !! Elems(sp.samples)
      && (forall p :: ValueAt(sp.test, p) == 1.0 <==> p in Positions(sp.train) || p in Elems(sp.samples))
  {
    var sp := MaskSplit(es, pct, picks).value;
    MaskSplitTrain(es, pct, picks);
    MaskSplitSamples(es, pct, picks);
    MaskSplitTest(es, pct, picks);
    forall p ensures ValueAt(sp.test, p) == 1.0 <==> p in Support(es) {
      SupportValue(es, p);
    }
  }

  /** In canonical storage a position is in the support exactly when the
      matrix is nonzero there. */
  lemma SupportValue(es: seq<Entry>, p: Pos)
    requires Canonical(es)
    ensures p in Support(es) <==> ValueAt(es, p) != 0.0
  {
    if p in Positions(es) {
      var x :| x in es && PosOf(x) == p;
      var i :| 0 <= i < |es| && es[i] == x;
      ValueAtStored(es, i);
      if p in Support(es) {
        var y :| y in es && y.val != 0.0 && PosOf(y) == p;
        var j :| 0 <= j < |es| && es[j] == y;
        assert j == i by {
          assert !(j < i) && !(i < j) by {
            assert j < i ==> Lt(PosOf(es[j]), PosOf(es[i]));
            assert i < j ==> Lt(PosOf(es[i]), PosOf(es[j]));
          }
        }
      }
    } else {
      assert Support(es) <= Positions(es);
    }
  }

  /** The masked rows are the rows of the sampled interactions. */
  lemma MaskSplitRows(es: seq<Entry>, pct: int, picks: seq<nat>)
    requires MaskDraw(es, pct, picks) && MaskSplit(es, pct, picks).Success?
    ensures var sp := MaskSplit(es, pct, picks).value;
      forall u :: u in sp.masked <==> exists c :: (u, c) in Elems(sp.samples)
  {
    var sp := MaskSplit(es, pct, picks).value;
    forall u | u in sp.masked ensures exists c :: (u, c) in Elems(sp.samples) {
      var i :| 0 <= i < |sp.samples| && sp.samples[i].0 == u;
      assert (u, sp.samples[i].1) == sp.samples[i];
    }
    forall u, c | (u, c) in Elems(sp.samples) ensures u in sp.masked {
      var i :| 0 <= i < |sp.samples| && sp.samples[i] == (u, c);
    }
  }

  /** Every sampled interaction, hence every masked row, lies inside the shape. */
  lemma MaskSplitInShape(es: seq<Entry>, nrows: nat, ncols: nat, pct: int, picks: seq<nat>)
    requires Canonical(es) && InShape(es, nrows, ncols)
    requires MaskDraw(es, pct, picks) && MaskSplit(es, pct, picks).Success?
    ensures var sp := MaskSplit(es, pct, picks).value;
      && (forall i :: 0 <= i < |sp.samples| ==> sp.samples[i].0 < nrows && sp.samples[i].1 < ncols)
      && (forall u :: u in sp.masked ==> u < nrows)
  {
    var sp := MaskSplit(es, pct, picks).value;
    MaskSplitSamples(es, pct, picks);
    SupportInShape(es, nrows, ncols);
    forall i | 0 <= i < |sp.samples| ensures sp.samples[i].0 < nrows && sp.samples[i].1 < ncols {
      assert sp.samples[i] in Elems(sp.samples);
    }
  }

  /** The support of storage in shape lies inside the shape. */
  lemma SupportInShape(es: seq<Entry>, nrows: nat, ncols: nat)
    requires InShape(es, nrows, ncols)
    ensures forall p :: p in Support(es) ==> p.0 < nrows && p.1 < ncols
  {
    forall p | p in Support(es) ensures p.0 < nrows && p.1 < ncols {
      var x :| x in es && x.val != 0.0 && PosOf(x) == p;
      var i :| 0 <= i < |es| && es[i] == x;
    }
  }

  /** A test percentage of 0 hides nothing: the train matrix is the ratings
      matrix without its stored zeros and no row is masked. */
  lemma MaskNone(es: seq<Entry>, picks: seq<nat>)
    requires Canonical(es) && MaskDraw(es, 0, picks)
    ensures MaskSplit(es, 0, picks).Success?
    ensures var sp := MaskSplit(es, 0, picks).value;
      && sp.samples == [] && sp.masked == {}
      && sp.train == NonzeroEntries(es)
      && forall p :: ValueAt(sp.train, p) == ValueAt(es, p)
  {
    var sp := MaskSplit(es, 0, picks).value;
    assert Elems(sp.samples) == {};
    assert Zeroed(es, {}) == es;
    NonzeroEntriesMatrix(es);
  }

  /** A test percentage of 100 hides every interaction: the train matrix is
      empty and the masked rows are exactly the rows holding a nonzero rating. */
  lemma MaskAll(es: seq<Entry>, picks: seq<nat>)
    requires Canonical(es) && MaskDraw(es, 100, picks)
    ensures MaskSplit(es, 100, picks).Success?
    ensures var sp := MaskSplit(es, 100, picks).value;
      && sp.train == []
      && forall u :: u in sp.masked <==> exists c :: (u, c) in Support(es)
  {
    var pos := NonzeroPositions(es);
    var sp := MaskSplit(es, 100, picks).value;
    NonzeroPositionsDistinct(es);
    SampleAll(pos, picks);
    assert Elems(sp.samples) == Support(es);
    MaskSplitTrain(es, 100, picks);
    assert |sp.train| == 0;
    MaskSplitRows(es, 100, picks);
  }
}
