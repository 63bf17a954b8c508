/** `random.sample(population, k)` with the generator's choice made explicit,
    and the two sample-size formulas of the transform. */
module Sampling {
  import opened Common

  /** `picks` is a draw of `k` distinct positions among `n`: what the
      generator chooses when `random.sample` takes `k` of `n` elements. */
  predicate IsDraw(picks: seq<nat>, n: nat, k: nat) {
    |picks| == k && NoDups(picks) && forall i :: 0 <= i < |picks| ==> picks[i] < n
  }

  /** The generator can always choose `k` of `n` positions when `k <= n`. */
  lemma DrawExists(n: nat, k: nat)
    requires k <= n
    ensures exists picks :: IsDraw(picks, n, k)
  {
    var picks: seq<nat> := seq(k, i requires 0 <= i < k => i);
    assert IsDraw(picks, n, k);
  }

  /** `picks` is the generator's choice for a draw of `k` among `n` whenever
      that size is valid; an invalid size leaves nothing to choose. */
  predicate DrawFor(picks: seq<nat>, n: nat, k: int) {
    0 <= k <= n ==> IsDraw(picks, n, k)
  }

  /** Every population size and sample size admit a choice. */
  lemma DrawForExists(n: nat, k: int)
    ensures exists picks :: DrawFor(picks, n, k)
  {
    if 0 <= k <= n {
      DrawExists(n, k);
      var picks :| IsDraw(picks, n, k);
      assert DrawFor(picks, n, k);
    } else {
      assert DrawFor([], n, k);
    }
  }

  /** A draw of `k` among `n` chooses exactly `k` distinct positions below `n`. */
  lemma DrawPositions(picks: seq<nat>, n: nat, k: nat)
    requires IsDraw(picks, n, k)
    ensures |Elems(picks)| == k && forall i :: i in Elems(picks) ==> i < n
  {
    NoDupsCard(picks);
  }

  /** Number of users kept: `(n * pct) // 100`, floor division. */
  function FloorSize(n: nat, pct: int): (k: int)
    ensures k * 100 <= n * pct < k * 100 + 100
    ensures 0 <= pct <= 100 ==> 0 <= k <= n
    ensures pct == 100 ==> k == n
    ensures pct == 0 ==> k == 0
  {
    ScaleBounds(n, pct);
    (n * pct) / 100
  }

  /** Number of interactions masked: `ceil(pct / 100 * n)`, on integers. */
  function CeilSize(n: nat, pct: int): (k: int)
    ensures k * 100 - 100 < pct * n <= k * 100
    ensures 0 <= pct <= 100 ==> 0 <= k <= n
    ensures k < 0 <==> pct * n <= -100
    ensures k > n <==> n > 0 && pct > 100
    ensures pct == 0 ==> k == 0
    ensures pct == 100 ==> k == n
  {
    ScaleBounds(n, pct);
    var a := pct * n;
    var q := (-a) / 100;
    assert q * 100 <= -a < q * 100 + 100;
    -q
  }

  /** The user draw of line 45 is possible exactly when there is no user, or
      the percentage is not negative and `n * pct` stays below `100 * (n + 1)`:
      a percentage above 100 is accepted as long as the floor still fits. */
  lemma FloorSizeInRange(n: nat, pct: int)
    ensures 0 <= FloorSize(n, pct) <= n <==> n == 0 || (0 <= pct && n * pct < 100 * n + 100)
  {
    var k := FloorSize(n, pct);
    if n > 0 && pct < 0 {
      assert n * pct <= -1 by {
        assert n * pct == -(n * (-pct));
        assert n * (-pct) >= 1;
      }
    }
    if k > n {
      assert k * 100 >= n * 100 + 100;
    }
    if 0 <= pct && n * pct < 100 * n + 100 {
      assert n * pct >= 0;
      assert k * 100 <= n * pct;
      assert k * 100 < 100 * n + 100;
    }
  }

  /** How `pct * n` compares with `0` and `100 * n`. */
  lemma ScaleBounds(n: nat, pct: int)
    ensures pct * n == n * pct
    ensures 0 <= pct ==> 0 <= pct * n
    ensures pct <= 100 ==> pct * n <= 100 * n
    ensures pct > 100 && n > 0 ==> pct * n > 100 * n
    ensures pct == 0 ==> pct * n == 0
    ensures pct == 100 ==> pct * n == 100 * n
  {
    assert pct * n - 100 * n == (pct - 100) * n;
    if pct > 100 && n > 0 {
      assert (pct - 100) * n >= n;
    }
  }

  /** `random.sample`: a `ValueError` when `k` is negative or larger than the
      population, otherwise the population elements at the drawn positions. */
  function Sample<T>(population: seq<T>, k: int, picks: seq<nat>): (r: Result<seq<T>>)
    requires DrawFor(picks, |population|, k)
    ensures r.Failure? <==> k < 0 || k > |population|
    ensures r.Failure? ==> r.error == SampleSizeInvalid
    ensures r.Success? ==> |r.value| == k
    ensures r.Success? ==> forall x :: x in r.value ==> x in population
  {
    if k < 0 || k > |population| then Failure(SampleSizeInvalid)
    else Success(seq(k, i requires 0 <= i < k => population[picks[i]]))
  }

  /** Sampling without replacement from distinct elements yields exactly `k`
      distinct elements of the population. */
  lemma SampleDistinct<T>(population: seq<T>, k: int, picks: seq<nat>)
    requires NoDups(population)
    requires 0 <= k <= |population| && IsDraw(picks, |population|, k)
    ensures NoDups(Sample(population, k, picks).value)
    ensures Elems(Sample(population, k, picks).value) <= Elems(population)
    ensures |Elems(Sample(population, k, picks).value)| == k
  {
    var s := Sample(population, k, picks).value;
    assert NoDups(s) by {
      forall i, j | 0 <= i < j < |s| ensures s[i] != s[j] {
        assert s[i] == population[picks[i]] && s[j] == population[picks[j]];
        assert picks[i] != picks[j];
      }
    }
    NoDupsCard(s);
  }

  /** Drawing the whole population takes every element of it. */
  lemma SampleAll<T>(population: seq<T>, picks: seq<nat>)
    requires NoDups(population)
    requires IsDraw(picks, |population|, |population|)
    ensures Elems(Sample(population, |population|, picks).value) == Elems(population)
  {
    SampleDistinct(population, |population|, picks);
    NoDupsCard(population);
    SubsetOfSameSize(Elems(Sample(population, |population|, picks).value), Elems(population));
  }
}
