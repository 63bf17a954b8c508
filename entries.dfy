/** The stored entries of a compressed-row sparse matrix, read in storage
    order, and the matrix they stand for: zero wherever nothing is stored. */
module Entries {
  import opened Common

  /** A (row, column) position. */
  type Pos = (nat, nat)

  /** One stored slot: its row, its column and its value (possibly an explicit zero). */
  datatype Entry = Entry(row: nat, col: nat, val: real)

  function PosOf(e: Entry): Pos {
    (e.row, e.col)
  }

  /** Row-major order on positions. */
  predicate Lt(p: Pos, q: Pos) {
    p.0 < q.0 || (p.0 == q.0 && p.1 < q.1)
  }

  /** Canonical storage: rows in order, columns sorted within a row, no position twice. */
  predicate Canonical(es: seq<Entry>) {
    forall i, j :: 0 <= i < j < |es| ==> Lt(PosOf(es[i]), PosOf(es[j]))
  }

  predicate InShape(es: seq<Entry>, nrows: nat, ncols: nat) {
    forall i :: 0 <= i < |es| ==> es[i].row < nrows && es[i].col < ncols
  }

  /** The stored positions. */
  function Positions(es: seq<Entry>): set<Pos> {
    set e | e in es :: PosOf(e)
  }

  /** The positions that hold a nonzero value. */
  function Support(es: seq<Entry>): set<Pos> {
    set e | e in es && e.val != 0.0 :: PosOf(e)
  }

  function Zip(rows: seq<nat>, cols: seq<nat>, vals: seq<real>): (es: seq<Entry>)
    requires |rows| == |cols| == |vals|
    ensures |es| == |rows|
    ensures forall k :: 0 <= k < |es| ==> es[k] == Entry(rows[k], cols[k], vals[k])
  {
    seq(|rows|, k requires 0 <= k < |rows| => Entry(rows[k], cols[k], vals[k]))
  }

  /** The matrix entry at `p`: the first value stored there, zero if none is. */
  function ValueAt(es: seq<Entry>, p: Pos): (v: real)
    ensures p !in Positions(es) ==> v == 0.0
  {
    if es == [] then 0.0
    else if PosOf(es[0]) == p then es[0].val
    else
      assert Positions(es[1..]) <= Positions(es);
      ValueAt(es[1..], p)
  }

  /** In canonical storage the entry at a stored position is the value stored there. */
  lemma {:induction false} ValueAtStored(es: seq<Entry>, i: nat)
    requires Canonical(es) && i < |es|
    ensures ValueAt(es, PosOf(es[i])) == es[i].val
  {
    if i > 0 {
      assert Lt(PosOf(es[0]), PosOf(es[i]));
      assert es[1..][i - 1] == es[i];
      ValueAtStored(es[1..], i - 1);
    }
  }

  /** Every stored nonzero value set to one (`m[m != 0] = 1`). */
  function Binarised(es: seq<Entry>): (r: seq<Entry>)
    ensures |r| == |es|
    ensures forall i :: 0 <= i < |es| ==> PosOf(r[i]) == PosOf(es[i])
  {
    seq(|es|, i requires 0 <= i < |es| => if es[i].val != 0.0 then es[i].(val := 1.0) else es[i])
  }

  /** The stored values at the positions in `s` set to zero; storage itself unchanged. */
  function Zeroed(es: seq<Entry>, s: set<Pos>): (r: seq<Entry>)
    ensures |r| == |es|
    ensures forall i :: 0 <= i < |es| ==> PosOf(r[i]) == PosOf(es[i])
  {
    seq(|es|, i requires 0 <= i < |es| => if PosOf(es[i]) in s then es[i].(val := 0.0) else es[i])
  }

  /** The stored entries with explicit zeros dropped, in storage order. */
  function NonzeroEntries(es: seq<Entry>): (r: seq<Entry>)
    ensures |r| <= |es|
  {
    if es == [] then []
    else
      var t := NonzeroEntries(es[..|es| - 1]);
      if es[|es| - 1].val != 0.0 then t + [es[|es| - 1]] else t
  }

  /** The kept entries are exactly the stored entries with a nonzero value. */
  lemma {:induction false} NonzeroEntriesMembers(es: seq<Entry>)
    ensures forall e :: e in NonzeroEntries(es) <==> e in es && e.val != 0.0
  {
    if es != [] {
      var e := es[|es| - 1];
      assert es == es[..|es| - 1] + [e];
      NonzeroEntriesMembers(es[..|es| - 1]);
    }
  }

  /** One more stored slot scanned: its entry is kept when its value is nonzero. */
  lemma NonzeroEntriesPrefix(es: seq<Entry>, k: nat)
    requires k < |es|
    ensures NonzeroEntries(es[..k + 1]) == NonzeroEntries(es[..k]) + (if es[k].val != 0.0 then [es[k]] else [])
  {
    assert es[..k + 1][..k] == es[..k];
  }

  lemma NonzeroPositionsPrefix(es: seq<Entry>, k: nat)
    requires k < |es|
    ensures NonzeroPositions(es[..k + 1]) == NonzeroPositions(es[..k]) + (if es[k].val != 0.0 then [PosOf(es[k])] else [])
  {
    assert es[..k + 1][..k] == es[..k];
  }

  /** Zeroing one more position changes at most the one slot that stores it. */
  lemma ZeroedStep(es: seq<Entry>, s: set<Pos>, p: Pos, k: int)
    requires Canonical(es)
    requires -1 <= k < |es|
    requires 0 <= k ==> PosOf(es[k]) == p
    requires k < 0 ==> p !in Positions(es)
    ensures Zeroed(es, s + {p}) ==
      if 0 <= k then Zeroed(es, s)[k := Zeroed(es, s)[k].(val := 0.0)] else Zeroed(es, s)
  {
    var a := Zeroed(es, s + {p});
    var b := if 0 <= k then Zeroed(es, s)[k := Zeroed(es, s)[k].(val := 0.0)] else Zeroed(es, s);
    forall t | 0 <= t < |es| ensures a[t] == b[t] {
      assert es[t] in es;
      assert PosOf(es[t]) == p ==> t == k;
    }
  }

  /** The positions of the nonzero stored values, in storage order (`m.nonzero()`). */
  function NonzeroPositions(es: seq<Entry>): (r: seq<Pos>)
    ensures Elems(r) == Support(es)
  {
    if es == [] then []
    else
      var e := es[|es| - 1];
      assert es == es[..|es| - 1] + [e];
      var t := NonzeroPositions(es[..|es| - 1]);
      assert Support(es) == Support(es[..|es| - 1]) + (if e.val != 0.0 then {PosOf(e)} else {});
      if e.val != 0.0 then t + [PosOf(e)] else t
  }

  /** Canonical storage holds as many entries as stored positions. */
  lemma {:induction false} PositionsCard(es: seq<Entry>)
    requires Canonical(es)
    ensures |Positions(es)| == |es|
  {
    if es != [] {
      var t := es[..|es| - 1];
      var e := es[|es| - 1];
      assert es == t + [e];
      assert Positions(es) == Positions(t) + {PosOf(e)};
      assert PosOf(e) !in Positions(t) by {
        forall x | x in t ensures PosOf(x) != PosOf(e) {
          var j :| 0 <= j < |t| && t[j] == x;
          assert Lt(PosOf(es[j]), PosOf(es[|es| - 1]));
        }
      }
      PositionsCard(t);
    }
  }

  /** The nonzero positions of canonical storage are pairwise distinct and as
      many as the support. */
  lemma {:induction false} NonzeroPositionsDistinct(es: seq<Entry>)
    requires Canonical(es)
    ensures NoDups(NonzeroPositions(es))
    ensures |NonzeroPositions(es)| == |Support(es)|
  {
    if es != [] {
      var t := es[..|es| - 1];
      var e := es[|es| - 1];
      NonzeroPositionsDistinct(t);
      var r := NonzeroPositions(es);
      var rt := NonzeroPositions(t);
      if e.val != 0.0 {
        assert r == rt + [PosOf(e)];
        assert PosOf(e) !in Elems(rt) by {
          forall p | p in Support(t) ensures p != PosOf(e) {
            var x :| x in t && x.val != 0.0 && PosOf(x) == p;
            var j :| 0 <= j < |t| && t[j] == x;
            assert Lt(PosOf(es[j]), PosOf(es[|es| - 1]));
          }
        }
        assert forall i :: 0 <= i < |rt| ==> r[i] == rt[i] && rt[i] in Elems(rt);
      }
      assert NoDups(r);
      NoDupsCard(r);
    }
  }

  /** Dropping explicit zeros keeps storage canonical and in shape. */
  lemma {:induction false} NonzeroEntriesCanonical(es: seq<Entry>, nrows: nat, ncols: nat)
    requires Canonical(es)
    ensures Canonical(NonzeroEntries(es))
    ensures InShape(es, nrows, ncols) ==> InShape(NonzeroEntries(es), nrows, ncols)
  {
    var r := NonzeroEntries(es);
    NonzeroEntriesMembers(es);
    if es != [] {
      var t := es[..|es| - 1];
      var e := es[|es| - 1];
      NonzeroEntriesCanonical(t, nrows, ncols);
      var rt := NonzeroEntries(t);
      NonzeroEntriesMembers(t);
      if e.val != 0.0 {
        assert r == rt + [e];
        forall i | 0 <= i < |rt| ensures Lt(PosOf(rt[i]), PosOf(e)) {
          assert rt[i] in t;
          var j :| 0 <= j < |t| && t[j] == rt[i];
          assert Lt(PosOf(es[j]), PosOf(es[|es| - 1]));
        }
      }
    }
    if InShape(es, nrows, ncols) {
      forall i | 0 <= i < |r| ensures r[i].row < nrows && r[i].col < ncols {
        assert r[i] in es;
      }
    }
  }

  /** Binarising: same stored positions, same support, every stored value 0 or
      1, and the matrix is 1 exactly where the original is nonzero. */
  lemma BinarisedMatrix(es: seq<Entry>)
    requires Canonical(es)
    ensures Canonical(Binarised(es))
    ensures Positions(Binarised(es)) == Positions(es)
    ensures Support(Binarised(es)) == Support(es)
    ensures forall i :: 0 <= i < |es| ==> Binarised(es)[i].val == 0.0 || Binarised(es)[i].val == 1.0
    ensures forall p :: ValueAt(Binarised(es), p) == if ValueAt(es, p) != 0.0 then 1.0 else 0.0
  {
    var b := Binarised(es);
    assert Canonical(b);
    forall p ensures p in Positions(b) <==> p in Positions(es) {
      if p in Positions(es) {
        var x :| x in es && PosOf(x) == p;
        var i :| 0 <= i < |es| && es[i] == x;
        assert PosOf(b[i]) == p;
      }
      if p in Positions(b) {
        var x :| x in b && PosOf(x) == p;
        var i :| 0 <= i < |b| && b[i] == x;
        assert PosOf(es[i]) == p;
      }
    }
    forall p ensures p in Support(b) <==> p in Support(es) {
      if p in Support(es) {
        var x :| x in es && x.val != 0.0 && PosOf(x) == p;
        var i :| 0 <= i < |es| && es[i] == x;
        assert PosOf(b[i]) == p && b[i].val != 0.0;
      }
      if p in Support(b) {
        var x :| x in b && x.val != 0.0 && PosOf(x) == p;
        var i :| 0 <= i < |b| && b[i] == x;
        assert PosOf(es[i]) == p && es[i].val != 0.0;
      }
    }
    forall p ensures ValueAt(b, p) == if ValueAt(es, p) != 0.0 then 1.0 else 0.0 {
      if p in Positions(es) {
        var x :| x in es && PosOf(x) == p;
        var i :| 0 <= i < |es| && es[i] == x;
        ValueAtStored(es, i);
        ValueAtStored(b, i);
      }
    }
  }

  /** Zeroing positions `s`: same stored positions, support loses `s`, and the
      matrix is zero on `s` and unchanged elsewhere. */
  lemma ZeroedMatrix(es: seq<Entry>, s: set<Pos>)
    requires Canonical(es)
    ensures Canonical(Zeroed(es, s))
    ensures Positions(Zeroed(es, s)) == Positions(es)
    ensures Support(Zeroed(es, s)) == Support(es) - s
    ensures forall p :: ValueAt(Zeroed(es, s), p) == if p in s then 0.0 else ValueAt(es, p)
  {
    var z := Zeroed(es, s);
    assert Canonical(z);
    forall p ensures p in Positions(z) <==> p in Positions(es) {
      if p in Positions(es) {
        var x :| x in es && PosOf(x) == p;
        var i :| 0 <= i < |es| && es[i] == x;
        assert PosOf(z[i]) == p;
      }
      if p in Positions(z) {
        var x :| x in z && PosOf(x) == p;
        var i :| 0 <= i < |z| && z[i] == x;
        assert PosOf(es[i]) == p;
      }
    }
    forall p ensures p in Support(z) <==> p in Support(es) - s {
      if p in Support(es) - s {
        var x :| x in es && x.val != 0.0 && PosOf(x) == p;
        var i :| 0 <= i < |es| && es[i] == x;
        assert PosOf(z[i]) == p && z[i].val != 0.0;
      }
      if p in Support(z) {
        var x :| x in z && x.val != 0.0 && PosOf(x) == p;
        var i :| 0 <= i < |z| && z[i] == x;
        assert PosOf(es[i]) == p && es[i].val != 0.0;
      }
    }
    forall p ensures ValueAt(z, p) == if p in s then 0.0 else ValueAt(es, p) {
      if p in Positions(es) {
        var x :| x in es && PosOf(x) == p;
        var i :| 0 <= i < |es| && es[i] == x;
        ValueAtStored(es, i);
        ValueAtStored(z, i);
      }
    }
  }

  /** Dropping explicit zeros: the stored positions become the support, no
      stored value is zero, and the matrix itself is unchanged. */
  lemma NonzeroEntriesMatrix(es: seq<Entry>)
    requires Canonical(es)
    ensures Canonical(NonzeroEntries(es))
    ensures Positions(NonzeroEntries(es)) == Support(es)
    ensures forall i :: 0 <= i < |NonzeroEntries(es)| ==> NonzeroEntries(es)[i].val != 0.0
    ensures forall p :: ValueAt(NonzeroEntries(es), p) == ValueAt(es, p)
    ensures |NonzeroEntries(es)| == |Support(es)|
  {
    var nz := NonzeroEntries(es);
    NonzeroEntriesCanonical(es, 0, 0);
    NonzeroEntriesMembers(es);
    forall i | 0 <= i < |nz| ensures nz[i].val != 0.0 {
      assert nz[i] in nz;
    }
    forall p ensures ValueAt(nz, p) == ValueAt(es, p) {
      if p in Positions(es) {
        var x :| x in es && PosOf(x) == p;
        var i :| 0 <= i < |es| && es[i] == x;
        ValueAtStored(es, i);
        if x.val != 0.0 {
          assert x in nz;
          var j :| 0 <= j < |nz| && nz[j] == x;
          ValueAtStored(nz, j);
        } else {
          assert p !in Positions(nz) by {
            forall y | y in nz ensures PosOf(y) != p {
              var k :| 0 <= k < |es| && es[k] == y;
              assert k != i;
              if k < i { assert Lt(PosOf(es[k]), PosOf(es[i])); } else { assert Lt(PosOf(es[i]), PosOf(es[k])); }
            }
          }
        }
      }
    }
    PositionsCard(nz);
  }
}
