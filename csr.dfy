/** A compressed-row sparse matrix over arrays, as scipy stores one: row
    pointers `indptr`, column `indices` and `data`, with the stored slots of
    row `r` at positions `indptr[r] .. indptr[r + 1]`. */
module Csr {
  import opened Common
  import opened Entries

  class CsrMatrix {
    const nrows: nat
    const ncols: nat
    const indptr: array<nat>
    const indices: array<nat>
    const data: array<real>
    /** Number of stored slots: the prefix of `indices` and `data` in use. */
    var nnz: nat
    /** The row of each stored slot, as the row pointers determine it. */
    ghost var rowOf: seq<nat>

    ghost predicate Valid()
      reads this, indptr, indices, data
    {
      && indptr.Length == nrows + 1
      && indptr != indices
      && nnz <= indices.Length && nnz <= data.Length
      && |rowOf| == nnz
      && indptr[0] == 0 && indptr[nrows] == nnz
      && (forall r1, r2 :: 0 <= r1 <= r2 <= nrows ==> indptr[r1] <= indptr[r2])
      && (forall k :: 0 <= k < nnz ==> rowOf[k] < nrows && indptr[rowOf[k]] <= k < indptr[rowOf[k] + 1])
      && Canonical(Entries())
      && InShape(Entries(), nrows, ncols)
    }

    /** The stored slots in storage order. */
    ghost function Entries(): seq<Entry>
      reads this, indices, data
      requires |rowOf| == nnz && nnz <= indices.Length && nnz <= data.Length
    {
      Zip(rowOf, indices[..nnz], data[..nnz])
    }

    /** The slots between the pointers of row `r` are exactly those of row `r`. */
    lemma RowSlots(r: nat, k: nat)
      requires Valid() && r < nrows && k < nnz
      ensures indptr[r] <= k < indptr[r + 1] <==> rowOf[k] == r
    {
    }

    /** Compressed-row storage of canonical entries in the given shape. */
    constructor FromEntries(nr: nat, nc: nat, es: seq<Entry>)
      requires Canonical(es) && InShape(es, nr, nc)
      ensures Valid() && fresh(indptr) && fresh(indices) && fresh(data)
      ensures nrows == nr && ncols == nc && Entries() == es
    {
      var n := |es|;
      var ptr := CountRows(nr, es);
      nrows, ncols := nr, nc;
      indptr := ptr;
      indices := new nat[n](t requires 0 <= t < n => es[t].col);
      data := new real[n](t requires 0 <= t < n => es[t].val);
      nnz := n;
      rowOf := seq(n, t requires 0 <= t < n => es[t].row);
      new;
      assert Entries() == es;
      ValidFrom(es, indptr[..]);
    }

    /** What a valid matrix says about its storage, in terms of its entries
        and its row pointers as sequences. */
    lemma Layout()
      requires Valid()
      ensures indptr.Length == nrows + 1 && indptr != indices && nnz <= indices.Length && nnz <= data.Length
      ensures indptr[..][0] == 0 && indptr[..][nrows] == |Entries()|
      ensures NonDecreasing(indptr[..]) && RowsLaid(Entries(), indptr[..])
      ensures Canonical(Entries()) && InShape(Entries(), nrows, ncols)
      ensures forall t :: 0 <= t < nnz ==> indices[t] == Entries()[t].col && data[t] == Entries()[t].val
    {
    }

    /** Storage that is canonical, in shape and laid out by non-decreasing row
        pointers is a valid matrix. */
    lemma ValidFrom(es: seq<Entry>, ptr: seq<nat>)
      requires indptr.Length == nrows + 1 && indptr != indices && indptr[..] == ptr
      requires nnz <= indices.Length && nnz <= data.Length && |rowOf| == nnz && Entries() == es
      requires ptr[0] == 0 && ptr[nrows] == nnz && NonDecreasing(ptr) && RowsLaid(es, ptr)
      requires Canonical(es) && InShape(es, nrows, ncols)
      ensures Valid()
    {
      assert forall k :: 0 <= k < nnz ==> rowOf[k] == es[k].row;
    }

    /** A fresh copy with its own arrays (`m.copy()`). */
    constructor Copy(m: CsrMatrix)
      requires m.Valid()
      ensures Valid() && fresh(indptr) && fresh(indices) && fresh(data)
      ensures nrows == m.nrows && ncols == m.ncols && Entries() == m.Entries()
    {
      nrows, ncols := m.nrows, m.ncols;
      indptr := new nat[m.indptr.Length](i requires 0 <= i < m.indptr.Length reads m.indptr => m.indptr[i]);
      var cols := m.indices[..m.nnz];
      var vals := m.data[..m.nnz];
      indices := new nat[m.nnz](i requires 0 <= i < |cols| => cols[i]);
      data := new real[m.nnz](i requires 0 <= i < |vals| => vals[i]);
      nnz := m.nnz;
      rowOf := m.rowOf;
      new;
      assert indices[..nnz] == m.indices[..m.nnz];
      assert data[..nnz] == m.data[..m.nnz];
    }

    /** Line 57, `m[m != 0] = 1`: every nonzero stored value becomes one. */
    method Binarise()
      requires Valid()
      modifies data
      ensures Valid() && Entries() == Binarised(old(Entries()))
    {
      var k := 0;
      while k < nnz
        invariant k <= nnz
        invariant forall t :: 0 <= t < data.Length ==>
          data[t] == if t < k && old(data[t]) != 0.0 then 1.0 else old(data[t])
      {
        if data[k] != 0.0 {
          data[k] := 1.0;
        }
        k := k + 1;
      }
      assert Entries() == Binarised(old(Entries()));
    }

    /** The slot holding position `(r, c)`, or -1 when nothing is stored there. */
    method Find(r: nat, c: nat) returns (k: int)
      requires Valid() && r < nrows
      ensures -1 <= k < nnz
      ensures 0 <= k ==> PosOf(Entries()[k]) == (r, c)
      ensures k < 0 ==> (r, c) !in Positions(Entries())
    {
      k := indptr[r];
      while k < indptr[r + 1]
        invariant indptr[r] <= k <= indptr[r + 1]
        invariant forall t :: indptr[r] <= t < k ==> indices[t] != c
      {
        if indices[k] == c {
          RowSlots(r, k);
          return;
        }
        k := k + 1;
      }
      k := -1;
      forall x | x in Entries() ensures PosOf(x) != (r, c) {
        var t :| 0 <= t < nnz && Entries()[t] == x;
        RowSlots(r, t);
      }
    }

    /** The slots of row `r` lie between its pointers, inside the used prefix. */
    lemma RowEntries(r: nat)
      requires Valid() && r < nrows
      ensures indptr[r] <= indptr[r + 1] <= nnz
      ensures forall k :: indptr[r] <= k < indptr[r + 1] ==> Entries()[k] == Entry(r, indices[k], data[k])
    {
      assert indptr[r + 1] <= indptr[nrows];
      forall k | indptr[r] <= k < indptr[r + 1] ensures Entries()[k] == Entry(r, indices[k], data[k]) {
        RowSlots(r, k);
      }
    }

    /** The nonzero positions of row `r`, appended to those of the rows before it. */
    method NonzeroRow(ghost es: seq<Entry>, r: nat, pairs: seq<Pos>) returns (pairs': seq<Pos>)
      requires r + 1 < indptr.Length && indptr[r] <= indptr[r + 1] <= |es| <= indices.Length && |es| <= data.Length
      requires forall k :: indptr[r] <= k < indptr[r + 1] ==> es[k] == Entry(r, indices[k], data[k])
      requires pairs == NonzeroPositions(es[..indptr[r]])
      ensures pairs' == NonzeroPositions(es[..indptr[r + 1]])
    {
      pairs' := pairs;
      var k := indptr[r];
      while k < indptr[r + 1]
        invariant indptr[r] <= k <= indptr[r + 1]
        invariant pairs' == NonzeroPositions(es[..k])
      {
        NonzeroPositionsPrefix(es, k);
        if data[k] != 0.0 {
          pairs' := pairs' + [(r, indices[k])];
        }
        k := k + 1;
      }
    }

    /** Lines 62-63, `m.nonzero()`: the positions of the nonzero stored values,
        row by row. */
    method Nonzero() returns (pairs: seq<Pos>)
      requires Valid()
      ensures pairs == NonzeroPositions(Entries())
    {
      ghost var es := Entries();
      pairs := [];
      var r := 0;
      while r < nrows
        invariant r <= nrows
        invariant pairs == NonzeroPositions(es[..indptr[r]])
      {
        RowEntries(r);
        pairs := NonzeroRow(es, r, pairs);
        r := r + 1;
      }
      assert es[..nnz] == es;
    }

    /** One stored value set to zero. */
    method SetZero(k: nat)
      requires Valid() && k < nnz
      modifies data
      ensures Valid() && Entries() == old(Entries())[k := old(Entries())[k].(val := 0.0)]
    {
      data[k] := 0.0;
      assert Entries() == old(Entries())[k := old(Entries())[k].(val := 0.0)];
    }

    /** Zeroing one more position `p` of the original entries `e0`. */
    method ZeroOne(ghost e0: seq<Entry>, ghost done: set<Pos>, p: Pos)
      requires Valid() && Canonical(e0) && Entries() == Zeroed(e0, done) && p.0 < nrows
      modifies data
      ensures Valid() && Entries() == Zeroed(e0, done + {p})
    {
      var k := Find(p.0, p.1);
      ZeroedStep(e0, done, p, k);
      if k >= 0 {
        SetZero(k);
      }
    }

    /** Line 74, `m[rows, cols] = 0` for positions already stored: their values
        become explicit zeros; nothing is inserted or removed. */
    method ZeroAt(pairs: seq<Pos>)
      requires Valid()
      requires forall i :: 0 <= i < |pairs| ==> pairs[i].0 < nrows && pairs[i].1 < ncols
      modifies data
      ensures Valid() && Entries() == Zeroed(old(Entries()), Elems(pairs))
    {
      ghost var e0 := Entries();
      var i := 0;
      while i < |pairs|
        invariant i <= |pairs|
        invariant Valid() && Entries() == Zeroed(e0, Elems(pairs[..i]))
      {
        ZeroOne(e0, Elems(pairs[..i]), pairs[i]);
        ElemsSnoc(pairs, i);
        i := i + 1;
      }
      assert pairs[..|pairs|] == pairs;
    }

    /** The state of the compaction of row `i` once the slots before `jj` are
        scanned: the kept entries `acc` extend those of the earlier rows,
        `acc0`, with entries of row `i`, and fill the first `out` slots; the
        slots from `jj` on are untouched. */
    ghost predicate Scanning(e0: seq<Entry>, i: nat, out0: nat, acc0: seq<Entry>, jj: nat, out: nat, acc: seq<Entry>)
      reads indices, data
    {
      && out0 <= out <= jj <= |e0| <= indices.Length && |e0| <= data.Length
      && |acc0| == out0 && |acc| == out
      && acc == NonzeroEntries(e0[..jj])
      && (forall t :: 0 <= t < out0 ==> acc[t] == acc0[t])
      && (forall t :: out0 <= t < out ==> acc[t].row == i)
      && (forall t :: 0 <= t < out ==> indices[t] == acc[t].col && data[t] == acc[t].val)
      && (forall t :: jj <= t < |e0| ==> indices[t] == e0[t].col && data[t] == e0[t].val)
    }

    /** One slot of `m.eliminate_zeros()`: a nonzero slot `jj` of row `i` moves
        down to slot `out`; a zero one is skipped. */
    method ScanSlot(ghost e0: seq<Entry>, i: nat, out0: nat, ghost acc0: seq<Entry>, jj: nat, out: nat, ghost acc: seq<Entry>)
      returns (out': nat, ghost acc': seq<Entry>)
      requires Scanning(e0, i, out0, acc0, jj, out, acc) && jj < |e0| && e0[jj].row == i
      modifies indices, data
      ensures Scanning(e0, i, out0, acc0, jj + 1, out', acc')
    {
      NonzeroEntriesPrefix(e0, jj);
      out', acc' := out, acc;
      var x := data[jj];
      if x != 0.0 {
        indices[out] := indices[jj];
        data[out] := x;
        acc' := acc + [e0[jj]];
        out' := out + 1;
      }
    }

    /** One row of the compaction: the slots `start .. stop` of `e0`, all in
        row `i`, are scanned and the nonzero ones moved down to the slots
        from `out0` on. */
    method CompactRow(ghost e0: seq<Entry>, i: nat, start: nat, stop: nat, out0: nat, ghost acc0: seq<Entry>)
      returns (out: nat, ghost acc: seq<Entry>)
      requires start <= stop && Scanning(e0, i, out0, acc0, start, out0, acc0)
      requires stop <= |e0| && forall t :: start <= t < stop ==> e0[t].row == i
      modifies indices, data
      ensures Scanning(e0, i, out0, acc0, stop, out, acc)
    {
      out, acc := out0, acc0;
      var jj := start;
      while jj < stop
        invariant start <= jj <= stop && Scanning(e0, i, out0, acc0, jj, out, acc)
      {
        out, acc := ScanSlot(e0, i, out0, acc0, jj, out, acc);
        jj := jj + 1;
      }
    }

    /** The state of the compaction after `i` rows: the entries kept so far,
        `acc`, fill the first `out` slots, the slots from `ptr0[i]` on are
        untouched, and the first `i + 1` row pointers hold the new layout
        `ptr`. */
    ghost predicate Compacting(e0: seq<Entry>, ptr0: seq<nat>, i: nat, out: nat, acc: seq<Entry>, ptr: seq<nat>)
      reads indptr, indices, data
    {
      && i <= nrows && indptr.Length == nrows + 1 == |ptr0|
      && ptr0[i] <= |e0| <= indices.Length && |e0| <= data.Length
      && out <= ptr0[i] && |acc| == out
      && acc == NonzeroEntries(e0[..ptr0[i]])
      && (forall t :: 0 <= t < out ==> indices[t] == acc[t].col && data[t] == acc[t].val)
      && (forall t :: ptr0[i] <= t < |e0| ==> indices[t] == e0[t].col && data[t] == e0[t].val)
      && (forall q :: i < q <= nrows ==> indptr[q] == ptr0[q])
      && |ptr| == i + 1 && (forall q :: 0 <= q <= i ==> indptr[q] == ptr[q])
      && ptr[0] == 0 && ptr[i] == out
      && NonDecreasing(ptr) && RowsLaid(acc, ptr)
    }

    /** One row of `m.eliminate_zeros()`: compact row `i` and record its new end. */
    method CompactStep(ghost e0: seq<Entry>, ghost ptr0: seq<nat>, i: nat, rowEnd: nat, out: nat,
                       ghost acc: seq<Entry>, ghost ptr: seq<nat>)
      returns (rowEnd': nat, out': nat, ghost acc': seq<Entry>, ghost ptr': seq<nat>)
      requires indptr != indices && NonDecreasing(ptr0) && RowsLaid(e0, ptr0)
      requires i < nrows && Compacting(e0, ptr0, i, out, acc, ptr) && rowEnd == ptr0[i] && ptr0[nrows] == |e0|
      modifies indptr, indices, data
      ensures Compacting(e0, ptr0, i + 1, out', acc', ptr') && rowEnd' == ptr0[i + 1]
    {
      rowEnd' := indptr[i + 1];
      assert rowEnd <= rowEnd' <= ptr0[nrows];
      RowBlock(e0, ptr0, i);
      out', acc' := CompactRow(e0, i, rowEnd, rowEnd', out, acc);
      ExtendNonDecreasing(ptr, out');
      ExtendRowsLaid(acc, acc', ptr, out');
      indptr[i + 1] := out';
      ptr' := ptr + [out'];
    }

    /** The compaction over all rows: the slots of `e0`, laid out by the row
        pointers `ptr0`, are scanned row by row, the nonzero ones are moved
        down and each row's new end is written into `indptr`. */
    method Compact(ghost e0: seq<Entry>, ghost ptr0: seq<nat>) returns (out: nat, ghost acc: seq<Entry>, ghost ptr: seq<nat>)
      requires indptr != indices && indptr.Length == nrows + 1 && indptr[..] == ptr0
      requires |e0| <= indices.Length && |e0| <= data.Length
      requires ptr0[0] == 0 && ptr0[nrows] == |e0|
      requires NonDecreasing(ptr0) && RowsLaid(e0, ptr0)
      requires forall t :: 0 <= t < |e0| ==> indices[t] == e0[t].col && data[t] == e0[t].val
      modifies indptr, indices, data
      ensures Compacting(e0, ptr0, nrows, out, acc, ptr)
    {
      acc, ptr := [], [0];
      out := 0;
      var rowEnd := 0;
      var i := 0;
      assert e0[..0] == [];
      assert forall q :: 0 <= q <= nrows ==> indptr[q] == ptr0[q];
      assert Compacting(e0, ptr0, 0, 0, [], [0]);
      while i < nrows
        invariant Compacting(e0, ptr0, i, out, acc, ptr) && rowEnd == ptr0[i]
      {
        rowEnd, out, acc, ptr := CompactStep(e0, ptr0, i, rowEnd, out, acc, ptr);
        i := i + 1;
      }
    }

    /** Line 75, `m.eliminate_zeros()`: the stored slots holding zero are removed
        in place, later slots move down and the row pointers are recounted. */
    method EliminateZeros()
      requires Valid()
      modifies this, indptr, indices, data
      ensures Valid() && Entries() == NonzeroEntries(old(Entries()))
    {
      ghost var e0 := Entries();
      ghost var ptr0 := indptr[..];
      Layout();
      var out;
      ghost var acc, ptr;
      out, acc, ptr := Compact(e0, ptr0);
      assert e0[..ptr0[nrows]] == e0;
      NonzeroEntriesCanonical(e0, nrows, ncols);
      Commit(out, acc, ptr);
    }

    /** The compacted slots become the stored ones. */
    method Commit(out: nat, ghost acc: seq<Entry>, ghost ptr: seq<nat>)
      requires indptr.Length == nrows + 1 && indptr != indices && indptr[..] == ptr
      requires out <= indices.Length && out <= data.Length && |acc| == out
      requires ptr[0] == 0 && ptr[nrows] == out && NonDecreasing(ptr) && RowsLaid(acc, ptr)
      requires Canonical(acc) && InShape(acc, nrows, ncols)
      requires forall t :: 0 <= t < out ==> indices[t] == acc[t].col && data[t] == acc[t].val
      modifies this
      ensures Valid() && Entries() == acc
    {
      nnz := out;
      rowOf := seq(out, t requires 0 <= t < out => acc[t].row);
      assert Entries() == acc;
      ValidFrom(acc, ptr);
    }
  }

  predicate NonDecreasing(s: seq<nat>) {
    forall a, b :: 0 <= a <= b < |s| ==> s[a] <= s[b]
  }

  lemma ExtendNonDecreasing(s: seq<nat>, x: nat)
    requires NonDecreasing(s) && s != [] && s[|s| - 1] <= x
    ensures NonDecreasing(s + [x])
  {
    assert forall a :: 0 <= a < |s| ==> s[a] <= x;
  }

  /** Every entry `t` lies between the pointers of its row. */
  predicate RowsLaid(es: seq<Entry>, ptr: seq<nat>) {
    forall t :: 0 <= t < |es| ==> es[t].row + 1 < |ptr| && ptr[es[t].row] <= t < ptr[es[t].row + 1]
  }

  /** With non-decreasing row pointers and every slot between the pointers of
      its row, the slots between the pointers of row `i` are those of row `i`. */
  lemma RowBlock(es: seq<Entry>, ptr: seq<nat>, i: nat)
    requires NonDecreasing(ptr) && RowsLaid(es, ptr) && i + 1 < |ptr|
    ensures forall t :: ptr[i] <= t < ptr[i + 1] && t < |es| ==> es[t].row == i
  {
    forall t | ptr[i] <= t < ptr[i + 1] && t < |es| ensures es[t].row == i {
      var r := es[t].row;
      assert !(r + 1 <= i) && !(i + 1 <= r);
    }
  }

  /** Closing a row: the entries appended for row `|ptr| - 1` lie between its
      old end and the new end `x`. */
  lemma ExtendRowsLaid(acc0: seq<Entry>, acc: seq<Entry>, ptr: seq<nat>, x: nat)
    requires RowsLaid(acc0, ptr) && ptr != [] && ptr[|ptr| - 1] == |acc0| <= |acc| == x
    requires forall t :: 0 <= t < |acc0| ==> acc[t] == acc0[t]
    requires forall t :: |acc0| <= t < |acc| ==> acc[t].row == |ptr| - 1
    ensures RowsLaid(acc, ptr + [x])
  {
  }

  /** The row pointers of canonical entries whose rows are below `nr`:
      `ptr[r]` counts the entries of the rows before `r`. */
  method CountRows(nr: nat, es: seq<Entry>) returns (ptr: array<nat>)
    requires Canonical(es) && forall t :: 0 <= t < |es| ==> es[t].row < nr
    ensures fresh(ptr) && ptr.Length == nr + 1
    ensures ptr[0] == 0 && ptr[nr] == |es| && NonDecreasing(ptr[..]) && RowsLaid(es, ptr[..])
  {
    var n := |es|;
    ptr := new nat[nr + 1];
    var k := 0;
    var r := 0;
    while r <= nr
      invariant r <= nr + 1 && k <= n
      invariant forall t :: 0 <= t < k ==> es[t].row < r
      invariant r > 0 ==> k == ptr[r - 1]
      invariant forall q :: 0 <= q < r ==> ptr[q] <= n
      invariant forall q, t :: 0 <= q < r && 0 <= t < n ==> (t < ptr[q] <==> es[t].row < q)
    {
      while k < n && es[k].row < r
        invariant k <= n
        invariant forall t :: 0 <= t < k ==> es[t].row < r
      {
        k := k + 1;
      }
      assert forall t :: k <= t < n ==> r <= es[t].row by {
        forall t | k <= t < n ensures r <= es[t].row {
          if k < t { assert Lt(PosOf(es[k]), PosOf(es[t])); }
        }
      }
      ptr[r] := k;
      r := r + 1;
    }
    CountsLayout(es, ptr[..]);
  }

  /** Pointers that count, for every row `q`, the entries of the rows before
      `q` start at zero, end at the number of entries, never decrease and
      place every entry between the pointers of its row. */
  lemma CountsLayout(es: seq<Entry>, ptr: seq<nat>)
    requires |ptr| > 0 && forall t :: 0 <= t < |es| ==> es[t].row < |ptr| - 1
    requires forall q :: 0 <= q < |ptr| ==> ptr[q] <= |es|
    requires forall q, t :: 0 <= q < |ptr| && 0 <= t < |es| ==> (t < ptr[q] <==> es[t].row < q)
    ensures ptr[0] == 0 && ptr[|ptr| - 1] == |es| && NonDecreasing(ptr) && RowsLaid(es, ptr)
  {
    var n := |es|;
    forall a, b | 0 <= a <= b < |ptr| ensures ptr[a] <= ptr[b] {
      if ptr[b] < n {
        assert !(es[ptr[b]].row < b);
      }
    }
    assert n > 0 ==> es[n - 1].row < |ptr| - 1;
    assert n > 0 ==> (0 < ptr[0] <==> es[0].row < 0);
  }
}
