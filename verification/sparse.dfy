/**
  Sparse matrices as triplet lists.

  A matrix is the list of (row, col, value) insertions made into it, in
  insertion order. The value of the assembled matrix at (p, q) is the sum of
  the values of every triplet at (p, q); this is what adding the two sparse
  matrices `w + d` of the Laplacian computes, and it coincides with plain
  insertion whenever no position is written twice.
 */
module Sparse {

  datatype Entry = Entry(row: int, col: int, value: real)

  /** Value of the assembled matrix at (p, q). */
  function At(es: seq<Entry>, p: int, q: int): real
    decreases |es|
  {
    if es == [] then 0.0
    else
      var last := es[|es| - 1];
      At(es[..|es| - 1], p, q) + (if last.row == p && last.col == q then last.value else 0.0)
  }

  /** Sum of the values of the triplets that lie in row p. */
  function RowSum(es: seq<Entry>, p: int): real
    decreases |es|
  {
    if es == [] then 0.0
    else
      var last := es[|es| - 1];
      RowSum(es[..|es| - 1], p) + (if last.row == p then last.value else 0.0)
  }

  /** Number of triplets that lie in row p. */
  function RowCount(es: seq<Entry>, p: int): nat
    decreases |es|
  {
    if es == [] then 0
    else RowCount(es[..|es| - 1], p) + (if es[|es| - 1].row == p then 1 else 0)
  }

  /** Sum of the assembled row p over the columns [0, n). */
  function RowTotal(es: seq<Entry>, p: int, n: nat): real
    decreases n
  {
    if n == 0 then 0.0 else RowTotal(es, p, n - 1) + At(es, p, n - 1)
  }

  /** Every triplet has both indices in [0, n). */
  predicate InRange(es: seq<Entry>, n: int)
  {
    forall e :: e in es ==> 0 <= e.row < n && 0 <= e.col < n
  }

  /** No triplet lies on the diagonal. */
  predicate OffDiagonal(es: seq<Entry>)
  {
    forall e :: e in es ==> e.row != e.col
  }

  /** No position is written twice (the precondition of inserting into a sparse matrix). */
  predicate DistinctPositions(es: seq<Entry>)
  {
    forall a, b :: 0 <= a < b < |es| ==> es[a].row != es[b].row || es[a].col != es[b].col
  }

  /** When row p holds triplets in column q only, its sum is the assembled entry at (p, q). */
  lemma {:induction false} RowSumOneColumn(es: seq<Entry>, p: int, q: int)
    requires forall e :: e in es && e.row == p ==> e.col == q
    ensures RowSum(es, p) == At(es, p, q)
    decreases |es|
  {
    if es != [] {
      var init := es[..|es| - 1];
      assert forall e :: e in init ==> e in es;
      assert es[|es| - 1] in es;
      RowSumOneColumn(init, p, q);
    }
  }

  /** Assembling a concatenation adds the two assembled matrices. */
  lemma {:induction false} AtAppend(a: seq<Entry>, b: seq<Entry>, p: int, q: int)
    ensures At(a + b, p, q) == At(a, p, q) + At(b, p, q)
    decreases |b|
  {
    if b == [] {
      assert a + b == a;
    } else {
      var b' := b[..|b| - 1];
      assert (a + b)[..|a + b| - 1] == a + b';
      assert (a + b)[|a + b| - 1] == b[|b| - 1];
      AtAppend(a, b', p, q);
    }
  }

  lemma {:induction false} RowSumAppend(a: seq<Entry>, b: seq<Entry>, p: int)
    ensures RowSum(a + b, p) == RowSum(a, p) + RowSum(b, p)
    decreases |b|
  {
    if b == [] {
      assert a + b == a;
    } else {
      var b' := b[..|b| - 1];
      assert (a + b)[..|a + b| - 1] == a + b';
      assert (a + b)[|a + b| - 1] == b[|b| - 1];
      RowSumAppend(a, b', p);
    }
  }

  lemma {:induction false} RowCountAppend(a: seq<Entry>, b: seq<Entry>, p: int)
    ensures RowCount(a + b, p) == RowCount(a, p) + RowCount(b, p)
    decreases |b|
  {
    if b == [] {
      assert a + b == a;
    } else {
      var b' := b[..|b| - 1];
      assert (a + b)[..|a + b| - 1] == a + b';
      assert (a + b)[|a + b| - 1] == b[|b| - 1];
      RowCountAppend(a, b', p);
    }
  }

  /** Triplets outside row p contribute nothing to row p. */
  lemma {:induction false} AtOtherRow(es: seq<Entry>, p: int, q: int)
    requires forall e :: e in es ==> e.row != p
    ensures At(es, p, q) == 0.0
    ensures RowSum(es, p) == 0.0
    ensures RowCount(es, p) == 0
    decreases |es|
  {
    if es != [] {
      assert es[|es| - 1] in es;
      assert forall e :: e in es[..|es| - 1] ==> e in es;
      AtOtherRow(es[..|es| - 1], p, q);
    }
  }

  /** Appending one triplet changes the row total by its value if it lies in the row and the column range. */
  lemma {:induction false} RowTotalSnoc(es: seq<Entry>, e: Entry, p: int, n: nat)
    ensures RowTotal(es + [e], p, n)
         == RowTotal(es, p, n) + (if e.row == p && 0 <= e.col < n then e.value else 0.0)
    decreases n
  {
    if n > 0 {
      RowTotalSnoc(es, e, p, n - 1);
      assert (es + [e])[..|es + [e]| - 1] == es;
    }
  }

  /**
    Summing the assembled row p over all columns gives the sum of the row's
    triplets, provided every column index is inside the matrix.
   */
  lemma {:induction false} RowTotalIsRowSum(es: seq<Entry>, p: int, n: nat)
    requires forall e :: e in es ==> 0 <= e.col < n
    ensures RowTotal(es, p, n) == RowSum(es, p)
    decreases |es|
  {
    if es == [] {
      ZeroRowTotal(p, n);
    } else {
      var es' := es[..|es| - 1];
      var e := es[|es| - 1];
      assert e in es;
      assert forall x :: x in es' ==> x in es;
      assert es == es' + [e];
      RowTotalIsRowSum(es', p, n);
      RowTotalSnoc(es', e, p, n);
    }
  }

  lemma {:induction false} ZeroRowTotal(p: int, n: nat)
    ensures RowTotal([], p, n) == 0.0
    decreases n
  {
    if n > 0 {
      ZeroRowTotal(p, n - 1);
    }
  }

  /**
    When no position is repeated, a triplet list is exactly a sparse matrix:
    the assembled value at a written position is the written value.
   */
  lemma {:induction false} AtDistinct(es: seq<Entry>, k: nat)
    requires DistinctPositions(es)
    requires k < |es|
    ensures At(es, es[k].row, es[k].col) == es[k].value
    decreases |es|
  {
    var es' := es[..|es| - 1];
    var last := es[|es| - 1];
    if k == |es| - 1 {
      assert forall e :: e in es' ==> e.row != last.row || e.col != last.col by {
        forall e | e in es'
          ensures e.row != last.row || e.col != last.col
        {
          var a :| 0 <= a < |es'| && es'[a] == e;
          assert es[a] == e;
        }
      }
      AtAbsent(es', last.row, last.col);
    } else {
      assert es'[k] == es[k];
      AtDistinct(es', k);
    }
  }

  /** A position that no triplet writes has value zero. */
  lemma {:induction false} AtAbsent(es: seq<Entry>, p: int, q: int)
    requires forall e :: e in es ==> e.row != p || e.col != q
    ensures At(es, p, q) == 0.0
    decreases |es|
  {
    if es != [] {
      assert es[|es| - 1] in es;
      assert forall e :: e in es[..|es| - 1] ==> e in es;
      AtAbsent(es[..|es| - 1], p, q);
    }
  }

  /** Appending a triplet at a position not yet written keeps positions distinct. */
  lemma DistinctSnoc(es: seq<Entry>, e: Entry)
    requires DistinctPositions(es)
    requires forall x :: x in es ==> x.row != e.row || x.col != e.col
    ensures DistinctPositions(es + [e])
  {
    forall a, b | 0 <= a < b < |es + [e]|
      ensures (es + [e])[a].row != (es + [e])[b].row || (es + [e])[a].col != (es + [e])[b].col
    {
      assert (es + [e])[a] == es[a];
      if b < |es| {
        assert (es + [e])[b] == es[b];
      } else {
        assert es[a] in es;
      }
    }
  }

  /** A single triplet assembles to its value at its own position and to zero elsewhere. */
  lemma Single(e: Entry, p: int, q: int)
    ensures At([e], p, q) == if e.row == p && e.col == q then e.value else 0.0
    ensures RowSum([e], p) == if e.row == p then e.value else 0.0
    ensures RowCount([e], p) == if e.row == p then 1 else 0
  {
    assert [e][..0] == [];
  }

  /** Every triplet's value is at most v. */
  predicate ValuesAtMost(es: seq<Entry>, v: real)
  {
    forall e :: e in es ==> e.value <= v
  }

  lemma ValuesAppend(a: seq<Entry>, b: seq<Entry>, v: real)
    requires ValuesAtMost(a, v) && ValuesAtMost(b, v)
    ensures ValuesAtMost(a + b, v)
  {
    assert forall e :: e in a + b ==> e in a || e in b;
  }
}
