/**
 * A reference definition of what the boolean NOT kernel does to its output
 * column, stated on values, and the properties it has.
 */
module Complement {
  import opened Vector

  /** Boolean NOT on the 0/1 encoding: XOR with 1, which flips the low bit. */
  function Not(v: Long): Long
  {
    Long(v.bits ^ 1)
  }

  /** NOT maps false to true and true to false, and undoes itself. */
  lemma NotIsComplement(v: Long)
    ensures v == Long(0) ==> Not(v) == Long(1)
    ensures v == Long(1) ==> Not(v) == Long(0)
    ensures Not(Not(v)) == v
  {
  }

  /** The element-wise NOT of a column's values. */
  function Complemented(v: seq<Long>): seq<Long>
  {
    seq(|v|, i requires 0 <= i < |v| => Not(v[i]))
  }

  /** Every row index is a valid slot of an array of length `len`. */
  predicate RowsFit(rows: seq<int>, len: int)
  {
    forall k :: 0 <= k < |rows| ==> 0 <= rows[k] < len
  }

  /** No row index occurs twice. */
  predicate Distinct(rows: seq<int>)
  {
    forall j, k :: 0 <= j < k < |rows| ==> rows[j] != rows[k]
  }

  /** The rows 0 .. n-1, in order. */
  function Upto(n: nat): (rows: seq<int>)
  {
    seq(n, k => k)
  }

  /** The members of Upto(n) are exactly 0 .. n-1. */
  lemma InUpto(n: nat)
    ensures forall k :: k in Upto(n) <==> 0 <= k < n
  {
    forall k | 0 <= k < n
      ensures k in Upto(n)
    {
      assert Upto(n)[k] == k;
    }
  }

  /**
   * The rows a kernel that writes a non-repeating column visits, in the order
   * it visits them: the first `n` selected rows, or 0 .. n-1 without a selection.
   */
  function ActiveRows(selectedInUse: bool, selected: seq<int>, n: int): seq<int>
    requires selectedInUse && 0 < n ==> n <= |selected|
  {
    if n <= 0 then []
    else if selectedInUse then selected[..n]
    else Upto(n)
  }

  /**
   * The slots the NOT kernel writes: none for an empty batch, only slot 0 for
   * a repeating input, the active rows otherwise.
   */
  function WrittenRows(isRepeating: bool, selectedInUse: bool, selected: seq<int>, n: int): seq<int>
    requires !isRepeating && selectedInUse && 0 < n ==> n <= |selected|
  {
    if n <= 0 then []
    else if isRepeating then [0]
    else ActiveRows(selectedInUse, selected, n)
  }

  /** `dst` with `src[r]` copied into slot `r` for each `r` of `rows`, in order. */
  function Scatter<T>(dst: seq<T>, src: seq<T>, rows: seq<int>): (r: seq<T>)
    requires RowsFit(rows, |dst|) && RowsFit(rows, |src|)
    ensures |r| == |dst|
    decreases |rows|
  {
    if rows == [] then dst
    else
      var last := rows[|rows| - 1];
      Scatter(dst, src, rows[..|rows| - 1])[last := src[last]]
  }

  /** Writing the single row 0 replaces slot 0 and nothing else. */
  lemma ScatterFirst<T>(dst: seq<T>, src: seq<T>)
    requires 0 < |dst| && 0 < |src|
    ensures Scatter(dst, src, [0]) == dst[0 := src[0]]
  {
    assert [0][..0] == [];
  }

  /** Slot `i` of a scatter holds the source's value if `i` is one of the rows, else the old one. */
  lemma {:induction false} ScatterAt<T>(dst: seq<T>, src: seq<T>, rows: seq<int>, i: int)
    requires RowsFit(rows, |dst|) && RowsFit(rows, |src|)
    requires 0 <= i < |dst|
    ensures i in rows ==> i < |src| && Scatter(dst, src, rows)[i] == src[i]
    ensures i !in rows ==> Scatter(dst, src, rows)[i] == dst[i]
  {
    if rows != [] {
      var init := rows[..|rows| - 1];
      assert rows == init + [rows[|rows| - 1]];
      ScatterAt(dst, src, init, i);
    }
  }

  /** Slot `i` exists in both value arrays, and in both null arrays when the input may hold nulls. */
  predicate SlotFits(input: LongColumnState, output: LongColumnState, i: int)
  {
    && 0 <= i < |input.vector| && i < |output.vector|
    && (!input.noNulls ==> i < |input.isNull| && i < |output.isNull|)
  }

  /**
   * `r` holds, slot by slot, what `Scatter(dst, src, rows)` holds: the listed
   * rows from `src`, every other slot from `dst`.
   */
  ghost predicate ScatteredAt<T>(r: seq<T>, dst: seq<T>, src: seq<T>, rows: seq<int>)
  {
    && |r| == |dst|
    && forall k :: 0 <= k < |r| ==>
         (k in rows ==> k < |src| && r[k] == src[k]) && (k !in rows ==> r[k] == dst[k])
  }

  /** Writing one more listed row keeps a sequence in step with `Scatter`. */
  lemma ScatteredSnoc<T>(r: seq<T>, dst: seq<T>, src: seq<T>, rows: seq<int>, i: int)
    requires ScatteredAt(r, dst, src, rows)
    requires 0 <= i < |r| && i < |src|
    ensures ScatteredAt(r[i := src[i]], dst, src, rows + [i])
  {
    assert forall k :: k in rows + [i] <==> k in rows || k == i;
  }

  /** A sequence that agrees slot by slot with a scatter is that scatter. */
  lemma ScatterIs<T>(dst: seq<T>, src: seq<T>, rows: seq<int>, r: seq<T>)
    requires RowsFit(rows, |dst|) && RowsFit(rows, |src|)
    requires ScatteredAt(r, dst, src, rows)
    ensures r == Scatter(dst, src, rows)
  {
    forall k | 0 <= k < |r|
      ensures r[k] == Scatter(dst, src, rows)[k]
    {
      ScatterAt(dst, src, rows, k);
    }
  }

  /**
   * What the kernel needs in order not to fail, branch by branch: nothing for
   * an empty batch; slot 0 for a repeating input; otherwise a selection that
   * covers the `n` active rows when it is used, and every active row a slot
   * of the arrays it reads and writes.
   */
  predicate CanEvaluate(input: LongColumnState, output: LongColumnState, selectedInUse: bool, selected: seq<int>, n: int)
  {
    if n <= 0 then true
    else if input.isRepeating then SlotFits(input, output, 0)
    else if selectedInUse then n <= |selected| && forall j :: 0 <= j < n ==> SlotFits(input, output, selected[j])
    else SlotFits(input, output, n - 1)
  }

  /** Every slot the kernel writes exists in every array it touches. */
  lemma WrittenRowsFit(input: LongColumnState, output: LongColumnState, selectedInUse: bool, selected: seq<int>, n: int)
    requires CanEvaluate(input, output, selectedInUse, selected, n)
    ensures !input.isRepeating && selectedInUse && 0 < n ==> n <= |selected|
    ensures var rows := WrittenRows(input.isRepeating, selectedInUse, selected, n);
            && RowsFit(rows, |input.vector|) && RowsFit(rows, |output.vector|)
            && (!input.noNulls ==> RowsFit(rows, |input.isNull|) && RowsFit(rows, |output.isNull|))
  {
  }

  /**
   * The output column after the NOT kernel ran on a batch of `n` rows: the
   * written slots hold the complement of the input (and its null flags, when
   * the input may hold nulls), and the output takes the input's two flags.
   */
  function NotColumn(input: LongColumnState, output: LongColumnState, selectedInUse: bool, selected: seq<int>, n: int): (r: LongColumnState)
    requires CanEvaluate(input, output, selectedInUse, selected, n)
    ensures |r.vector| == |output.vector| && |r.isNull| == |output.isNull|
  {
    if n <= 0 then output
    else
      WrittenRowsFit(input, output, selectedInUse, selected, n);
      var rows := WrittenRows(input.isRepeating, selectedInUse, selected, n);
      LongColumnState(
        Scatter(output.vector, Complemented(input.vector), rows),
        if input.noNulls then output.isNull else Scatter(output.isNull, input.isNull, rows),
        input.noNulls,
        input.isRepeating)
  }

  /** An empty batch (size zero or negative, the end-of-stream marker) leaves the output as it was. */
  lemma EmptyBatchUnchanged(input: LongColumnState, output: LongColumnState, selectedInUse: bool, selected: seq<int>, n: int)
    requires CanEvaluate(input, output, selectedInUse, selected, n)
    requires n <= 0
    ensures NotColumn(input, output, selectedInUse, selected, n) == output
  {
  }

  /**
   * Each output slot holds the complement of the input slot if the kernel
   * writes it and its old value otherwise; the same for the null flags when
   * the input may hold nulls.
   */
  lemma SlotAt(input: LongColumnState, output: LongColumnState, selectedInUse: bool, selected: seq<int>, n: int, i: int)
    requires CanEvaluate(input, output, selectedInUse, selected, n)
    ensures var r := NotColumn(input, output, selectedInUse, selected, n);
            var rows := WrittenRows(input.isRepeating, selectedInUse, selected, n);
            && (0 <= i < |output.vector| ==>
                  r.vector[i] == if i in rows then Not(input.vector[i]) else output.vector[i])
            && (0 <= i < |output.isNull| ==>
                  r.isNull[i] == if i in rows && !input.noNulls then input.isNull[i] else output.isNull[i])
  {
    if 0 < n {
      WrittenRowsFit(input, output, selectedInUse, selected, n);
      var rows := WrittenRows(input.isRepeating, selectedInUse, selected, n);
      if 0 <= i < |output.vector| {
        ScatterAt(output.vector, Complemented(input.vector), rows, i);
      }
      if 0 <= i < |output.isNull| && !input.noNulls {
        ScatterAt(output.isNull, input.isNull, rows, i);
      }
    }
  }

  /**
   * Input without nulls: the output is marked null-free, every written row
   * holds the complement, and the output's null array is left as it was.
   */
  lemma NoNullsCase(input: LongColumnState, output: LongColumnState, selectedInUse: bool, selected: seq<int>, n: int)
    requires CanEvaluate(input, output, selectedInUse, selected, n)
    requires 0 < n && input.noNulls
    ensures var r := NotColumn(input, output, selectedInUse, selected, n);
            && r.noNulls
            && r.isNull == output.isNull
            && forall i :: i in WrittenRows(input.isRepeating, selectedInUse, selected, n) ==>
                 0 <= i < |r.vector| && r.vector[i] == Not(input.vector[i])
  {
    var rows := WrittenRows(input.isRepeating, selectedInUse, selected, n);
    forall i | i in rows
      ensures 0 <= i < |output.vector|
      ensures NotColumn(input, output, selectedInUse, selected, n).vector[i] == Not(input.vector[i])
    {
      SlotAt(input, output, selectedInUse, selected, n, i);
    }
  }

  /**
   * Repeating input: the output is marked repeating, slot 0 holds the
   * complement (and the input's null flag, when nulls are possible), and no
   * other slot changes.
   */
  lemma RepeatingCase(input: LongColumnState, output: LongColumnState, selectedInUse: bool, selected: seq<int>, n: int)
    requires CanEvaluate(input, output, selectedInUse, selected, n)
    requires 0 < n && input.isRepeating
    ensures var r := NotColumn(input, output, selectedInUse, selected, n);
            && r.isRepeating
            && r.noNulls == input.noNulls
            && 0 < |r.vector| && r.vector[0] == Not(input.vector[0])
            && (!input.noNulls ==> 0 < |r.isNull| && r.isNull[0] == input.isNull[0])
            && (forall i :: 0 < i < |r.vector| ==> r.vector[i] == output.vector[i])
            && (forall i :: 0 < i < |r.isNull| ==> r.isNull[i] == output.isNull[i])
  {
    var r := NotColumn(input, output, selectedInUse, selected, n);
    assert WrittenRows(input.isRepeating, selectedInUse, selected, n) == [0];
    forall i | 0 <= i < |r.vector|
      ensures r.vector[i] == if i == 0 then Not(input.vector[0]) else output.vector[i]
    {
      SlotAt(input, output, selectedInUse, selected, n, i);
    }
    forall i | 0 <= i < |r.isNull|
      ensures r.isNull[i] == if i == 0 && !input.noNulls then input.isNull[0] else output.isNull[i]
    {
      SlotAt(input, output, selectedInUse, selected, n, i);
    }
  }

  /**
   * Selection in use, input not repeating: exactly the slots named by
   * selected[0 .. n-1] are written, and the output is marked not repeating.
   */
  lemma SelectedCase(input: LongColumnState, output: LongColumnState, selected: seq<int>, n: int)
    requires CanEvaluate(input, output, true, selected, n)
    requires 0 < n && !input.isRepeating
    ensures var r := NotColumn(input, output, true, selected, n);
            && !r.isRepeating
            && (forall i :: 0 <= i < |r.vector| ==>
                  r.vector[i] == if i in selected[..n] then Not(input.vector[i]) else output.vector[i])
            && (!input.noNulls ==> forall i :: 0 <= i < |r.isNull| ==>
                  r.isNull[i] == if i in selected[..n] then input.isNull[i] else output.isNull[i])
  {
    var r := NotColumn(input, output, true, selected, n);
    assert WrittenRows(input.isRepeating, true, selected, n) == selected[..n];
    forall i | 0 <= i < |r.vector|
      ensures r.vector[i] == if i in selected[..n] then Not(input.vector[i]) else output.vector[i]
    {
      SlotAt(input, output, true, selected, n, i);
    }
    forall i | 0 <= i < |r.isNull| && !input.noNulls
      ensures r.isNull[i] == if i in selected[..n] then input.isNull[i] else output.isNull[i]
    {
      SlotAt(input, output, true, selected, n, i);
    }
  }

  /**
   * No selection, input not repeating: slots 0 .. n-1 are written, every slot
   * from n on keeps its value, and the output is marked not repeating.
   */
  lemma ContiguousCase(input: LongColumnState, output: LongColumnState, selected: seq<int>, n: int)
    requires CanEvaluate(input, output, false, selected, n)
    requires 0 < n && !input.isRepeating
    ensures var r := NotColumn(input, output, false, selected, n);
            && !r.isRepeating
            && (forall i :: 0 <= i < |r.vector| ==>
                  r.vector[i] == if i < n then Not(input.vector[i]) else output.vector[i])
            && (!input.noNulls ==> forall i :: 0 <= i < |r.isNull| ==>
                  r.isNull[i] == if i < n then input.isNull[i] else output.isNull[i])
  {
    var r := NotColumn(input, output, false, selected, n);
    var rows := WrittenRows(input.isRepeating, false, selected, n);
    assert rows == Upto(n);
    forall i | 0 <= i < |r.vector|
      ensures r.vector[i] == if i < n then Not(input.vector[i]) else output.vector[i]
    {
      SlotAt(input, output, false, selected, n, i);
      assert i < n ==> rows[i] == i;
    }
    forall i | 0 <= i < |r.isNull| && !input.noNulls
      ensures r.isNull[i] == if i < n then input.isNull[i] else output.isNull[i]
    {
      SlotAt(input, output, false, selected, n, i);
      assert i < n ==> rows[i] == i;
    }
  }

  /**
   * Input that may hold nulls: the output is marked as possibly holding nulls
   * and every written row takes over the input's null flag and complemented value.
   */
  lemma NullPropagation(input: LongColumnState, output: LongColumnState, selectedInUse: bool, selected: seq<int>, n: int)
    requires CanEvaluate(input, output, selectedInUse, selected, n)
    requires 0 < n && !input.noNulls
    ensures var r := NotColumn(input, output, selectedInUse, selected, n);
            && !r.noNulls
            && forall i :: i in WrittenRows(input.isRepeating, selectedInUse, selected, n) ==>
                 && 0 <= i < |r.isNull| && r.isNull[i] == input.isNull[i]
                 && 0 <= i < |r.vector| && r.vector[i] == Not(input.vector[i])
  {
    var rows := WrittenRows(input.isRepeating, selectedInUse, selected, n);
    var r := NotColumn(input, output, selectedInUse, selected, n);
    forall i | i in rows
      ensures 0 <= i < |r.isNull| && r.isNull[i] == input.isNull[i]
      ensures 0 <= i < |r.vector| && r.vector[i] == Not(input.vector[i])
    {
      SlotAt(input, output, selectedInUse, selected, n, i);
    }
  }

  /**
   * Double negation: running the kernel from `input` into an intermediate
   * column, then from that column into a third, gives back the input's
   * values, null flags and column flags at every written row.
   */
  lemma DoubleNegation(input: LongColumnState, middle: LongColumnState, output: LongColumnState, selectedInUse: bool, selected: seq<int>, n: int)
    requires CanEvaluate(input, middle, selectedInUse, selected, n)
    requires CanEvaluate(NotColumn(input, middle, selectedInUse, selected, n), output, selectedInUse, selected, n)
    requires 0 < n
    ensures var m := NotColumn(input, middle, selectedInUse, selected, n);
            var r := NotColumn(m, output, selectedInUse, selected, n);
            && r.noNulls == input.noNulls
            && r.isRepeating == input.isRepeating
            && forall i :: i in WrittenRows(input.isRepeating, selectedInUse, selected, n) ==>
                 && 0 <= i < |r.vector| && r.vector[i] == input.vector[i]
                 && (!input.noNulls ==> 0 <= i < |r.isNull| && r.isNull[i] == input.isNull[i])
  {
    var m := NotColumn(input, middle, selectedInUse, selected, n);
    var r := NotColumn(m, output, selectedInUse, selected, n);
    var rows := WrittenRows(input.isRepeating, selectedInUse, selected, n);
    forall i | i in rows
      ensures 0 <= i < |r.vector| && r.vector[i] == input.vector[i]
      ensures !input.noNulls ==> 0 <= i < |r.isNull| && r.isNull[i] == input.isNull[i]
    {
      SlotAt(input, middle, selectedInUse, selected, n, i);
      SlotAt(m, output, selectedInUse, selected, n, i);
      NotIsComplement(input.vector[i]);
    }
  }
}
