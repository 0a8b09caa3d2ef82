/**
 * Vectorized expressions: the kernel that evaluates the boolean complement
 * of one long column into another.
 */
module Expressions {
  import opened Vector
  import opened Complement

  /** How the expression registry uses a kernel. */
  datatype Mode = Projection | Filter

  /** The argument kinds the registry matches a kernel against. */
  datatype ArgumentType = IntFamily | FloatFamily | StringFamily | DecimalFamily

  /** Whether an argument is read from a column or given as a constant. */
  datatype InputExpressionType = Column | Scalar

  /** What the registry is told about a kernel. */
  datatype Descriptor = Descriptor(mode: Mode, numArguments: nat, argumentTypes: seq<ArgumentType>,
                                   inputExpressionTypes: seq<InputExpressionType>)

  /** The NOT kernel: a one-argument projection over an integer column. */
  const NotColDescriptor := Descriptor(Projection, 1, [IntFamily], [Column])

  /** Evaluates the boolean complement of column `colNum` into column `outputColumnNum`. */
  class NotCol {
    const colNum: int
    const outputColumnNum: int

    constructor (colNum: int, outputColumnNum: int)
      ensures this.colNum == colNum && this.outputColumnNum == outputColumnNum
    {
      this.colNum := colNum;
      this.outputColumnNum := outputColumnNum;
    }

    /** Both column numbers name long columns of the batch. */
    predicate LongColumnsIn(batch: VectorizedRowBatch)
      reads batch
    {
      && 0 <= colNum < |batch.cols| && batch.cols[colNum].LongColumn?
      && 0 <= outputColumnNum < |batch.cols| && batch.cols[outputColumnNum].LongColumn?
    }

    function InputColumn(batch: VectorizedRowBatch): LongColumnVector
      reads batch
      requires LongColumnsIn(batch)
    {
      batch.cols[colNum].long
    }

    function OutputColumn(batch: VectorizedRowBatch): LongColumnVector
      reads batch
      requires LongColumnsIn(batch)
    {
      batch.cols[outputColumnNum].long
    }

    /**
     * Writes NOT of the input column into the output column for the batch's
     * active rows, following the input's null and repetition flags. The two
     * columns may be the same column.
     */
    method Evaluate(batch: VectorizedRowBatch)
      requires LongColumnsIn(batch) && batch.ColumnsSeparate()
      requires CanEvaluate(InputColumn(batch).State(), OutputColumn(batch).State(),
                           batch.selectedInUse, batch.selected[..], batch.size)
      // Working in place, a row selected twice would be flipped twice.
      requires colNum == outputColumnNum && 0 < batch.size && batch.selectedInUse && !InputColumn(batch).isRepeating
               ==> Distinct(batch.selected[..batch.size])
      modifies OutputColumn(batch), OutputColumn(batch).vector, OutputColumn(batch).isNull
      ensures OutputColumn(batch).vector == old(OutputColumn(batch).vector)
      ensures OutputColumn(batch).isNull == old(OutputColumn(batch).isNull)
      ensures OutputColumn(batch).State() ==
              NotColumn(old(InputColumn(batch).State()), old(OutputColumn(batch).State()),
                        old(batch.selectedInUse), old(batch.selected[..]), old(batch.size))
      ensures old(batch.size) <= 0 ==> unchanged(OutputColumn(batch), OutputColumn(batch).vector, OutputColumn(batch).isNull)
      ensures colNum != outputColumnNum ==> unchanged(InputColumn(batch), InputColumn(batch).vector, InputColumn(batch).isNull)
      ensures forall k :: 0 <= k < |batch.cols| && k != outputColumnNum && batch.cols[k].LongColumn? ==>
                unchanged(batch.cols[k].long, batch.cols[k].long.vector, batch.cols[k].long.isNull)
      ensures unchanged(batch, batch.selected)
    {
      var inputColVector := batch.cols[colNum].long;
      var sel := batch.selected;
      var n := batch.size;
      var vector := inputColVector.vector;
      var outV := batch.cols[outputColumnNum].long;
      // Distinct column numbers never share an object or an array; equal ones share all of them.
      assert inputColVector == outV <==> colNum == outputColumnNum;
      assert vector == outV.vector <==> colNum == outputColumnNum;
      assert inputColVector.isNull == outV.isNull <==> colNum == outputColumnNum;

      if n <= 0 {
        // Nothing to do: an empty batch marks the end of the input.
        return;
      }
      ghost var oldIn := inputColVector.State();
      ghost var oldOut := outV.State();
      WrittenRowsFit(oldIn, oldOut, batch.selectedInUse, sel[..], n);
      if inputColVector.noNulls {
        ComplementNoNulls(vector, inputColVector.isRepeating, outV, batch.selectedInUse, sel, n);
      } else {
        ComplementWithNulls(vector, inputColVector.isNull, inputColVector.isRepeating,
                            outV, batch.selectedInUse, sel, n);
      }
    }
  }

  /**
   * The kernel on a non-empty batch whose input column has no nulls: NOT of
   * `vector` into the output column for the slots the kernel writes; the
   * output then has no nulls and repeats exactly when the input does. The
   * input's values may be the output's own array.
   */
  method ComplementNoNulls(vector: array<Long>, isRepeating: bool, outV: LongColumnVector,
                           selectedInUse: bool, sel: array<int>, n: int)
    requires 0 < n
    requires !isRepeating && selectedInUse ==> n <= sel.Length
    requires RowsFit(WrittenRows(isRepeating, selectedInUse, sel[..], n), vector.Length)
    requires RowsFit(WrittenRows(isRepeating, selectedInUse, sel[..], n), outV.vector.Length)
    requires vector == outV.vector && selectedInUse && !isRepeating ==> Distinct(sel[..n])
    modifies outV, outV.vector
    ensures outV.vector == old(outV.vector) && outV.isNull == old(outV.isNull)
    ensures outV.noNulls && outV.isRepeating == isRepeating
    ensures outV.vector[..] == Scatter(old(outV.vector[..]), Complemented(old(vector[..])),
                                       WrittenRows(isRepeating, selectedInUse, sel[..], n))
  {
    var outputVector := outV.vector;
    outV.noNulls := true;
    if isRepeating {
      outV.isRepeating := true;
      assert WrittenRows(isRepeating, selectedInUse, sel[..], n)[0] == 0;
      ScatterFirst(outputVector[..], Complemented(vector[..]));
      outputVector[0] := Not(vector[0]);
    } else if selectedInUse {
      ComplementSelected(vector, outputVector, sel, n);
      outV.isRepeating := false;
    } else {
      assert Upto(n)[n - 1] == n - 1;
      ComplementUpto(vector, outputVector, n);
      outV.isRepeating := false;
    }
  }

  /**
   * The kernel on a non-empty batch whose input column may hold nulls: NOT
   * of `vector` and a copy of `isNull` into the output column for the slots
   * the kernel writes. The input's arrays may be the output's own.
   */
  method ComplementWithNulls(vector: array<Long>, isNull: array<bool>, isRepeating: bool, outV: LongColumnVector,
                             selectedInUse: bool, sel: array<int>, n: int)
    requires 0 < n
    requires !isRepeating && selectedInUse ==> n <= sel.Length
    requires RowsFit(WrittenRows(isRepeating, selectedInUse, sel[..], n), vector.Length)
    requires RowsFit(WrittenRows(isRepeating, selectedInUse, sel[..], n), outV.vector.Length)
    requires RowsFit(WrittenRows(isRepeating, selectedInUse, sel[..], n), isNull.Length)
    requires RowsFit(WrittenRows(isRepeating, selectedInUse, sel[..], n), outV.isNull.Length)
    requires vector == outV.vector && selectedInUse && !isRepeating ==> Distinct(sel[..n])
    modifies outV, outV.vector, outV.isNull
    ensures outV.vector == old(outV.vector) && outV.isNull == old(outV.isNull)
    ensures !outV.noNulls && outV.isRepeating == isRepeating
    ensures outV.vector[..] == Scatter(old(outV.vector[..]), Complemented(old(vector[..])),
                                       WrittenRows(isRepeating, selectedInUse, sel[..], n))
    ensures outV.isNull[..] == Scatter(old(outV.isNull[..]), old(isNull[..]),
                                       WrittenRows(isRepeating, selectedInUse, sel[..], n))
  {
    var outputVector := outV.vector;
    outV.noNulls := false;
    if isRepeating {
      outV.isRepeating := true;
      assert WrittenRows(isRepeating, selectedInUse, sel[..], n)[0] == 0;
      ScatterFirst(outputVector[..], Complemented(vector[..]));
      ScatterFirst(outV.isNull[..], isNull[..]);
      outputVector[0] := Not(vector[0]);
      outV.isNull[0] := isNull[0];
    } else if selectedInUse {
      outV.isRepeating := false;
      ComplementSelectedWithNulls(vector, isNull, outputVector, outV.isNull, sel, n);
    } else {
      outV.isRepeating := false;
      assert Upto(n)[n - 1] == n - 1;
      ComplementUptoWithNulls(vector, isNull, outputVector, outV.isNull, n);
    }
  }

  /**
   * The loop over a selection: for each of the first `n` selected rows `i`,
   * in order, outputVector[i] := NOT vector[i]. The two arrays may be one.
   */
  method ComplementSelected(vector: array<Long>, outputVector: array<Long>, sel: array<int>, n: int)
    requires 0 <= n <= sel.Length
    requires forall j :: 0 <= j < n ==> 0 <= sel[j] < vector.Length && sel[j] < outputVector.Length
    requires vector == outputVector ==> Distinct(sel[..n])
    modifies outputVector
    ensures outputVector[..] == Scatter(old(outputVector[..]), Complemented(old(vector[..])), sel[..n])
  {
    ghost var src := Complemented(vector[..]);
    ghost var out0 := outputVector[..];
    var j := 0;
    while j != n
      invariant 0 <= j <= n
      invariant ScatteredAt(outputVector[..], out0, src, sel[..j])
    {
      var i := sel[j];
      assert vector == outputVector ==> i !in sel[..j] by {
        assert sel[..n][j] == i;
      }
      assert sel[..j + 1] == sel[..j] + [i];
      ScatteredSnoc(outputVector[..], out0, src, sel[..j], i);
      outputVector[i] := Not(vector[i]);
      j := j + 1;
    }
    ScatterIs(out0, src, sel[..n], outputVector[..]);
  }

  /** The loop without a selection: outputVector[i] := NOT vector[i] for i = 0 .. n-1. */
  method ComplementUpto(vector: array<Long>, outputVector: array<Long>, n: int)
    requires 0 <= n <= vector.Length && n <= outputVector.Length
    modifies outputVector
    ensures outputVector[..] == Scatter(old(outputVector[..]), Complemented(old(vector[..])), Upto(n))
  {
    ghost var src := Complemented(vector[..]);
    ghost var out0 := outputVector[..];
    var i := 0;
    while i != n
      invariant 0 <= i <= n
      invariant ScatteredAt(outputVector[..], out0, src, Upto(i))
    {
      assert Upto(i + 1) == Upto(i) + [i];
      InUpto(i);
      ScatteredSnoc(outputVector[..], out0, src, Upto(i), i);
      outputVector[i] := Not(vector[i]);
      i := i + 1;
    }
    ScatterIs(out0, src, Upto(n), outputVector[..]);
  }

  /**
   * The loop over a selection for input that may hold nulls: each selected
   * row also takes over the input's null flag.
   */
  method ComplementSelectedWithNulls(vector: array<Long>, isNull: array<bool>,
                                     outputVector: array<Long>, outputIsNull: array<bool>,
                                     sel: array<int>, n: int)
    requires 0 <= n <= sel.Length
    requires forall j :: 0 <= j < n ==> 0 <= sel[j] < vector.Length && sel[j] < outputVector.Length
    requires forall j :: 0 <= j < n ==> 0 <= sel[j] < isNull.Length && sel[j] < outputIsNull.Length
    requires vector == outputVector ==> Distinct(sel[..n])
    modifies outputVector, outputIsNull
    ensures outputVector[..] == Scatter(old(outputVector[..]), Complemented(old(vector[..])), sel[..n])
    ensures outputIsNull[..] == Scatter(old(outputIsNull[..]), old(isNull[..]), sel[..n])
  {
    ghost var src := Complemented(vector[..]);
    ghost var out0 := outputVector[..];
    ghost var nulls := isNull[..];
    ghost var outNulls0 := outputIsNull[..];
    var j := 0;
    while j != n
      invariant 0 <= j <= n
      invariant ScatteredAt(outputVector[..], out0, src, sel[..j])
      invariant ScatteredAt(outputIsNull[..], outNulls0, nulls, sel[..j])
    {
      var i := sel[j];
      assert vector == outputVector ==> i !in sel[..j] by {
        assert sel[..n][j] == i;
      }
      assert sel[..j + 1] == sel[..j] + [i];
      ScatteredSnoc(outputVector[..], out0, src, sel[..j], i);
      ScatteredSnoc(outputIsNull[..], outNulls0, nulls, sel[..j], i);
      outputVector[i] := Not(vector[i]);
      outputIsNull[i] := isNull[i];
      j := j + 1;
    }
    ScatterIs(out0, src, sel[..n], outputVector[..]);
    ScatterIs(outNulls0, nulls, sel[..n], outputIsNull[..]);
  }

  /**
   * The loop without a selection for input that may hold nulls: rows
   * 0 .. n-1 also take over the input's null flags.
   */
  method ComplementUptoWithNulls(vector: array<Long>, isNull: array<bool>,
                                 outputVector: array<Long>, outputIsNull: array<bool>, n: int)
    requires 0 <= n <= vector.Length && n <= outputVector.Length
    requires n <= isNull.Length && n <= outputIsNull.Length
    modifies outputVector, outputIsNull
    ensures outputVector[..] == Scatter(old(outputVector[..]), Complemented(old(vector[..])), Upto(n))
    ensures outputIsNull[..] == Scatter(old(outputIsNull[..]), old(isNull[..]), Upto(n))
  {
    ghost var src := Complemented(vector[..]);
    ghost var out0 := outputVector[..];
    ghost var nulls := isNull[..];
    ghost var outNulls0 := outputIsNull[..];
    var i := 0;
    while i != n
      invariant 0 <= i <= n
      invariant ScatteredAt(outputVector[..], out0, src, Upto(i))
      invariant ScatteredAt(outputIsNull[..], outNulls0, nulls, Upto(i))
    {
      assert Upto(i + 1) == Upto(i) + [i];
      InUpto(i);
      ScatteredSnoc(outputVector[..], out0, src, Upto(i), i);
      ScatteredSnoc(outputIsNull[..], outNulls0, nulls, Upto(i), i);
      outputVector[i] := Not(vector[i]);
      outputIsNull[i] := isNull[i];
      i := i + 1;
    }
    ScatterIs(out0, src, Upto(n), outputVector[..]);
    ScatterIs(outNulls0, nulls, Upto(n), outputIsNull[..]);
  }
}
