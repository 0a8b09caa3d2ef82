/**
 * The columnar data model the vectorized kernels run on: a row batch holding
 * column vectors, an active-row count and an optional selection of rows.
 */
module Vector {

  /**
   * A Java long, as its 64 bits. (Wrapping the bit-vector gives arrays of longs
   * a type of their own, which no int[] or boolean[] can alias.)
   */
  datatype Long = Long(bits: bv64)

  /** The contents of one long column at a given moment: both arrays and both flags. */
  datatype LongColumnState = LongColumnState(
    vector: seq<Long>,
    isNull: seq<bool>,
    noNulls: bool,
    isRepeating: bool)

  /**
   * A column of 64-bit integers. Boolean columns use it with 0 for false and
   * 1 for true. `isNull` is only meaningful when `noNulls` is false; when
   * `isRepeating` holds, slot 0 stands for every row of the batch.
   */
  class LongColumnVector {
    var vector: array<Long>
    var isNull: array<bool>
    var noNulls: bool
    var isRepeating: bool

    /** The value this column holds now. */
    ghost function State(): LongColumnState
      reads this, vector, isNull
    {
      LongColumnState(vector[..], isNull[..], noNulls, isRepeating)
    }
  }

  /**
   * A column of any kind. Only long columns carry contents in this model; the
   * other kinds are kept so that "this column is not a long column" can be said.
   */
  datatype ColumnVector =
    | LongColumn(long: LongColumnVector)
    | DoubleColumn
    | BytesColumn
    | DecimalColumn
    | TimestampColumn

  /**
   * A batch of rows stored column by column. Without a selection the active
   * rows are 0 .. size-1; with one, they are selected[0 .. size-1].
   */
  class VectorizedRowBatch {
    var cols: seq<ColumnVector>
    var selected: array<int>
    var selectedInUse: bool
    var size: int

    /** The long column objects of the batch. */
    ghost function LongColumns(): set<LongColumnVector>
      reads this
    {
      set k | 0 <= k < |cols| && cols[k].LongColumn? :: cols[k].long
    }

    /**
     * Columns at different positions are different objects with arrays of
     * their own, as the batch allocates them one by one.
     */
    ghost predicate ColumnsSeparate()
      reads this, LongColumns()
    {
      forall j, k ::
        0 <= j < |cols| && 0 <= k < |cols| && j != k && cols[j].LongColumn? && cols[k].LongColumn? ==>
          && cols[j].long != cols[k].long
          && cols[j].long.vector != cols[k].long.vector
          && cols[j].long.isNull != cols[k].long.isNull
    }
  }
}
