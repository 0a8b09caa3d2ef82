# NotCol: the vectorized boolean NOT kernel

This project models Hive's vectorized `NOT` expression, `NotCol`, and proves
what it does to a row batch. Booleans travel through Hive's vectorized engine
as long columns holding 0 or 1. `NotCol.evaluate` reads one such column
(`colNum`) and writes the complement of every active row into another column
(`outputColumnNum`). The two column numbers may name the same column, in which
case the kernel works in place.

The model has three modules:

- `Vector` (`vector.dfy`) holds the data the kernel works on.
  - `LongColumnVector` is a class with the fields the kernel reads and writes: the `vector` and `isNull` arrays and the `noNulls` and `isRepeating` flags.
  - `VectorizedRowBatch` is a class with `cols`, `selected`, `selectedInUse` and `size`.
  - A Java `long` is `Long`, a wrapper around a `bv64`.
  - `ColumnsSeparate` states that distinct column positions never share a column object or an array.
- `Complement` (`complement.dfy`) is the reference definition, stated on values.
  - `NotColumn` gives the output column's state after one call, from the states before it.
  - The slots it writes are `WrittenRows`: none, slot 0, the first `n` selected rows, or rows 0 .. n-1.
  - `Scatter` copies a source into those slots.
  - The lemmas next to these definitions state the kernel's properties branch by branch.
- `Expressions` (`notcol.dfy`) is the kernel, written imperatively.
  - `NotCol` is a class, and `Evaluate` is a method over the batch.
  - Its postcondition ties the output column's new state to `NotColumn` of the old states.
  - It also states what stays untouched: the input column when it is a different column, every other long column, the batch itself and its selection array.
  - The two branches on `noNulls` and each of the four Java loops are methods of their own, proved against `Scatter`.
  - `ComplementNoNulls` and `ComplementWithNulls` receive the input's arrays and its `isRepeating` flag as values read at the start. These are the values the Java code reads later. The kernel never reassigns an array field. It writes the output's `isRepeating` only after reading the input's, and the input's `noNulls` test comes first.

Java's `vector[i] ^ 1` is `Complement.Not`: XOR with 1 on the 64-bit value.
It maps 0 to 1 and 1 to 0 and is its own inverse on every long.

On bad input the Java code throws, and the model turns each such failure into a precondition:

- The casts to `LongColumnVector` become `LongColumnsIn`.
- An index outside an array becomes `CanEvaluate`. This precondition is branch by branch: slot 0 for a repeating input, every selected row when a selection is in use, and rows 0 .. n-1 otherwise. The null arrays count only when the input may hold nulls.

`LongColumnVector`, `VectorizedRowBatch` and `VectorExpression` are not part of this model's source files. They are modelled only through the fields `NotCol.java` uses.

## Model

| member | source | states |
|---|---|---|
| Expressions.NotCol.constructor | ql/src/java/org/apache/hadoop/hive/ql/exec/vector/expressions/NotCol.java:32-35 | The expression reads column `colNum` and writes column `outputColumnNum`. |
| Expressions.NotCol.Evaluate | ql/src/java/org/apache/hadoop/hive/ql/exec/vector/expressions/NotCol.java:45-102 | The output column keeps its arrays, and its new contents and flags are `NotColumn` of the old input, the old output, the selection and the size. An empty batch leaves the output untouched. A distinct input column, every other long column, the batch and its selection array are unchanged. |
| Expressions.ComplementNoNulls | ql/src/java/org/apache/hadoop/hive/ql/exec/vector/expressions/NotCol.java:63-80 | For input without nulls, the output is marked null-free and repeats exactly when the input does. Its values are the old ones with the complement scattered into the written rows. Its null array is untouched. |
| Expressions.ComplementWithNulls | ql/src/java/org/apache/hadoop/hive/ql/exec/vector/expressions/NotCol.java:81-100 | For input that may hold nulls, the output is marked as possibly null and repeats exactly when the input does. Both the complemented values and the input's null flags are scattered into the written rows. |
| Expressions.ComplementSelected | ql/src/java/org/apache/hadoop/hive/ql/exec/vector/expressions/NotCol.java:69-73 | After the loop over `sel[0..n-1]`, the output holds the old contents with the complement of the old input at each selected row. This holds in place too, given a selection without duplicates. |
| Expressions.ComplementUpto | ql/src/java/org/apache/hadoop/hive/ql/exec/vector/expressions/NotCol.java:74-79 | After the loop over 0 .. n-1, the output holds the complement of the old input in rows below `n` and its old contents elsewhere. |
| Expressions.ComplementSelectedWithNulls | ql/src/java/org/apache/hadoop/hive/ql/exec/vector/expressions/NotCol.java:87-93 | Each selected row gets the complemented value and the input's null flag. Every other slot of both output arrays keeps its old contents. |
| Expressions.ComplementUptoWithNulls | ql/src/java/org/apache/hadoop/hive/ql/exec/vector/expressions/NotCol.java:94-99 | Each row below `n` gets the complemented value and the input's null flag. Every other slot keeps its old contents. |
| Complement.NotIsComplement | ql/src/java/org/apache/hadoop/hive/ql/exec/vector/expressions/NotCol.java:66-67 | XOR with 1 maps 0 to 1 and 1 to 0, and applying it twice gives back any value. |
| Complement.NotColumn | ql/src/java/org/apache/hadoop/hive/ql/exec/vector/expressions/NotCol.java:58-100 | The kernel never changes the length of the output's value array or null array. |
| Complement.WrittenRowsFit | ql/src/java/org/apache/hadoop/hive/ql/exec/vector/expressions/NotCol.java:63-100 | When the kernel does not fail, every slot it writes exists in every array it reads or writes, and a used selection covers the `n` active rows. |
| Complement.EmptyBatchUnchanged | ql/src/java/org/apache/hadoop/hive/ql/exec/vector/expressions/NotCol.java:58-61 | A batch of size zero or less leaves the output column exactly as it was, flags included. |
| Complement.SlotAt | ql/src/java/org/apache/hadoop/hive/ql/exec/vector/expressions/NotCol.java:63-100 | Each output slot holds the complement of the input slot if the kernel writes it and its old value otherwise. The null flags behave the same way when the input may hold nulls. |
| Complement.NoNullsCase | ql/src/java/org/apache/hadoop/hive/ql/exec/vector/expressions/NotCol.java:63-80 | For input without nulls, the output is marked null-free, its null array is left as it was, and every written row holds the complement. |
| Complement.RepeatingCase | ql/src/java/org/apache/hadoop/hive/ql/exec/vector/expressions/NotCol.java:65-86 | For repeating input, the output is marked repeating, slot 0 holds the complement and the input's null flag, and no other slot changes. |
| Complement.SelectedCase | ql/src/java/org/apache/hadoop/hive/ql/exec/vector/expressions/NotCol.java:69-93 | With a selection and non-repeating input, exactly the slots in `selected[0..n-1]` change. They take the complement, and the null flag too when nulls are possible. The output is marked not repeating. |
| Complement.ContiguousCase | ql/src/java/org/apache/hadoop/hive/ql/exec/vector/expressions/NotCol.java:74-99 | Without a selection and with non-repeating input, slots 0 .. n-1 take the complement (and null flag), slots from `n` on keep their values, and the output is marked not repeating. |
| Complement.NullPropagation | ql/src/java/org/apache/hadoop/hive/ql/exec/vector/expressions/NotCol.java:81-99 | For input that may hold nulls, the output is marked as possibly null, and every written row carries the input's null flag and the complement of its value. |
| Complement.DoubleNegation | ql/src/java/org/apache/hadoop/hive/ql/exec/vector/expressions/NotCol.java:63-99 | Running the kernel twice, input to a middle column and then to a third, restores the input's values, null flags and both column flags at every written row. |

## Left out

- `evaluateChildren` (NotCol.java:47-49): child expressions are not modelled. The input column is taken as already computed.
- `vectorExpressionParameters` (NotCol.java:104-107): this only formats a display string.
- `getDescriptor` (NotCol.java:109-119): only the descriptor's contents are modelled, as the constant `Expressions.NotColDescriptor`. The builder is not modelled.
- The no-argument constructor (NotCol.java:37-42): it exists only for deserialization and leaves the expression unusable (`colNum` of -1).
- Exceptions: the casts and the array indexing would throw on bad input. Both are preconditions here (`LongColumnsIn`, `CanEvaluate`), so the throwing paths are not modelled.
- Expressions.NotCol.Evaluate: requires a selection without duplicates when it works in place on a non-repeating input with a selection in use. The Java code has no such check: it would flip a row selected twice back to its old value. The model does not cover that input.
- Expressions.NotCol.Evaluate: a batch's non-long columns (double, bytes, decimal, timestamp) are modelled only by their kind. The model does not state that their contents stay unchanged.
- Integer widths: `n`, `size` and the selection entries are Java `int`s. They are unbounded here because the kernel only compares them and indexes with them.
- Serialization and concurrent use of a batch are not modelled.
