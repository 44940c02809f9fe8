/**
 * The grid's column reorder callback: the column at `draggedIndex` is taken
 * out of a copy of the column list and put back so that it sits at
 * `targetIndex` (src/components/data-table/index.tsx, `_handleColumnReorder`).
 * The grid only calls it with indices of existing columns.
 */
module ColumnReorder {
  import opened Sequences

  /** The new column list handed to `setState`. */
  function HandleColumnReorder<T>(columns: seq<T>, draggedIndex: nat, targetIndex: nat): (r: seq<T>)
    requires draggedIndex < |columns| && targetIndex < |columns|
    ensures |r| == |columns|
    ensures multiset(r) == multiset(columns)
    ensures r[targetIndex] == columns[draggedIndex]
    ensures RemoveAt(r, targetIndex) == RemoveAt(columns, draggedIndex)
  {
    var draggedItems := columns[draggedIndex];
    var newColumns := RemoveAt(columns, draggedIndex);
    RemoveInsert(newColumns, targetIndex, draggedItems);
    RemoveAtMultiset(columns, draggedIndex);
    InsertAtMultiset(newColumns, targetIndex, draggedItems);
    InsertAt(newColumns, targetIndex, draggedItems)
  }

  /** Every column other than the moved one keeps its place relative to the others:
      the column at `j` of the result is the `Source(j)`-th column of the input. */
  function Source(draggedIndex: nat, targetIndex: nat, j: nat): nat
  {
    if j == targetIndex then draggedIndex
    else
      var k := if j < targetIndex then j else j - 1;  // index in the shortened list
      if k < draggedIndex then k else k + 1
  }

  lemma {:induction false} ReorderMovesOnlyDragged<T>(columns: seq<T>, draggedIndex: nat, targetIndex: nat, j: nat)
    requires draggedIndex < |columns| && targetIndex < |columns| && j < |columns|
    ensures Source(draggedIndex, targetIndex, j) < |columns|
    ensures HandleColumnReorder(columns, draggedIndex, targetIndex)[j] == columns[Source(draggedIndex, targetIndex, j)]
  {
    var r := HandleColumnReorder(columns, draggedIndex, targetIndex);
    var shortened := RemoveAt(columns, draggedIndex);
    assert r == InsertAt(shortened, targetIndex, columns[draggedIndex]);
  }

  /** Reordering a column onto its own index changes nothing, order included. */
  lemma ReorderSameIndex<T>(columns: seq<T>, i: nat)
    requires i < |columns|
    ensures HandleColumnReorder(columns, i, i) == columns
  {
    InsertRemove(columns, i);
  }

  /** Dragging the column back from `targetIndex` to `draggedIndex` undoes a reorder. */
  lemma ReorderInverse<T>(columns: seq<T>, draggedIndex: nat, targetIndex: nat)
    requires draggedIndex < |columns| && targetIndex < |columns|
    ensures HandleColumnReorder(HandleColumnReorder(columns, draggedIndex, targetIndex), targetIndex, draggedIndex) == columns
  {
    var r := HandleColumnReorder(columns, draggedIndex, targetIndex);
    assert InsertAt(RemoveAt(columns, draggedIndex), draggedIndex, columns[draggedIndex]) == columns by {
      InsertRemove(columns, draggedIndex);
    }
  }

  /** Columns A, B, C, D with the column at 3 dragged to 1 give A, D, B, C. */
  lemma ReorderExample()
    ensures HandleColumnReorder(['A', 'B', 'C', 'D'], 3, 1) == ['A', 'D', 'B', 'C']
  {
    var r := HandleColumnReorder(['A', 'B', 'C', 'D'], 3, 1);
    assert r[0] == 'A' by { ReorderMovesOnlyDragged(['A', 'B', 'C', 'D'], 3, 1, 0); }
    assert r[1] == 'D';
    assert r[2] == 'B' by { ReorderMovesOnlyDragged(['A', 'B', 'C', 'D'], 3, 1, 2); }
    assert r[3] == 'C' by { ReorderMovesOnlyDragged(['A', 'B', 'C', 'D'], 3, 1, 3); }
  }
}
