/**
 * Whole drag sessions, run through the handlers of the grid example as the
 * grid's drag helper calls them, and what each leaves in the row container.
 */
module DragScenarios {
  import opened Optional
  import opened Nodes
  import opened ChildList
  import opened PointerDirection
  import opened RowDragDrop

  /** An event whose `currentTarget` is a cell of `row`. */
  function EventOn(row: NodeId, pageY: int): DragEvent
  {
    DragEvent(Some(Target(Some(row))), pageY)
  }

  /**
   * Drag `dragged`, pass over `over` and leave it again before the button is
   * released: the rows come back in their old order and nothing stays hidden.
   */
  method RevertedDragRestoresOrder(rows: seq<NodeId>, dragged: NodeId, over: NodeId, pageY: int, cloneTop: int)
    returns (finalRows: seq<NodeId>, finalHidden: set<NodeId>)
    requires Distinct(rows) && dragged in rows && over in rows
    ensures finalRows == rows
    ensures finalHidden == {}
  {
    var grid := new DetailsListDragDropExample(rows);
    grid.OnDragStart(Some(EventOn(dragged, 0)));
    grid.OnDragEnter(Some(EventOn(over, pageY)), cloneTop);
    grid.OnDragLeave(Some(EventOn(over, pageY)));
    grid.OnDragEnd();
    finalRows, finalHidden := grid.children, grid.hidden;
  }

  /**
   * Drag `dragged` onto another row `over` and release it there: the dragged
   * row is gone, its clone stands directly after `over` (pointer below the
   * clone's top) or directly before it, and all other rows keep their order.
   */
  method KeptDropPlacesClone(rows: seq<NodeId>, dragged: NodeId, over: NodeId, pageY: int, cloneTop: int)
    returns (finalRows: seq<NodeId>, clone: NodeId)
    requires Distinct(rows) && dragged in rows && over in rows && dragged != over
    ensures Distinct(finalRows)
    ensures clone !in rows && dragged !in finalRows
    ensures Remove(finalRows, clone) == Remove(rows, dragged)
    ensures cloneTop < pageY ==> ImmediatelyBefore(finalRows, over, clone)
    ensures pageY <= cloneTop ==> ImmediatelyBefore(finalRows, clone, over)
  {
    var grid := new DetailsListDragDropExample(rows);
    grid.OnDragStart(Some(EventOn(dragged, 0)));
    clone := grid.draggedItemClone.value;
    grid.OnDragEnter(Some(EventOn(over, pageY)), cloneTop);
    ghost var entered := grid.children;
    assert cloneTop < pageY ==> ImmediatelyBefore(entered, over, clone);
    assert pageY <= cloneTop ==> ImmediatelyBefore(entered, clone, over);
    grid.OnDragEnd();
    finalRows := grid.children;
    if cloneTop < pageY {
      RemoveKeepsAdjacent(entered, over, clone, dragged);
    } else {
      RemoveKeepsAdjacent(entered, clone, over, dragged);
    }
  }

  /**
   * Rows 1 to 5: drag row 2 onto row 4 with the pointer below the clone's top,
   * and release. The clone of row 2 ends up between rows 4 and 5.
   */
  method DragTwoOntoFourExample() returns (finalRows: seq<NodeId>, clone: NodeId)
    ensures clone !in [1, 2, 3, 4, 5]
    ensures finalRows == [1, 3, 4, clone, 5]
  {
    finalRows, clone := KeptDropPlacesClone([1, 2, 3, 4, 5], 2, 4, 1, 0);
    DroppedTwoAfterFour(clone);
    PlacedAfterUnique(finalRows, [1, 3, 4, clone, 5], 4, clone);
  }

  /** The list the example expects: no repeats, rows 1, 3, 4, 5 in order, and the clone right after row 4. */
  lemma DroppedTwoAfterFour(clone: NodeId)
    requires clone !in [1, 2, 3, 4, 5]
    ensures Distinct([1, 3, 4, clone, 5])
    ensures Remove([1, 3, 4, clone, 5], clone) == Remove([1, 2, 3, 4, 5], 2)
    ensures ImmediatelyBefore([1, 3, 4, clone, 5], 4, clone)
  {
    DistinctWithClone(clone);
    RemoveClone(clone);
    RemoveTwo();
    IndexOfAt([1, 3, 4, clone, 5], 2);
  }

  /** A fresh clone among rows 1, 3, 4, 5 repeats nothing. */
  lemma DistinctWithClone(clone: NodeId)
    requires clone !in [1, 2, 3, 4, 5]
    ensures Distinct([1, 3, 4, clone, 5])
  {
    assert Distinct([5]) by { assert [5][1..] == []; }
    assert Distinct([clone, 5]) by { assert [clone, 5][1..] == [5]; }
    assert Distinct([4, clone, 5]) by { assert [4, clone, 5][1..] == [clone, 5]; }
    assert Distinct([3, 4, clone, 5]) by { assert [3, 4, clone, 5][1..] == [4, clone, 5]; }
    assert [1, 3, 4, clone, 5][1..] == [3, 4, clone, 5];
  }

  /** Taking the clone back out leaves rows 1, 3, 4, 5. */
  lemma RemoveClone(clone: NodeId)
    requires clone !in [1, 2, 3, 4, 5]
    ensures Remove([1, 3, 4, clone, 5], clone) == [1, 3, 4, 5]
  {
    assert Remove([clone, 5], clone) == [5] by { assert [clone, 5][1..] == [5]; }
    assert Remove([4, clone, 5], clone) == [4, 5] by { assert [4, clone, 5][1..] == [clone, 5]; }
    assert Remove([3, 4, clone, 5], clone) == [3, 4, 5] by { assert [3, 4, clone, 5][1..] == [4, clone, 5]; }
    assert [1, 3, 4, clone, 5][1..] == [3, 4, clone, 5];
  }

  /** Taking row 2 out of rows 1 to 5 leaves rows 1, 3, 4, 5. */
  lemma RemoveTwo()
    ensures Remove([1, 2, 3, 4, 5], 2) == [1, 3, 4, 5]
  {
    assert Remove([2, 3, 4, 5], 2) == [3, 4, 5] by { assert [2, 3, 4, 5][1..] == [3, 4, 5]; }
    assert [1, 2, 3, 4, 5][1..] == [2, 3, 4, 5];
  }

  /** One drag of `a` released over `b`: `a` leaves the list, every other row stays, and `b` stays marked as hovered. */
  method DropOnto(grid: DetailsListDragDropExample, a: NodeId, b: NodeId, pageY: int, cloneTop: int)
    requires grid.Valid() && a in grid.children && b in grid.children && a != b
    modifies grid
    ensures grid.Valid()
    ensures grid.draggedOverItem == Some(b) && grid.draggedItem.None?
    ensures a !in grid.children
    ensures forall x :: x in old(grid.children) && x != a ==> x in grid.children
  {
    grid.OnDragStart(Some(EventOn(a, 0)));
    var clone := grid.draggedItemClone.value;
    ghost var started := grid.children;
    grid.OnDragEnter(Some(EventOn(b, pageY)), cloneTop);
    assert Remove(grid.children, clone) == Remove(started, clone);
    assert grid.draggedOverItem == Some(b);
    assert a in grid.children;
    assert grid.KeepsDrop();
    ghost var entered := grid.children;
    grid.OnDragEnd();
    assert grid.children == Remove(entered, a);
  }

  /**
   * `onDragEnd` does not clear the hovered row. A first drag of `a` released
   * over `b` leaves `b` marked as hovered; a second drag of `c` that ends
   * before any drag enter then removes `c` and puts no clone in its place.
   */
  method StaleHoverDropsRow(rows: seq<NodeId>, a: NodeId, b: NodeId, c: NodeId, pageY: int, cloneTop: int)
    returns (finalRows: seq<NodeId>, secondClone: NodeId)
    requires Distinct(rows) && a in rows && b in rows && c in rows && a != b && c != a
    ensures c !in finalRows && secondClone !in finalRows
  {
    var grid := new DetailsListDragDropExample(rows);
    DropOnto(grid, a, b, pageY, cloneTop);
    grid.OnDragStart(Some(EventOn(c, 0)));
    secondClone := grid.draggedItemClone.value;
    grid.OnDragEnd();
    finalRows := grid.children;
  }
}
