/**
 * Row drag and drop of the grid example (src/components/data-table/index.tsx,
 * `_getDragDropEvents`). While a row is dragged, the handlers keep a clone of
 * it in the row container: on the first drag enter the original is hidden
 * and the clone shown in its place, later drag enters move the clone next to
 * the hovered row, and drag end either drops the original (the clone stays
 * where it was last put) or takes the clone out and shows the original again.
 */
module RowDragDrop {
  import opened Optional
  import opened Nodes
  import opened ChildList
  import opened PointerDirection

  /** The `currentTarget` of an event, seen through its `parentElement`: the row. */
  datatype Target = Target(parentElement: Option<NodeId>)

  /** A drag or mouse event, as far as the handlers read it. */
  datatype DragEvent = DragEvent(currentTarget: Option<Target>, pageY: int)

  /**
   * The row an event is about: the parent of its current target, or null when
   * the event, its current target or that target's parent is missing.
   */
  function RowOf(event: Option<DragEvent>): (row: Option<NodeId>)
    ensures row.Some? <==> event.Some? && event.value.currentTarget.Some? && event.value.currentTarget.value.parentElement.Some?
    ensures row.Some? ==> row == event.value.currentTarget.value.parentElement
  {
    if event.Some? && event.value.currentTarget.Some? then event.value.currentTarget.value.parentElement else None
  }

  /** The least id above every id of `s`. */
  function Bound(s: seq<NodeId>): (b: NodeId)
    ensures forall x :: x in s ==> x < b
    ensures b == 0 || b - 1 in s
  {
    if s == [] then 0
    else
      var rest := Bound(s[1..]);
      assert forall x :: x in s ==> x == s[0] || x in s[1..];
      if s[0] < rest then rest else s[0] + 1
  }

  /**
   * `parent.insertBefore(clone, row.nextElementSibling)` for DOWN and
   * `parent.insertBefore(clone, row)` for UP: the clone goes directly after,
   * or directly before, the row; every other child keeps its place in the order.
   */
  function PlaceClone(s: seq<NodeId>, clone: NodeId, row: NodeId, direction: Direction): (r: seq<NodeId>)
    requires Distinct(s) && row in s
    ensures Distinct(r)
    ensures forall y :: y in r <==> y in s || y == clone
    ensures Remove(r, clone) == Remove(s, clone)
    ensures row != clone && direction == Down ==> ImmediatelyBefore(r, row, clone)
    ensures row != clone && direction == Up ==> ImmediatelyBefore(r, clone, row)
    ensures row == clone ==> r == s
  {
    if direction == Down then
      PlaceAfterFacts(s, clone, row);
      InsertBefore(s, clone, NextSibling(s, row))
    else
      InsertBefore(s, clone, Some(row))
  }

  lemma PlaceAfterFacts(s: seq<NodeId>, clone: NodeId, row: NodeId)
    requires Distinct(s) && row in s
    ensures row != clone ==> ImmediatelyBefore(InsertBefore(s, clone, NextSibling(s, row)), row, clone)
    ensures row == clone ==> InsertBefore(s, clone, NextSibling(s, row)) == s
  {
    if row != clone {
      InsertAfter(s, clone, row);
    } else {
      InsertBeforeOwnSibling(s, clone);
    }
  }

  class DetailsListDragDropExample {
    /** The row container's children, in document order. */
    var children: seq<NodeId>
    /** The nodes whose `style.display` is "none". */
    var hidden: set<NodeId>
    /** Every node of the document has an id below `nextId`; `cloneNode` hands out `nextId`. */
    var nextId: NodeId
    var draggedItem: Option<NodeId>
    var draggedItemClone: Option<NodeId>
    var draggedOverItem: Option<NodeId>
    var pointerMoveDirection: Direction
    /** The child list as it was when the current drag started. */
    ghost var origin: seq<NodeId>

    /** `n` is null or a node of the document. */
    ghost predicate Exists(n: Option<NodeId>)
      reads this
    {
      n.Some? ==> n.value < nextId
    }

    ghost predicate Valid()
      reads this
    {
      && Distinct(children)
      && (forall x :: x in children ==> x < nextId)
      && (forall x :: x in hidden ==> x < nextId)
      && Exists(draggedItem) && Exists(draggedItemClone) && Exists(draggedOverItem)
      && (draggedItemClone.Some? <==> draggedItem.Some?)
      // the clone is a node of its own, and apart from it the list is as the drag found it
      && (draggedItemClone.Some? ==> draggedItemClone != draggedItem && Remove(children, draggedItemClone.value) == origin)
    }

    /** The component starts with no drag session, over the rows the grid rendered. */
    constructor (rows: seq<NodeId>)
      requires Distinct(rows)
      ensures Valid()
      ensures children == rows && hidden == {}
      ensures draggedItem.None? && draggedItemClone.None? && draggedOverItem.None?
      ensures pointerMoveDirection == Down
    {
      children := rows;
      hidden := {};
      nextId := Bound(rows);
      draggedItem := None;
      draggedItemClone := None;
      draggedOverItem := None;
      pointerMoveDirection := Down;
      origin := rows;
    }

    /** `onDragStart`: remember the dragged row and make a deep clone of it. */
    method OnDragStart(event: Option<DragEvent>)
      requires Valid() && Exists(RowOf(event))
      modifies this`draggedItem, this`draggedItemClone, this`nextId, this`hidden, this`origin
      ensures Valid()
      ensures if event.Some? && event.value.currentTarget.Some? then
                && draggedItem == RowOf(event)
                && (draggedItem.None? ==> draggedItemClone.None? && nextId == old(nextId) && hidden == old(hidden))
                && (draggedItem.Some? ==>
                      // a new node, not in the list, hidden exactly when the original is
                      && draggedItemClone == Some(old(nextId)) && nextId == old(nextId) + 1
                      && old(nextId) !in children
                      && hidden == if draggedItem.value in old(hidden) then old(hidden) + {old(nextId)} else old(hidden))
              else
                draggedItem == old(draggedItem) && draggedItemClone == old(draggedItemClone) && nextId == old(nextId) && hidden == old(hidden)
    {
      // a present current target is a row root, hence an HTMLElement
      if event.Some? && event.value.currentTarget.Some? {
        draggedItem := event.value.currentTarget.value.parentElement;
        if draggedItem.Some? {
          var clone := nextId;
          nextId := nextId + 1;
          // cloneNode(true) copies the style attribute, display included
          if draggedItem.value in hidden {
            hidden := hidden + {clone};
          }
          draggedItemClone := Some(clone);
          origin := children;
        } else {
          draggedItemClone := None;
        }
      }
    }

    /** The first block of `onDragEnter` fires: the dragged row is shown, in the list, and has a clone. */
    predicate HidesDraggedItem()
      reads this
    {
      draggedItem.Some? && draggedItem.value !in hidden && draggedItem.value in children && draggedItemClone.Some?
    }

    /** `onDragEnter`: swap the dragged row for its clone, then move the clone next to the hovered row. */
    method OnDragEnter(event: Option<DragEvent>, cloneTop: int)
      requires Valid() && Exists(RowOf(event))
      modifies this`children, this`hidden, this`draggedOverItem, this`pointerMoveDirection
      ensures Valid()
      ensures hidden == if old(HidesDraggedItem()) then old(hidden) + {draggedItem.value} else old(hidden)
      ensures if event.Some? && RowOf(event) != draggedItem then
                draggedOverItem == RowOf(event)
                && pointerMoveDirection == GetPointerDirection(draggedItemClone, cloneTop, event.value.pageY)
              else
                draggedOverItem == old(draggedOverItem) && pointerMoveDirection == old(pointerMoveDirection)
      // where the clone ends up; with the next clause this fixes the whole list
      ensures var row := RowOf(event);
              var moved := && event.Some? && row != draggedItem && row.Some? && row.value in old(children)
                           && draggedItemClone.Some? && row.value != draggedItemClone.value;
              && (moved && pointerMoveDirection == Down ==> ImmediatelyBefore(children, row.value, draggedItemClone.value))
              && (moved && pointerMoveDirection == Up ==> ImmediatelyBefore(children, draggedItemClone.value, row.value))
              && (!moved && old(HidesDraggedItem()) ==> ImmediatelyBefore(children, draggedItem.value, draggedItemClone.value))
              && (!moved && !old(HidesDraggedItem()) ==> children == old(children))
      // every child other than the clone keeps its place in the order
      ensures draggedItemClone.Some? ==> Remove(children, draggedItemClone.value) == Remove(old(children), draggedItemClone.value)
      ensures draggedItemClone.None? ==> children == old(children)
    {
      ShowClone();
      FollowPointer(event, cloneTop);
    }

    /** The first block of `onDragEnter`: hide the dragged row and put its clone directly after it. */
    method ShowClone()
      requires Valid()
      modifies this`children, this`hidden
      ensures Valid()
      ensures hidden == if old(HidesDraggedItem()) then old(hidden) + {draggedItem.value} else old(hidden)
      ensures old(HidesDraggedItem()) ==> ImmediatelyBefore(children, draggedItem.value, draggedItemClone.value)
      ensures !old(HidesDraggedItem()) ==> children == old(children)
      ensures draggedItemClone.Some? ==> Remove(children, draggedItemClone.value) == Remove(old(children), draggedItemClone.value)
    {
      if draggedItem.Some? && draggedItem.value !in hidden {
        if draggedItem.value !in children {
          // "draggedItem.parentElement in not available."
        } else if draggedItemClone.None? {
          // "draggedItemClone"
        } else {
          HideAndPlaceClone();
        }
      }
    }

    /** Hide the dragged row and insert its clone before the row's next sibling. */
    method HideAndPlaceClone()
      requires Valid() && HidesDraggedItem()
      modifies this`children, this`hidden
      ensures Valid()
      ensures hidden == old(hidden) + {draggedItem.value}
      ensures ImmediatelyBefore(children, draggedItem.value, draggedItemClone.value)
      ensures Remove(children, draggedItemClone.value) == Remove(old(children), draggedItemClone.value)
    {
      var item, clone := draggedItem.value, draggedItemClone.value;
      var placed := PlaceClone(children, clone, item, Down);
      assert Remove(placed, clone) == origin;
      assert forall x :: x in placed ==> x < nextId;
      hidden := hidden + {item};
      children := placed;
    }

    /** The event is over a row other than the dragged one (a null row included). */
    predicate Hovers(event: Option<DragEvent>)
      reads this
    {
      event.Some? && RowOf(event) != draggedItem
    }

    /** The second block of `onDragEnter`: record the hovered row and the direction, and move the clone. */
    method FollowPointer(event: Option<DragEvent>, cloneTop: int)
      requires Valid() && Exists(RowOf(event))
      modifies this`children, this`draggedOverItem, this`pointerMoveDirection
      ensures Valid()
      ensures if old(Hovers(event)) then
                draggedOverItem == RowOf(event)
                && pointerMoveDirection == GetPointerDirection(draggedItemClone, cloneTop, event.value.pageY)
              else
                draggedOverItem == old(draggedOverItem) && pointerMoveDirection == old(pointerMoveDirection)
      ensures var row := RowOf(event);
              var moved := && event.Some? && row != draggedItem && row.Some? && row.value in old(children)
                           && draggedItemClone.Some? && row.value != draggedItemClone.value;
              && (moved && pointerMoveDirection == Down ==> ImmediatelyBefore(children, row.value, draggedItemClone.value))
              && (moved && pointerMoveDirection == Up ==> ImmediatelyBefore(children, draggedItemClone.value, row.value))
              && (!moved ==> children == old(children))
      ensures draggedItemClone.Some? ==> Remove(children, draggedItemClone.value) == Remove(old(children), draggedItemClone.value)
    {
      if Hovers(event) {
        draggedOverItem := RowOf(event);
        pointerMoveDirection := GetPointerDirection(draggedItemClone, cloneTop, event.value.pageY);
        MoveClone();
      }
    }

    /** There is a clone and the hovered row is a child it can be placed next to. */
    predicate CanMoveClone()
      reads this
    {
      draggedOverItem.Some? && draggedOverItem.value in children && draggedItemClone.Some?
    }

    /**
     * The clone goes directly after the hovered row for DOWN and directly
     * before it for UP. Both directions log an error and move nothing when
     * the hovered row is null or has no parent, or when there is no clone.
     */
    method MoveClone()
      requires Valid()
      modifies this`children
      ensures Valid()
      ensures old(CanMoveClone()) && draggedOverItem.value != draggedItemClone.value ==>
                if pointerMoveDirection == Down then ImmediatelyBefore(children, draggedOverItem.value, draggedItemClone.value)
                else ImmediatelyBefore(children, draggedItemClone.value, draggedOverItem.value)
      ensures !old(CanMoveClone()) || draggedOverItem.value == draggedItemClone.value ==> children == old(children)
      ensures draggedItemClone.Some? ==> Remove(children, draggedItemClone.value) == Remove(old(children), draggedItemClone.value)
    {
      if CanMoveClone() {
        children := PlaceClone(children, draggedItemClone.value, draggedOverItem.value, pointerMoveDirection);
      }
    }

    /** `onDragLeave`: forget the hovered row when it is the one being left. */
    method OnDragLeave(event: Option<DragEvent>)
      requires Valid()
      modifies this`draggedOverItem
      ensures Valid()
      ensures draggedOverItem == if old(draggedOverItem).Some? && RowOf(event) == old(draggedOverItem) then None
                                 else old(draggedOverItem)
    {
      if event.Some? && event.value.currentTarget.Some? && event.value.currentTarget.value.parentElement == draggedOverItem {
        draggedOverItem := None;
      }
    }

    /** `onDragEnd` keeps the drop: some row is still marked as hovered. */
    ghost predicate KeepsDrop()
      reads this
    {
      draggedItem.Some? && draggedItem.value in children && draggedOverItem.Some?
    }

    /** `onDragEnd` reverts the drag: no hovered row, and the clone is in the list. */
    ghost predicate RevertsDrop()
      reads this
    {
      && draggedItem.Some? && draggedItem.value in children && draggedOverItem.None?
      && draggedItemClone.Some? && draggedItemClone.value in children
    }

    /** `onDragEnd`: keep the clone in place of the row, or take the clone out again; end the session. */
    method OnDragEnd()
      requires Valid()
      modifies this`children, this`hidden, this`draggedItem, this`draggedItemClone
      ensures Valid()
      // with no dragged row there is no clone either, so the session is over in every case
      ensures draggedItem.None? && draggedItemClone.None?
      ensures children == if old(KeepsDrop()) then Remove(old(children), old(draggedItem).value)
                          else if old(RevertsDrop()) then Remove(old(children), old(draggedItemClone).value)
                          else old(children)
      ensures hidden == if old(RevertsDrop()) then old(hidden) - {old(draggedItem).value} else old(hidden)
      // a reverted drag gives back the order the drag found
      ensures old(RevertsDrop()) ==> children == old(origin)
      // a kept drop has the clone where the dragged row was put, and every other row in its old order
      ensures old(KeepsDrop()) ==> Remove(children, old(draggedItemClone).value) == Remove(old(origin), old(draggedItem).value)
    {
      if draggedItem.Some? {
        if draggedItem.value !in children {
          // "this._draggedItem.parentElement is not available"
        } else if draggedOverItem.Some? {
          RemoveCommutes(children, draggedItem.value, draggedItemClone.value);
          children := Remove(children, draggedItem.value);
        } else if draggedItemClone.None? {
          // "this._draggedItemClone is not available"
        } else if draggedItemClone.value in children {
          children := Remove(children, draggedItemClone.value);
          hidden := hidden - {draggedItem.value};
        } else {
          // removeChild throws, "clone not added to the DOM yet!"
        }
        draggedItem := None;
        draggedItemClone := None;
      }
    }
  }
}
