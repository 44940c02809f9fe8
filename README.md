# Drag and drop in the data-table example, modelled in Dafny

The data-table component of this repository is a demo grid with two kinds of
reordering, and this project models both.

The **columns** are reordered by `_handleColumnReorder`. It copies the column
array, takes the dragged column out with `splice(draggedIndex, 1)` and puts it
back with `splice(targetIndex, 0, column)`.

The **rows** are reordered by the drag callbacks of `_getDragDropEvents`, which
move DOM nodes directly:

- `onDragStart` remembers the dragged row and makes a deep clone of it.
- The first `onDragEnter` hides the row and inserts the clone right after it.
- Every `onDragEnter` over another row records that row as hovered, along with
  the pointer direction from `getPointerDirection`. It then moves the clone
  directly after the hovered row (DOWN) or directly before it (UP).
- `onDragLeave` clears the hovered row when the pointer leaves it.
- `onDragEnd` ends the session. If a hovered row is still recorded, it removes
  the original row, so the clone stays as the dropped row. Otherwise it removes
  the clone and shows the original again.

## Modules

- `Optional`: `Option`, for the component's nullable fields.
- `Nodes`: `NodeId`, the number that names a DOM node.
- `Sequences`: the two `splice` forms the column reorder uses.
- `ColumnReorder`: `_handleColumnReorder`, as a function on the column
  sequence. It returns the array handed to `setState`.
- `PointerDirection`: `getPointerDirection`.
- `ChildList`: the child list of the element holding the rows.
  - The list is a sequence of node ids with no repeats.
  - `Remove` is `removeChild`.
  - `InsertBefore` is `insertBefore`, following the pre-insert and insert
    steps of the DOM Living Standard, section 4.2.3:
    - a node that is already a child is moved;
    - a null reference child appends;
    - a reference child equal to the node means the node's next sibling, so
      the order does not change.
  - A node "has a `parentElement`" when it is in the list.
- `RowDragDrop`: the component's drag handlers, as the class
  `DetailsListDragDropExample`. It has the four fields of the source:
  `draggedItem`, `draggedItemClone`, `draggedOverItem` and
  `pointerMoveDirection`. It also holds the DOM state the handlers change:
  - `children`: the row container's child list;
  - `hidden`: the nodes whose `style.display` is `"none"`;
  - `nextId`: the node id that `cloneNode` hands out next.

  The ghost field `origin` records the child list as the current drag found
  it. `Valid()` says:
  - the list has no repeats and holds only existing nodes;
  - a clone exists exactly when a dragged row does;
  - the clone is a node of its own;
  - taking the clone out of the list gives `origin` back.
- `DragScenarios`: whole drag sessions run through the handlers. They state
  what each session leaves in the row container.

Modelling choices:

- The clone's top edge is an integer input of `OnDragEnter` (`cloneTop`), and
  so is the event's `pageY`. The source reads `getBoundingClientRect().top`
  inside `getPointerDirection`; here the host's layout supplies the number.
- An event is `None` when it is undefined. Its row is
  `currentTarget.parentElement`. The handlers require that row, when present,
  to be a node of the document, as every row the browser reports is.
- `cloneNode(true)` copies the style attribute. The clone is therefore hidden
  exactly when the original was hidden at drag start.
- The `try`/`catch` in `onDragEnd` traps the error `removeChild` throws for a
  clone that is not in the list. In the model that removal changes nothing, and
  the original keeps its display, because the `display` reset comes after the
  throwing call.
- The two `insertBefore` calls of `onDragEnter` sit in separate DOWN and UP
  branches that test the same three conditions in a different order. Both
  branches log an error and move nothing when one of them fails, so
  `MoveClone` tests the three conditions once.

What the session does, and does not, keep track of:

- The code keeps no placeholder for a row's original position and has no
  `onDrop` handler; the clone alone stands in for the dragged row.
- A session keeps the drop whenever the dragged row is still in the container
  and a hovered row is recorded at drag end.
- The direction compares the clone's top edge with the pointer's `pageY`.
- A drag restores the old order only when no hovered row remains
  (`OnDragEnd`, `RevertedDragRestoresOrder`).
- `onDragEnd` does not reset `draggedOverItem`. A later drag that ends before
  any drag enter therefore removes its row and leaves no clone in its place
  (`StaleHoverDropsRow`).

## Model

| member | source | states |
|---|---|---|
| Sequences.RemoveAt | src/components/data-table/index.tsx:145 | `splice(i, 1)`: one element shorter; elements before `i` stay, the ones after move down by one |
| Sequences.InsertAt | src/components/data-table/index.tsx:146 | `splice(i, 0, x)`: one element longer, `x` at index `i`; elements before `i` stay, the ones from `i` on move up by one |
| Sequences.RemoveAtMultiset | src/components/data-table/index.tsx:145 | removing at `i` takes exactly one occurrence of `s[i]` out of the multiset |
| Sequences.InsertAtMultiset | src/components/data-table/index.tsx:146 | inserting adds exactly one occurrence of `x` to the multiset |
| Sequences.RemoveInsert | src/components/data-table/index.tsx:145-146 | removing at `i` what was inserted at `i` gives the sequence back |
| Sequences.InsertRemove | src/components/data-table/index.tsx:145-146 | inserting a removed element back at its index gives the sequence back |
| ColumnReorder.HandleColumnReorder | src/components/data-table/index.tsx:137-148 | the new columns have the same length and multiset; the dragged column sits at `targetIndex`; without it the new and old column lists are equal |
| ColumnReorder.ReorderMovesOnlyDragged | src/components/data-table/index.tsx:141-146 | every new position holds the old column at a computed source index, so the other columns keep their relative order |
| ColumnReorder.ReorderSameIndex | src/components/data-table/index.tsx:145-146 | reordering a column onto its own index leaves the columns, order included, unchanged |
| ColumnReorder.ReorderInverse | src/components/data-table/index.tsx:141-147 | dragging the column back from `targetIndex` to `draggedIndex` restores the original columns |
| ColumnReorder.ReorderExample | src/components/data-table/index.tsx:141-146 | A, B, C, D with the column at 3 dragged to 1 gives A, D, B, C |
| PointerDirection.GetPointerDirection | src/components/data-table/index.tsx:349-359 | DOWN without a clone; with a clone, DOWN exactly when the clone's top is less than the pointer's y, UP otherwise |
| PointerDirection.DownIsMonotone | src/components/data-table/index.tsx:353-358 | moving the pointer further down never turns DOWN into UP |
| ChildList.DistinctIndices | src/components/data-table/index.tsx:213-216 | a child list has no repeats exactly when no two of its positions hold the same node |
| ChildList.NextSibling | src/components/data-table/index.tsx:215 | `nextElementSibling`: `None` only for the last child, otherwise the node directly after it |
| ChildList.Remove | src/components/data-table/index.tsx:290 | `removeChild`: the list keeps every node except the removed one; a node that is not a child leaves the list unchanged; no repeats are introduced |
| ChildList.RemoveChild | src/components/data-table/index.tsx:290 | on a list without repeats, removing a child takes out exactly its one slot |
| ChildList.RemoveCommutes | src/components/data-table/index.tsx:286-297 | the remaining order does not depend on which of two nodes is removed first |
| ChildList.RemoveKeepsAdjacent | src/components/data-table/index.tsx:290 | removing a third node keeps `a` directly before `b` |
| ChildList.RemoveKeepsLast | src/components/data-table/index.tsx:290 | removing another node keeps the last child last |
| ChildList.InsertBefore | src/components/data-table/index.tsx:213-216 | `insertBefore(n, child)`: no repeats; the children are those of the list plus `n`; apart from `n` the order is unchanged; `n` is last for a null child and directly before `child` otherwise; `insertBefore(n, n)` changes nothing |
| ChildList.InsertBeforeOwnSibling | src/components/data-table/index.tsx:239-242 | `insertBefore(n, n.nextElementSibling)` leaves the list unchanged |
| ChildList.InsertAfter | src/components/data-table/index.tsx:239-242 | `insertBefore(n, x.nextElementSibling)` puts `n` directly after `x` |
| ChildList.PlacedAfterUnique | src/components/data-table/index.tsx:239-242 | the order of the other children plus "directly after `a`" fixes the whole list |
| ChildList.PlacedBeforeUnique | src/components/data-table/index.tsx:254-257 | the order of the other children plus "directly before `a`" fixes the whole list |
| RowDragDrop.RowOf | src/components/data-table/index.tsx:220 | the row an event is about is the parent of its current target; it is null exactly when the event, the current target or the parent is missing |
| RowDragDrop.PlaceClone | src/components/data-table/index.tsx:226-259 | DOWN puts the clone directly after the hovered row and UP directly before it; the other children keep their order; hovering over the clone itself changes nothing |
| RowDragDrop.DetailsListDragDropExample.constructor | src/components/data-table/index.tsx:59-67 | no drag session: all three nodes null, direction DOWN, the rendered rows as children, nothing hidden |
| RowDragDrop.DetailsListDragDropExample.OnDragStart | src/components/data-table/index.tsx:274-283 | with an HTML current target: the dragged row is its parent; a dragged row gets a fresh clone that is not in the list and is hidden exactly when the row is; a null row gets no clone; without a target nothing changes |
| RowDragDrop.DetailsListDragDropExample.OnDragEnter | src/components/data-table/index.tsx:202-264 | the dragged row is hidden when it was shown, in the list and cloned; over a row other than the dragged one, that row and the direction are recorded and the clone is placed after (DOWN) or before (UP) it; otherwise the clone is directly after the dragged row or nothing moved; the other children keep their order |
| RowDragDrop.DetailsListDragDropExample.ShowClone | src/components/data-table/index.tsx:206-218 | first block of `onDragEnter`: when the row is shown, in the list and cloned, it is hidden and the clone is directly after it; otherwise nothing changes |
| RowDragDrop.DetailsListDragDropExample.HideAndPlaceClone | src/components/data-table/index.tsx:212-216 | hides the row and inserts the clone directly after it, the rest in order |
| RowDragDrop.DetailsListDragDropExample.FollowPointer | src/components/data-table/index.tsx:220-260 | over another row: records it and the direction, then places the clone; over the dragged row itself, or without an event: hovered row, direction and list unchanged |
| RowDragDrop.DetailsListDragDropExample.MoveClone | src/components/data-table/index.tsx:226-259 | with a hovered child and a clone: clone directly after (DOWN) or before (UP) the row; without either: no change |
| RowDragDrop.DetailsListDragDropExample.OnDragLeave | src/components/data-table/index.tsx:265-273 | the hovered row is cleared exactly when the left row is the hovered one; nothing else changes |
| RowDragDrop.DetailsListDragDropExample.OnDragEnd | src/components/data-table/index.tsx:284-306 | session cleared (dragged row and clone null, hovered row kept); with a hovered row the original is removed and the clone stays in its place; without one the clone is removed, the original shown and the order the drag found comes back; a clone not in the list, or a row that is not, changes nothing |
| DragScenarios.RevertedDragRestoresOrder | src/components/data-table/index.tsx:202-306 | start, enter, leave, end: the rows are back in their old order and nothing is hidden |
| DragScenarios.KeptDropPlacesClone | src/components/data-table/index.tsx:202-306 | start, enter over another row, end: the dragged row is gone and its fresh clone stands directly after the row (pointer below the clone's top) or directly before it; the other rows keep their order and no row appears twice |
| DragScenarios.DragTwoOntoFourExample | src/components/data-table/index.tsx:202-306 | rows 1 to 5, row 2 dragged onto row 4 with the pointer below the clone's top and released, end as 1, 3, 4, the clone, 5 |
| DragScenarios.DropOnto | src/components/data-table/index.tsx:202-306 | a drop over `b` removes the dragged row, keeps every other row, and leaves `b` recorded as hovered |
| DragScenarios.StaleHoverDropsRow | src/components/data-table/index.tsx:284-306 | after a drop, a second drag that ends before any drag enter loses its row and puts no clone in its place |

## Left out

- `render`, the Toggle and TextField handlers and the `setState` lifecycle: these are layout and UI wiring for the widget library.
- `_validateNumber` and the `parseInt` calls in `_getColumnReorderOptions`: these are JavaScript string-to-number parsing that only feeds the library's frozen-column options.
- `_onItemInvoked` (`alert`) and `_onRenderItemColumn`: these only render and convert values with `String`.
- `canDrop` and `canDrag`: both always return `true`.
- `console.log` and `console.error`: they have no effect on the state, so the model treats them as no-ops. The branches that log an error are kept as branches that change nothing.
- The CSS class string returned by `onDragEnter`: styling only.
- `getBoundingClientRect` and floating-point page coordinates: the clone's top and the pointer's `pageY` are integer inputs.
- Scrolling. The source compares a viewport coordinate (`getBoundingClientRect().top`) with a page coordinate (`pageY`). On a scrolled page these disagree, but the model takes both numbers as given.
- The widget library's helper that invokes the callbacks: DOM events, their order and their timing are not modelled beyond the sessions in `DragScenarios`.
- A second parent element. The rows live in one container, and every node the handlers touch is either in that container or detached.
- `onDragLeave` compares the current target's `parentNode` with the hovered row; the model reads the row through `parentElement` (`RowOf`). The two agree here: a parent that is not an element is never the hovered row, and when both are null the handler clears a field that is already null.
- `onDragStart` tests `event.currentTarget instanceof HTMLElement`, while `onDragEnter` and `onDragLeave` only test that the current target is present. The model reads all three as `currentTarget.Some?`: a present current target is taken to be an HTML element, the root of one of the grid's rows.
- ChildList.InsertBefore: requires its reference child to be a child of the list. It does not model the `NotFoundError` the DOM throws otherwise, because every call in the component passes a child or null.
- Text, comment and other non-element nodes are not modelled, so `nextElementSibling` is the next child in the list.
