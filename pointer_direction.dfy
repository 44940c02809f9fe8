/**
 * `getPointerDirection` (src/components/data-table/index.tsx): which way the
 * pointer is moving relative to the dragged row's clone. The clone's top edge
 * and the event's `pageY` are integer inputs here; the host's layout
 * supplies them.
 */
module PointerDirection {
  import opened Optional
  import opened Nodes

  datatype Direction = Up | Down

  function GetPointerDirection(draggedItemClone: Option<NodeId>, cloneTop: int, dragOverEventYPosition: int): (d: Direction)
    ensures draggedItemClone.None? ==> d == Down
    ensures draggedItemClone.Some? ==> (d == Down <==> cloneTop < dragOverEventYPosition)
  {
    if draggedItemClone.Some? then
      if cloneTop < dragOverEventYPosition then Down else Up
    else
      Down
  }

  /** Moving the pointer further down never turns DOWN into UP. */
  lemma DownIsMonotone(draggedItemClone: Option<NodeId>, cloneTop: int, y: int, y': int)
    requires y <= y' && GetPointerDirection(draggedItemClone, cloneTop, y) == Down
    ensures GetPointerDirection(draggedItemClone, cloneTop, y') == Down
  {
  }
}
