/** The DOM nodes the grid's handlers touch, named by number. */
module Nodes {
  type NodeId = nat
}
