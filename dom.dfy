/**
 * The part of a DOM tree that getExpression reads.  The tree belongs to the
 * host document: it is a value here, so nothing in the model can change it.
 */
module Dom {
  import opened Optional

  /** A node handle: the node's position in document order. */
  type NodeId = nat

  /** The node types getExpression tells apart; every other nodeType is OtherNode. */
  datatype NodeKind = Element | DocumentType | OtherNode

  /**
   * One node: its nodeType, its nodeName (as the host reports it, for HTML
   * elements in upper case), whether it is in the SVG namespace (the isSVG
   * helper), and its parentNode and previousSibling links.
   */
  datatype Node = Node(
    kind: NodeKind,
    name: string,
    svg: bool,
    parent: Option<NodeId>,
    prev: Option<NodeId>)

  type Tree = seq<Node>

  /** A link, when present, points to a node earlier in document order. */
  predicate Before(link: Option<NodeId>, id: NodeId)
  {
    link.Some? ==> link.value < id
  }

  /**
   * Nodes are numbered in document order: a parent and a previous sibling
   * both come before the node.  This is what makes the DOM acyclic.
   */
  predicate ValidTree(t: Tree)
  {
    forall id :: 0 <= id < |t| ==> Before(t[id].parent, id) && Before(t[id].prev, id)
  }
}
