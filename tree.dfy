/**
 * The application-supplied tree node.  The widget reads its children and
 * reads and writes three state attributes of every node object in place; nodes
 * are shared by reference, so a node is at once a member of its parent's
 * `children` collection and the `parent` of the collection rendered beneath it
 * (the nested tree of a node binds `children` with that node as parent).
 */
module Tree {
  class Node {
    var children: seq<Node>
    /** The selected attribute (an absent attribute reads as false). */
    var selected: bool
    /** The internal tri-state marker, `__ivhTreeviewIntermediate` by default. */
    var indeterminate: bool
    /** The internal filter-visibility marker, `__ivhTreeviewVisible` by default. */
    var visible: bool

    constructor (children: seq<Node>)
      ensures this.children == children
      ensures !selected && !indeterminate && !visible
    {
      this.children := children;
      selected := false;
      indeterminate := false;
      visible := false;
    }
  }

  /** The objects of a collection, as a frame. */
  function Elements(nodes: seq<Node>): set<Node>
  {
    set n | n in nodes
  }

  /** A possibly absent node, as a frame. */
  function Only(n: Node?): set<Node>
  {
    if n == null then {} else {n}
  }
}
