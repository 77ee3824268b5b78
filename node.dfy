/** A node of one graph state (dyng/node.h) and the coordinates it carries.
    Graphs hold nodes by value and copy them with every state, so the setters
    are modelled as functions returning the updated node. The extra component
    `live` is what node_partition adds to node (dyng/partitions.h); plain
    graph states instantiate it with the unit type. */
module Nodes {
  import opened Identifiers

  /** coords.h is not part of this model; a default-constructed coords is the origin. */
  datatype Coords = Coords(x: real, y: real)

  const Origin := Coords(0.0, 0.0)

  datatype Node<L> = Node(id: NodeId, pos: Coords, alpha: real, isNew: bool, isOld: bool, live: L) {

    /** is_new(bool): only the new flag changes. */
    function SetIsNew(v: bool): (r: Node<L>)
      ensures r.isNew == v
      ensures r.id == id && r.pos == pos && r.alpha == alpha && r.isOld == isOld && r.live == live
    {
      this.(isNew := v)
    }

    /** is_old(bool): only the old flag changes. */
    function SetIsOld(v: bool): (r: Node<L>)
      ensures r.isOld == v
      ensures r.id == id && r.pos == pos && r.alpha == alpha && r.isNew == isNew && r.live == live
    {
      this.(isOld := v)
    }

    /** alpha(float): only alpha changes. */
    function SetAlpha(v: real): (r: Node<L>)
      ensures r.alpha == v
      ensures r.id == id && r.pos == pos && r.isNew == isNew && r.isOld == isOld && r.live == live
    {
      this.(alpha := v)
    }

    /** Writing through the mutable pos() reference: only the coordinates change. */
    function SetPos(p: Coords): (r: Node<L>)
      ensures r.pos == p
      ensures r.id == id && r.alpha == alpha && r.isNew == isNew && r.isOld == isOld && r.live == live
    {
      this.(pos := p)
    }
  }

  /** node(node_id): the given id at the origin, fully opaque, neither new nor old. */
  function NewNode<L>(id: NodeId, live: L): (n: Node<L>)
    ensures n.id == id && n.pos == Origin && n.alpha == 1.0
    ensures !n.isNew && !n.isOld && n.live == live
  {
    Node(id, Origin, 1.0, false, false, live)
  }
}
