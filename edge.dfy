/** An edge of one graph state (dyng/edge.h). basic_edge is generic in the node
    type it connects to; here that is the type parameter of NodeOne/NodeTwo.
    The raw pointer to the owning node container is replaced by passing that
    container to the endpoint accessors. */
module Edges {
  import opened Identifiers
  import opened Wrappers
  import opened Container

  datatype Edge<L> = Edge(id: EdgeId, one: NodeId, two: NodeId, alpha: real, isNew: bool, isOld: bool, live: L) {

    /** is_new(bool): only the new flag changes. */
    function SetIsNew(v: bool): (r: Edge<L>)
      ensures r.isNew == v
      ensures r.id == id && r.one == one && r.two == two && r.alpha == alpha && r.isOld == isOld && r.live == live
    {
      this.(isNew := v)
    }

    /** is_old(bool): only the old flag changes. */
    function SetIsOld(v: bool): (r: Edge<L>)
      ensures r.isOld == v
      ensures r.id == id && r.one == one && r.two == two && r.alpha == alpha && r.isNew == isNew && r.live == live
    {
      this.(isOld := v)
    }

    /** alpha(float): only alpha changes. */
    function SetAlpha(v: real): (r: Edge<L>)
      ensures r.alpha == v
      ensures r.id == id && r.one == one && r.two == two && r.isNew == isNew && r.isOld == isOld && r.live == live
    {
      this.(alpha := v)
    }

    /** node_one(): the node whose id is one_id() in the owning container;
        out_of_range when it is absent. */
    function NodeOne<N>(nodes: Container<NodeId, N>): (r: Result<N>)
      requires nodes.IndexInBounds()
      ensures r.Ok? <==> one in nodes.index
      ensures r.Ok? ==> r.value == nodes.vec[nodes.index[one]]
      ensures r.Err? ==> r.error == OutOfRange
    {
      nodes.At(one)
    }

    /** node_two(): the node whose id is two_id() in the owning container;
        out_of_range when it is absent. */
    function NodeTwo<N>(nodes: Container<NodeId, N>): (r: Result<N>)
      requires nodes.IndexInBounds()
      ensures r.Ok? <==> two in nodes.index
      ensures r.Ok? ==> r.value == nodes.vec[nodes.index[two]]
      ensures r.Err? ==> r.error == OutOfRange
    {
      nodes.At(two)
    }
  }

  /** The edge constructor: id and endpoints as given, fully opaque, neither new nor old. */
  function NewEdge<L>(id: EdgeId, one: NodeId, two: NodeId, live: L): (e: Edge<L>)
    ensures e.id == id && e.one == one && e.two == two && e.alpha == 1.0
    ensures !e.isNew && !e.isOld && e.live == live
  {
    Edge(id, one, two, 1.0, false, false, live)
  }

  /** Whether the edge joins a and b, in either direction (edges are undirected). */
  predicate Connects<L>(e: Edge<L>, a: NodeId, b: NodeId)
  {
    (e.one == a && e.two == b) || (e.one == b && e.two == a)
  }
}
