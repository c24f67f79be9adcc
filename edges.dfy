/**
 * The relationship edge of the social network: an ordered pair of vertex
 * labels with an integer weight (class Edge<TVertex> of Program.cs, used with
 * TVertex = string).
 */
module Edges {

  /**
   * An edge. The source keeps `source` and `target` in read-only fields and
   * never writes `weight` after construction, so the edge is a value here.
   */
  datatype Edge = Edge(source: string, target: string, weight: int)

  /** The Edge constructor, with its Contract.Ensures on Source and Target. */
  function NewEdge(source: string, target: string, weight: int): (e: Edge)
    ensures e.source == source && e.target == target
    ensures e.weight == weight
  {
    Edge(source, target, weight)
  }
}
