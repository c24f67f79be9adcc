/**
 * The directed graph the program builds (a BidirectionalGraph<string,
 * Edge<string>> created with parallel edges allowed), reduced to what the
 * program uses: vertex and edge membership, insertion, and in/out degree.
 */
module Graphs {
  import opened Seqs
  import opened Edges

  /** Vertices are distinct and every edge joins two vertices. */
  predicate WellFormed(vertices: seq<string>, edges: seq<Edge>)
  {
    && Distinct(vertices)
    && forall e :: e in edges ==> e.source in vertices && e.target in vertices
  }

  /** The target label of each edge, in edge order. */
  function Targets(edges: seq<Edge>): (ts: seq<string>)
    ensures |ts| == |edges|
    ensures forall i :: 0 <= i < |edges| ==> ts[i] == edges[i].target
  {
    seq(|edges|, i requires 0 <= i < |edges| => edges[i].target)
  }

  /** The source label of each edge, in edge order. */
  function Sources(edges: seq<Edge>): (ss: seq<string>)
    ensures |ss| == |edges|
    ensures forall i :: 0 <= i < |edges| ==> ss[i] == edges[i].source
  {
    seq(|edges|, i requires 0 <= i < |edges| => edges[i].source)
  }

  /**
   * For each vertex, in vertex order, how often it occurs among `ends`
   * (the targets of the edges for in-degrees, the sources for out-degrees).
   */
  function DegreeList(ends: seq<string>, vertices: seq<string>): (ds: seq<int>)
    ensures |ds| == |vertices|
    ensures forall i :: 0 <= i < |vertices| ==> ds[i] == Occurrences(ends, vertices[i])
  {
    if vertices == [] then []
    else [Occurrences(ends, vertices[0])] + DegreeList(ends, vertices[1..])
  }

  class BidirectionalGraph {
    /** Vertices in insertion order (the enumeration order of graph.Vertices). */
    var vertices: seq<string>
    /** Edges in insertion order. */
    var edges: seq<Edge>

    ghost predicate Valid()
      reads this
    {
      WellFormed(vertices, edges)
    }

    constructor ()
      ensures Valid()
      ensures vertices == [] && edges == []
    {
      vertices := [];
      edges := [];
    }

    /** Whether some stored vertex is the label `v`. */
    function ContainsVertex(v: string): (b: bool)
      reads this
      ensures b <==> exists i :: 0 <= i < |vertices| && vertices[i] == v
    {
      v in vertices
    }

    /**
     * Whether some stored edge has the same source, target and weight as `e`:
     * value equality, not object identity.
     */
    function ContainsEdge(e: Edge): (b: bool)
      reads this
      ensures b <==> exists i :: (0 <= i < |edges| && edges[i].source == e.source
                                    && edges[i].target == e.target && edges[i].weight == e.weight)
    {
      e in edges
    }

    /** Adds `v` as a new vertex; a vertex already present is left alone. */
    method AddVertex(v: string)
      requires Valid()
      modifies this
      ensures Valid()
      ensures v in vertices
      ensures vertices == InsertIfAbsent(old(vertices), v)
      ensures edges == old(edges)
    {
      if v !in vertices {
        vertices := vertices + [v];
      }
    }

    /**
     * Appends `e`. Parallel edges are allowed, so nothing is checked but that
     * both endpoints are already vertices.
     */
    method AddEdge(e: Edge)
      requires Valid()
      requires e.source in vertices && e.target in vertices
      modifies this
      ensures Valid()
      ensures vertices == old(vertices)
      ensures edges == old(edges) + [e]
    {
      edges := edges + [e];
    }

    /**
     * Number of stored edges whose target is `v`: each parallel edge counts,
     * and a self-loop at `v` counts here and in OutDegree.
     */
    function InDegree(v: string): (d: nat)
      reads this
      ensures d == |set i | 0 <= i < |edges| && edges[i].target == v|
    {
      OccurrencesPositions(Targets(edges), v);
      assert Positions(Targets(edges), v) == set i | 0 <= i < |edges| && edges[i].target == v;
      Occurrences(Targets(edges), v)
    }

    /**
     * Number of stored edges whose source is `v`: each parallel edge counts,
     * and a self-loop at `v` counts here and in InDegree.
     */
    function OutDegree(v: string): (d: nat)
      reads this
      ensures d == |set i | 0 <= i < |edges| && edges[i].source == v|
    {
      OccurrencesPositions(Sources(edges), v);
      assert Positions(Sources(edges), v) == set i | 0 <= i < |edges| && edges[i].source == v;
      Occurrences(Sources(edges), v)
    }

    /** InDegree of each vertex, in vertex order. */
    function InDegrees(): (ds: seq<int>)
      reads this
    {
      DegreeList(Targets(edges), vertices)
    }

    /** OutDegree of each vertex, in vertex order. */
    function OutDegrees(): (ds: seq<int>)
      reads this
    {
      DegreeList(Sources(edges), vertices)
    }
  }

  lemma {:induction false} DegreeListEmpty(vertices: seq<string>)
    ensures Sum(DegreeList([], vertices)) == 0
  {
    if vertices != [] {
      DegreeListEmpty(vertices[1..]);
    }
  }

  /** One more end label raises the degree total by the number of vertices equal to it. */
  lemma {:induction false} DegreeListSnoc(ends: seq<string>, x: string, vertices: seq<string>)
    ensures Sum(DegreeList(ends + [x], vertices)) == Sum(DegreeList(ends, vertices)) + Occurrences(vertices, x)
  {
    if vertices != [] {
      DegreeListSnoc(ends, x, vertices[1..]);
      assert (ends + [x])[..|ends|] == ends;
      OccurrencesCons(vertices, x);
    }
  }

  /**
   * When every end label is one of the distinct vertices, the degrees of the
   * vertices add up to the number of end labels.
   */
  lemma {:induction false} DegreeListSum(ends: seq<string>, vertices: seq<string>)
    requires Distinct(vertices)
    requires forall x :: x in ends ==> x in vertices
    ensures Sum(DegreeList(ends, vertices)) == |ends|
  {
    if ends == [] {
      DegreeListEmpty(vertices);
    } else {
      var init, x := ends[..|ends| - 1], ends[|ends| - 1];
      assert ends == init + [x];
      assert forall y :: y in init ==> y in ends;
      DegreeListSum(init, vertices);
      DegreeListSnoc(init, x, vertices);
      OccurrencesDistinct(vertices, x);
    }
  }

  /**
   * In a well-formed graph the in-degrees of all vertices add up to the
   * number of edges, and so do the out-degrees.
   */
  lemma DegreeSums(g: BidirectionalGraph)
    requires g.Valid()
    ensures Sum(g.InDegrees()) == |g.edges|
    ensures Sum(g.OutDegrees()) == |g.edges|
  {
    var ts, ss := Targets(g.edges), Sources(g.edges);
    forall x | x in ts ensures x in g.vertices {
      var i :| 0 <= i < |ts| && ts[i] == x;
      assert g.edges[i] in g.edges;
    }
    forall x | x in ss ensures x in g.vertices {
      var i :| 0 <= i < |ss| && ss[i] == x;
      assert g.edges[i] in g.edges;
    }
    DegreeListSum(ts, g.vertices);
    DegreeListSum(ss, g.vertices);
  }
}
