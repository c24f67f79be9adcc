/**
 * Building the directed graph from the relationship records
 * (ImportGraphFromFile). The records are the already-parsed rows of the
 * relationship file: source label, target label, weight.
 */
module GraphImport {
  import opened Seqs
  import opened Edges
  import opened Graphs

  /** One parsed row of the relationship file. */
  datatype Record = Record(source: string, target: string, weight: int)

  /** The graph's contents as values: vertices and edges, both in insertion order. */
  datatype Snapshot = Snapshot(vertices: seq<string>, edges: seq<Edge>)

  /** The edge built from a record. */
  function RecordEdge(r: Record): (e: Edge)
    ensures e.source == r.source && e.target == r.target && e.weight == r.weight
  {
    NewEdge(r.source, r.target, r.weight)
  }

  /**
   * One iteration of the import loop: insert each endpoint if absent, then
   * insert the record's edge if no equal edge is stored yet.
   */
  function Step(s: Snapshot, r: Record): (t: Snapshot)
    ensures WellFormed(s.vertices, s.edges) ==> WellFormed(t.vertices, t.edges)
    ensures r.source in t.vertices && r.target in t.vertices && s.vertices <= t.vertices
    ensures forall i :: 0 <= i < |t.vertices| ==>
              t.vertices[i] in s.vertices || t.vertices[i] == r.source || t.vertices[i] == r.target
    ensures RecordEdge(r) in t.edges
    ensures s.edges <= t.edges && |t.edges| <= |s.edges| + 1
    ensures RecordEdge(r) in s.edges ==> t.edges == s.edges
    ensures forall i :: 0 <= i < |t.edges| ==> t.edges[i] in s.edges || t.edges[i] == RecordEdge(r)
    ensures Distinct(s.edges) ==> Distinct(t.edges)
  {
    var vertices := InsertIfAbsent(InsertIfAbsent(s.vertices, r.source), r.target);
    Snapshot(vertices, InsertIfAbsent(s.edges, RecordEdge(r)))
  }

  /** The graph after the import loop has processed `records` in order. */
  function Imported(records: seq<Record>): Snapshot
  {
    if records == [] then Snapshot([], [])
    else Step(Imported(records[..|records| - 1]), records[|records| - 1])
  }

  /** Importing one more record is one more step. */
  lemma ImportedSnoc(records: seq<Record>, i: nat)
    requires i < |records|
    ensures Imported(records[..i + 1]) == Step(Imported(records[..i]), records[i])
  {
    assert records[..i + 1][..i] == records[..i];
  }

  /**
   * The imported graph is well formed (distinct vertices, both endpoints of
   * every edge are vertices), holds no edge twice, and has at most one edge
   * per record.
   */
  lemma {:induction false} ImportedWellFormed(records: seq<Record>)
    ensures WellFormed(Imported(records).vertices, Imported(records).edges)
    ensures Distinct(Imported(records).edges)
    ensures |Imported(records).edges| <= |records|
  {
    if records != [] {
      ImportedWellFormed(records[..|records| - 1]);
    }
  }

  /** `v` is the source or the target label of some record. */
  ghost predicate IsLabel(records: seq<Record>, v: string)
  {
    exists i :: 0 <= i < |records| && (records[i].source == v || records[i].target == v)
  }

  /** `e` is the edge built from some record. */
  ghost predicate IsRecordEdge(records: seq<Record>, e: Edge)
  {
    exists i :: 0 <= i < |records| && RecordEdge(records[i]) == e
  }

  /** A label of a longer record list: a label of the first records, or an endpoint of the last. */
  lemma IsLabelSnoc(records: seq<Record>, v: string)
    requires records != []
    ensures var init, r := records[..|records| - 1], records[|records| - 1];
            IsLabel(records, v) <==> IsLabel(init, v) || r.source == v || r.target == v
  {
    var init := records[..|records| - 1];
    if IsLabel(init, v) {
      var i :| 0 <= i < |init| && (init[i].source == v || init[i].target == v);
      assert records[i] == init[i];
    }
    if IsLabel(records, v) {
      var i :| 0 <= i < |records| && (records[i].source == v || records[i].target == v);
      if i < |init| {
        assert init[i] == records[i];
      }
    }
  }

  /** An edge of a longer record list: an edge of the first records, or that of the last. */
  lemma IsRecordEdgeSnoc(records: seq<Record>, e: Edge)
    requires records != []
    ensures var init, r := records[..|records| - 1], records[|records| - 1];
            IsRecordEdge(records, e) <==> IsRecordEdge(init, e) || RecordEdge(r) == e
  {
    var init := records[..|records| - 1];
    if IsRecordEdge(init, e) {
      var i :| 0 <= i < |init| && RecordEdge(init[i]) == e;
      assert records[i] == init[i];
    }
    if IsRecordEdge(records, e) {
      var i :| 0 <= i < |records| && RecordEdge(records[i]) == e;
      if i < |init| {
        assert init[i] == records[i];
      }
    }
  }

  /** The vertices after a step: those before, and the record's two endpoints. */
  lemma StepVertices(s: Snapshot, r: Record, v: string)
    ensures v in Step(s, r).vertices <==> v in s.vertices || v == r.source || v == r.target
  {
    var t := Step(s, r);
    if v in t.vertices {
      var i :| 0 <= i < |t.vertices| && t.vertices[i] == v;
    }
  }

  /** The edges after a step: those before, and the record's edge. */
  lemma StepEdges(s: Snapshot, r: Record, e: Edge)
    ensures e in Step(s, r).edges <==> e in s.edges || e == RecordEdge(r)
  {
    var t := Step(s, r);
    if e in t.edges {
      var i :| 0 <= i < |t.edges| && t.edges[i] == e;
    }
  }

  /** The imported vertices are exactly the labels that occur in the records. */
  lemma {:induction false} ImportedVertices(records: seq<Record>, v: string)
    ensures v in Imported(records).vertices <==> IsLabel(records, v)
  {
    if records != [] {
      var init, r := records[..|records| - 1], records[|records| - 1];
      ImportedVertices(init, v);
      IsLabelSnoc(records, v);
      StepVertices(Imported(init), r, v);
    }
  }

  /** The imported edges are exactly the edges built from the records. */
  lemma {:induction false} ImportedEdges(records: seq<Record>, e: Edge)
    ensures e in Imported(records).edges <==> IsRecordEdge(records, e)
  {
    if records != [] {
      var init, r := records[..|records| - 1], records[|records| - 1];
      ImportedEdges(init, e);
      IsRecordEdgeSnoc(records, e);
      StepEdges(Imported(init), r, e);
    }
  }

  /**
   * Later records only append: the edges (and vertices) imported from a
   * prefix of the records are a prefix of those imported from all of them.
   */
  lemma {:induction false} ImportedGrows(records: seq<Record>, k: nat)
    requires k <= |records|
    ensures Imported(records[..k]).edges <= Imported(records).edges
    ensures Imported(records[..k]).vertices <= Imported(records).vertices
  {
    if k < |records| {
      var init := records[..|records| - 1];
      assert init[..k] == records[..k];
      ImportedGrows(init, k);
    } else {
      assert records[..k] == records;
    }
  }

  /**
   * A repeated record adds nothing, but two records for the same pair with
   * different weights give two parallel edges: equality of edges takes the
   * weight into account.
   */
  lemma DuplicateRecords()
    ensures |Imported([Record("A", "B", 1), Record("A", "B", 1)]).edges| == 1
    ensures Imported([Record("A", "B", 1), Record("A", "B", 2)]).edges
              == [Edge("A", "B", 1), Edge("A", "B", 2)]
  {
    var r1, r2 := Record("A", "B", 1), Record("A", "B", 2);
    assert [r1][..0] == [];
    assert Imported([]) == Snapshot([], []);
    assert Imported([r1]) == Step(Snapshot([], []), r1);
    assert [r1, r1][..1] == [r1];
    assert Imported([r1, r1]) == Step(Imported([r1]), r1);
    assert [r1, r2][..1] == [r1];
    assert Imported([r1, r2]) == Step(Imported([r1]), r2);
  }

  /**
   * One iteration of the import loop on the graph itself: add each endpoint
   * that is not yet a vertex, then the record's edge unless the graph
   * already contains an equal edge.
   */
  method ImportRecord(g: BidirectionalGraph, record: Record)
    requires g.Valid()
    modifies g
    ensures g.Valid()
    ensures Snapshot(g.vertices, g.edges) == Step(old(Snapshot(g.vertices, g.edges)), record)
  {
    var source := record.source;
    var target := record.target;
    var weight := record.weight;

    var v1 := source;
    if !g.ContainsVertex(v1) {
      g.AddVertex(v1);
    }
    var v2 := target;
    if !g.ContainsVertex(v2) {
      g.AddVertex(v2);
    }
    var e1 := NewEdge(v1, v2, weight);
    if !g.ContainsEdge(e1) {
      g.AddEdge(e1);
    }
  }

  /**
   * Reads the records in order into a new graph. Its vertices are exactly the
   * labels of the records, its edges exactly the edges built from them, and
   * no edge is stored twice.
   */
  method ImportGraph(records: seq<Record>) returns (g: BidirectionalGraph)
    ensures fresh(g) && g.Valid()
    ensures Snapshot(g.vertices, g.edges) == Imported(records)
    ensures forall v :: v in g.vertices <==> IsLabel(records, v)
    ensures forall e :: e in g.edges <==> IsRecordEdge(records, e)
    ensures Distinct(g.edges) && |g.edges| <= |records|
  {
    g := new BidirectionalGraph();
    for i := 0 to |records|
      invariant g.Valid()
      invariant Snapshot(g.vertices, g.edges) == Imported(records[..i])
    {
      ImportRecord(g, records[i]);
      ImportedSnoc(records, i);
    }
    assert records[..|records|] == records;
    forall v ensures v in g.vertices <==> IsLabel(records, v) {
      ImportedVertices(records, v);
    }
    forall e ensures e in g.edges <==> IsRecordEdge(records, e) {
      ImportedEdges(records, e);
    }
    ImportedWellFormed(records);
  }
}
