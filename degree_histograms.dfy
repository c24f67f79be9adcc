/**
 * The unweighted degree histograms computed in Main: for every degree value,
 * the number of vertices having that degree. The in-degree pass is modelled
 * as written; so is the out-degree pass, whose "else" branch adds to the
 * in-degree dictionary instead of the out-degree one.
 */
module DegreeHistograms {
  import opened Seqs
  import opened Edges
  import opened Graphs
  import opened GraphImport
  import opened Dictionaries

  /** The histogram with one more vertex of degree `d`. */
  function Bump(m: Dict, d: int): (r: Dict)
    ensures r.Keys == m.Keys + {d}
    ensures r[d] == (if d in m then m[d] else 0) + 1
    ensures forall k :: k in m && k != d ==> r[k] == m[k]
  {
    m[d := if d in m then m[d] + 1 else 1]
  }

  /** The histogram of a degree list, built entry by entry in list order. */
  function Tally(ds: seq<int>): Dict
  {
    if ds == [] then map[] else Bump(Tally(ds[..|ds| - 1]), ds[|ds| - 1])
  }

  /** A non-empty set of keys has an element. */
  lemma NonEmpty(keys: set<int>)
    requires keys != {}
    ensures exists k :: k in keys
  {
    if forall k :: k !in keys {
      assert false;
    }
  }

  /** Sum of the counts of `m` over `keys`. */
  ghost function TotalOver(m: Dict, keys: set<int>): int
    requires keys <= m.Keys
  {
    if keys == {} then 0
    else
      NonEmpty(keys);
      var k :| k in keys;
      m[k] + TotalOver(m, keys - {k})
  }

  /** Sum of all counts of a histogram. */
  ghost function Total(m: Dict): int
  {
    TotalOver(m, m.Keys)
  }

  /**
   * The keys of a histogram are exactly the values in the degree list, and
   * each key counts the positions holding it.
   */
  lemma {:induction false} TallyCounts(ds: seq<int>, d: int)
    ensures d in Tally(ds) <==> d in ds
    ensures d in Tally(ds) ==> Tally(ds)[d] == Occurrences(ds, d)
  {
    if ds != [] {
      var init := ds[..|ds| - 1];
      TallyCounts(init, d);
      assert ds == init + [ds[|ds| - 1]];
      if d in init {
        assert d in ds;
      } else {
        OccurrencesAbsent(init, d);
      }
    }
  }

  /** A sum over keys may be split at any of them. */
  lemma {:induction false} TotalOverRemove(m: Dict, keys: set<int>, k: int)
    requires keys <= m.Keys && k in keys
    ensures TotalOver(m, keys) == m[k] + TotalOver(m, keys - {k})
    decreases keys
  {
    var j :| j in keys && TotalOver(m, keys) == m[j] + TotalOver(m, keys - {j});
    if j != k {
      TotalOverRemove(m, keys - {j}, k);
      TotalOverRemove(m, keys - {k}, j);
      assert keys - {j} - {k} == keys - {k} - {j};
    }
  }

  /** A sum over keys sees only the counts of those keys. */
  lemma {:induction false} TotalOverAgree(m1: Dict, m2: Dict, keys: set<int>)
    requires keys <= m1.Keys && keys <= m2.Keys
    requires forall k :: k in keys ==> m1[k] == m2[k]
    ensures TotalOver(m1, keys) == TotalOver(m2, keys)
    decreases keys
  {
    if keys != {} {
      NonEmpty(keys);
      var k :| k in keys;
      TotalOverRemove(m1, keys, k);
      TotalOverRemove(m2, keys, k);
      TotalOverAgree(m1, m2, keys - {k});
    }
  }

  /** Counting one more vertex raises the total by one. */
  lemma TotalBump(m: Dict, d: int)
    ensures Total(Bump(m, d)) == Total(m) + 1
  {
    var b := Bump(m, d);
    TotalOverRemove(b, b.Keys, d);
    assert b.Keys - {d} == m.Keys - {d};
    TotalOverAgree(b, m, m.Keys - {d});
    if d in m {
      TotalOverRemove(m, m.Keys, d);
    } else {
      assert m.Keys - {d} == m.Keys;
    }
  }

  /** The counts of a histogram add up to the length of its degree list. */
  lemma {:induction false} TotalTally(ds: seq<int>)
    ensures Total(Tally(ds)) == |ds|
  {
    if ds != [] {
      TotalTally(ds[..|ds| - 1]);
      TotalBump(Tally(ds[..|ds| - 1]), ds[|ds| - 1]);
    }
  }

  /** Tallying one more degree is one more Bump. */
  lemma TallySnoc(ds: seq<int>, i: nat)
    requires i < |ds|
    ensures Tally(ds[..i + 1]) == Bump(Tally(ds[..i]), ds[i])
  {
    assert ds[..i + 1][..i] == ds[..i];
  }

  /**
   * The histogram of a degree list: each bucket counts the positions holding
   * its degree, every key is some listed degree, and the counts add up to
   * the length of the list.
   */
  lemma TallyHistogram(ds: seq<int>)
    ensures forall d :: d in Tally(ds) <==> d in ds
    ensures forall d :: d in Tally(ds) ==> Tally(ds)[d] == Occurrences(ds, d)
    ensures Total(Tally(ds)) == |ds|
  {
    forall d ensures (d in Tally(ds) <==> d in ds) && (d in Tally(ds) ==> Tally(ds)[d] == Occurrences(ds, d)) {
      TallyCounts(ds, d);
    }
    TotalTally(ds);
  }

  /**
   * One upsert of bucket `d` as Main writes it: when the key is present,
   * TryGetValue, Remove, then Add(value + 1); otherwise Add(d, 1). Neither
   * Add can meet an existing key, and the whole is a single increment.
   */
  method Upsert(m: Dict, d: int) returns (r: Dict)
    ensures r == Bump(m, d)
  {
    if ContainsKey(m, d) {
      var (_, tempValue) := TryGetValue(m, d);
      var removed := Remove(m, d);
      var added := Add(removed, d, tempValue + 1);
      r := added.value;
    } else {
      var added := Add(m, d, 1);
      r := added.value;
    }
  }

  /** The in-degrees (`incoming`) or the out-degrees of the vertices, in vertex order. */
  function Degrees(g: BidirectionalGraph, incoming: bool): (ds: seq<int>)
    reads g
  {
    if incoming then g.InDegrees() else g.OutDegrees()
  }

  /**
   * A correct histogram pass: for each vertex, upsert the bucket of its
   * in-degree (or out-degree). Each bucket counts the vertices having that
   * degree, every key is some vertex's degree, and the counts add up to the
   * number of vertices.
   */
  method DegreePass(g: BidirectionalGraph, incoming: bool) returns (hist: Dict)
    ensures hist == Tally(Degrees(g, incoming))
    ensures forall d :: d in hist <==> d in Degrees(g, incoming)
    ensures forall d :: d in hist ==> hist[d] == Occurrences(Degrees(g, incoming), d)
    ensures Total(hist) == |g.vertices|
  {
    ghost var ds := Degrees(g, incoming);
    hist := map[];
    for i := 0 to |g.vertices|
      invariant hist == Tally(ds[..i])
    {
      var v := g.vertices[i];
      var degree := if incoming then g.InDegree(v) else g.OutDegree(v);
      hist := Upsert(hist, degree);
      TallySnoc(ds, i);
    }
    assert ds[..|g.vertices|] == ds;
    TallyHistogram(ds);
  }

  /** No value repeats in `ds`, and none is already a key of `m`. */
  predicate FreshKeys(ds: seq<int>, m: Dict)
  {
    Distinct(ds) && forall i :: 0 <= i < |ds| ==> ds[i] !in m
  }

  lemma FreshKeysSnoc(ds: seq<int>, m: Dict, x: int)
    requires FreshKeys(ds, m) && x !in m && x !in ds
    ensures FreshKeys(ds + [x], m)
  {
  }

  /** `m` after Add(d, 1) for each `d` of `ds` in turn, when no Add fails. */
  function AddOnes(m: Dict, ds: seq<int>): Dict
  {
    if ds == [] then m else AddOnes(m, ds[..|ds| - 1])[ds[|ds| - 1] := 1]
  }

  /**
   * The keys after those Adds are the old keys and the added values; when
   * every added value was a new key, old counts are kept and each added
   * value counts 1.
   */
  lemma {:induction false} AddOnesFacts(m: Dict, ds: seq<int>, k: int)
    ensures k in AddOnes(m, ds) <==> k in m || k in ds
    ensures FreshKeys(ds, m) && k in m ==> AddOnes(m, ds)[k] == m[k]
    ensures FreshKeys(ds, m) && k in ds ==> AddOnes(m, ds)[k] == 1
  {
    if ds != [] {
      var init := ds[..|ds| - 1];
      assert ds == init + [ds[|ds| - 1]];
      if FreshKeys(ds, m) {
        assert FreshKeys(init, m);
      }
      AddOnesFacts(m, init, k);
    }
  }

  /** The two dictionaries Main fills. */
  datatype Histograms = Histograms(byIn: Dict, byOut: Dict)

  /**
   * The out-degree pass as written: ContainsKey is asked of the out-degree
   * dictionary, which nothing ever adds to, so every vertex takes the else
   * branch and adds its out-degree with count 1 to the in-degree dictionary.
   * That Add fails on the first out-degree that is already an in-degree key
   * or the out-degree of an earlier vertex.
   */
  method OutDegreePassAsWritten(g: BidirectionalGraph, byIn: Dict) returns (res: Outcome<Histograms>)
    ensures res.Ok? <==> FreshKeys(g.OutDegrees(), byIn)
    ensures res.Ok? ==> res.value == Histograms(AddOnes(byIn, g.OutDegrees()), map[])
    ensures res.DuplicateKey? ==>
              exists j :: 0 <= j < |g.vertices| && res.key == g.OutDegrees()[j]
                && FreshKeys(g.OutDegrees()[..j], byIn)
                && (res.key in byIn || res.key in g.OutDegrees()[..j])
  {
    ghost var ds := g.OutDegrees();
    var byOut: Dict := map[];
    var hist := byIn;
    for i := 0 to |g.vertices|
      invariant byOut == map[]
      invariant FreshKeys(ds[..i], byIn)
      invariant hist == AddOnes(byIn, ds[..i])
    {
      var degree := g.OutDegree(g.vertices[i]);
      assert degree == ds[i];
      AddOnesFacts(byIn, ds[..i], degree);
      if ContainsKey(byOut, degree) {
        // Never taken: nothing is ever added to the out-degree dictionary.
        byOut := Upsert(byOut, degree);
      } else {
        var added := Add(hist, degree, 1);
        if added.DuplicateKey? {
          return DuplicateKey(added.key);
        }
        hist := added.value;
        assert ds[..i + 1] == ds[..i] + [degree];
        FreshKeysSnoc(ds[..i], byIn, degree);
      }
    }
    assert ds[..|g.vertices|] == ds;
    res := Ok(Histograms(hist, byOut));
  }

  /**
   * Whether the out-degree pass gets through a graph with these vertices and
   * edges: after the in-degree pass, every out-degree must be a new key.
   */
  predicate OutPassSucceeds(vertices: seq<string>, edges: seq<Edge>)
  {
    FreshKeys(DegreeList(Sources(edges), vertices), Tally(DegreeList(Targets(edges), vertices)))
  }

  /**
   * Both passes of Main, as written. They complete only when the out-degrees
   * of the vertices are pairwise distinct and differ from every in-degree;
   * then the out-degree dictionary is empty and the in-degree dictionary
   * holds the true in-degree counts plus every out-degree counted once.
   */
  method ComputeDegreeHistograms(g: BidirectionalGraph) returns (res: Outcome<Histograms>)
    ensures res.Ok? <==> OutPassSucceeds(g.vertices, g.edges)
    ensures res.Ok? <==>
              Distinct(g.OutDegrees())
              && forall i, j :: 0 <= i < |g.vertices| && 0 <= j < |g.vertices| ==>
                   g.OutDegrees()[i] != g.InDegrees()[j]
    ensures res.Ok? ==> res.value.byOut == map[]
    ensures res.Ok? ==> forall k :: k in res.value.byIn <==> k in g.InDegrees() || k in g.OutDegrees()
    ensures res.Ok? ==> forall k :: k in g.InDegrees() ==> res.value.byIn[k] == Occurrences(g.InDegrees(), k)
    ensures res.Ok? ==> forall k :: k in g.OutDegrees() ==> res.value.byIn[k] == 1
  {
    var byIn := DegreePass(g, true);
    res := OutDegreePassAsWritten(g, byIn);
    OutPassCondition(g.OutDegrees(), g.InDegrees());
    if res.Ok? {
      forall k ensures k in res.value.byIn <==> k in g.InDegrees() || k in g.OutDegrees() {
        AddOnesFacts(byIn, g.OutDegrees(), k);
      }
      forall k | k in g.InDegrees() ensures res.value.byIn[k] == Occurrences(g.InDegrees(), k) {
        AddOnesFacts(byIn, g.OutDegrees(), k);
      }
      forall k | k in g.OutDegrees() ensures res.value.byIn[k] == 1 {
        AddOnesFacts(byIn, g.OutDegrees(), k);
      }
    }
  }

  /**
   * The as-written out-degree pass succeeds exactly when the out-degrees are
   * pairwise distinct and none of them equals any in-degree.
   */
  lemma OutPassCondition(outs: seq<int>, ins: seq<int>)
    ensures FreshKeys(outs, Tally(ins)) <==>
              Distinct(outs) && forall i, j :: 0 <= i < |outs| && 0 <= j < |ins| ==> outs[i] != ins[j]
  {
    forall d {
      TallyCounts(ins, d);
    }
  }

  /**
   * The out-degree of one vertex equal to the in-degree of another (or of the
   * same) vertex makes the as-written out-degree pass fail.
   */
  lemma SharedDegreeBreaksOutPass(vertices: seq<string>, edges: seq<Edge>, i: int, j: int)
    requires 0 <= i < |vertices| && 0 <= j < |vertices|
    requires Occurrences(Sources(edges), vertices[i]) == Occurrences(Targets(edges), vertices[j])
    ensures !OutPassSucceeds(vertices, edges)
  {
    var ins := DegreeList(Targets(edges), vertices);
    var outs := DegreeList(Sources(edges), vertices);
    TallyCounts(ins, outs[i]);
    assert outs[i] == ins[j];
  }

  /** Two vertices with the same out-degree make the as-written pass fail. */
  lemma RepeatedOutDegreeBreaksOutPass(vertices: seq<string>, edges: seq<Edge>, i: int, j: int)
    requires 0 <= i < j < |vertices|
    requires Occurrences(Sources(edges), vertices[i]) == Occurrences(Sources(edges), vertices[j])
    ensures !OutPassSucceeds(vertices, edges)
  {
    var outs := DegreeList(Sources(edges), vertices);
    assert outs[i] == outs[j];
  }

  /**
   * Hence a well-formed graph with a single vertex, whose edges are all
   * self-loops, always makes the pass fail.
   */
  lemma SingleVertexBreaksOutPass(vertices: seq<string>, edges: seq<Edge>)
    requires WellFormed(vertices, edges) && |vertices| == 1
    ensures !OutPassSucceeds(vertices, edges)
  {
    forall k | 0 <= k < |edges| ensures Targets(edges)[k] == Sources(edges)[k] {
      assert edges[k] in edges;
    }
    assert Targets(edges) == Sources(edges);
    SharedDegreeBreaksOutPass(vertices, edges, 0, 0);
  }

  /**
   * The smallest failing input: one record A -> B. The in-degree pass gives
   * {0: 1, 1: 1}; the out-degree of A is 1, already a key, so its Add throws.
   */
  lemma SingleRecordBreaksOutPass()
    ensures var s := Imported([Record("A", "B", 1)]);
            s.vertices == ["A", "B"] && !OutPassSucceeds(s.vertices, s.edges)
  {
    var r := Record("A", "B", 1);
    var s := Imported([r]);
    assert [r][..0] == [];
    assert Imported([]) == Snapshot([], []);
    assert Imported([r]) == Step(Imported([r][..0]), r);
    assert s == Step(Snapshot([], []), r);
    assert s.vertices == ["A", "B"];
    assert s.edges == [Edge("A", "B", 1)];
    assert Targets(s.edges) == ["B"];
    assert Sources(s.edges) == ["A"];
    assert Occurrences(["A"], "A") == 1 by {
      assert ["A"][..0] == [];
    }
    assert Occurrences(["B"], "B") == 1 by {
      assert ["B"][..0] == [];
    }
    SharedDegreeBreaksOutPass(s.vertices, s.edges, 0, 1);
  }

  /**
   * A graph with vertices B, A and edges B -> A (weight 1), B -> A (weight 2)
   * and B -> B has in-degrees B: 1, A: 2 and out-degrees B: 3, A: 0.
   */
  lemma DisjointDegreesLists()
    ensures var es := [Edge("B", "A", 1), Edge("B", "A", 2), Edge("B", "B", 1)];
            && DegreeList(Targets(es), ["B", "A"]) == [1, 2]
            && DegreeList(Sources(es), ["B", "A"]) == [3, 0]
  {
    var es := [Edge("B", "A", 1), Edge("B", "A", 2), Edge("B", "B", 1)];
    var ts, ss := Targets(es), Sources(es);
    assert ts == ["A", "A", "B"] && ss == ["B", "B", "B"];
    assert ts[..2] == ["A", "A"] && ["A", "A"][..1] == ["A"] && ["A"][..0] == [];
    assert ss[..2] == ["B", "B"] && ["B", "B"][..1] == ["B"] && ["B"][..0] == [];
    assert Occurrences(ts, "B") == 1 && Occurrences(ts, "A") == 2;
    assert Occurrences(ss, "B") == 3 && Occurrences(ss, "A") == 0;
  }

  /** Out-degrees 3, 0 are all new keys of the histogram of in-degrees 1, 2. */
  lemma DisjointDegreesFresh()
    ensures FreshKeys([3, 0], Tally([1, 2]))
  {
    assert [1, 2][..1] == [1] && [1][..0] == [];
    assert Tally([1]) == map[1 := 1];
    assert Tally([1, 2]).Keys == {1, 2};
  }

  /**
   * ... so the as-written out-degree pass gets through that graph: the
   * success case is reachable.
   */
  lemma DisjointDegreesPassOutPass()
    ensures OutPassSucceeds(["B", "A"], [Edge("B", "A", 1), Edge("B", "A", 2), Edge("B", "B", 1)])
  {
    DisjointDegreesLists();
    DisjointDegreesFresh();
  }

  /**
   * Main from the import to the end of the out-degree pass: build the graph
   * from the records, then run both histogram passes as written.
   */
  method AnalyzeRecords(records: seq<Record>) returns (res: Outcome<Histograms>)
    ensures res.Ok? <==> OutPassSucceeds(Imported(records).vertices, Imported(records).edges)
    ensures res.Ok? ==> res.value.byOut == map[]
  {
    var g := ImportGraph(records);
    res := ComputeDegreeHistograms(g);
  }

  /**
   * The corrected passes: the out-degree pass upserts into its own
   * dictionary, exactly as the in-degree pass does. Both histograms then
   * count the vertices per degree and add up to the number of vertices.
   */
  method ComputeDegreeHistogramsCorrected(g: BidirectionalGraph) returns (h: Histograms)
    ensures h.byIn == Tally(g.InDegrees()) && h.byOut == Tally(g.OutDegrees())
    ensures forall d :: d in h.byIn ==> h.byIn[d] == Occurrences(g.InDegrees(), d)
    ensures forall d :: d in h.byOut ==> h.byOut[d] == Occurrences(g.OutDegrees(), d)
    ensures Total(h.byIn) == |g.vertices| && Total(h.byOut) == |g.vertices|
  {
    var byIn := DegreePass(g, true);
    var byOut := DegreePass(g, false);
    h := Histograms(byIn, byOut);
  }
}
