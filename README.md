# Social network degree analysis, modelled in Dafny

This project models the working core of the Social-Network-Simulation
program (`SocialNetworkSimulation/SocialNetworkSimulation/Program.cs`).
That core has two parts:

- **Graph import** (`ImportGraphFromFile`). The program reads relationship
  records (source label, target label, weight). For each record it adds
  each endpoint as a vertex if that vertex is absent. It then builds an
  `Edge` and adds it if the graph does not already contain it.
- **Unweighted degree histograms** (`Main`). For every vertex, the
  in-degree pass increments the bucket of that vertex's in-degree in a
  `Dictionary<int, int>`. The out-degree pass is meant to do the same for
  out-degrees. As written, its `else` branch adds to the in-degree
  dictionary instead. The model keeps this behaviour and proves exactly
  when the pass completes and when it fails.

Modules:

- `Seqs`: distinct sequences, insert-if-absent, occurrence counts.
- `Edges`: the `Edge` value and its constructor.
- `Graphs`: the graph as a class with a vertex sequence and an edge
  sequence. It offers membership, insertion, in-degree and out-degree.
- `GraphImport`: the import loop. `ImportGraph` works on the graph object.
  It is proved against `Imported`, a fold of `Step` over the records.
- `Dictionaries`: the .NET `Dictionary` operations the histogram code calls.
  `Add` on a key that is already present yields `DuplicateKey` (the
  `ArgumentException`).
- `DegreeHistograms`: the two passes as written, the corrected pass, and
  lemmas that describe exactly when the as-written out-degree pass fails.

All source paths below are in `SocialNetworkSimulation/SocialNetworkSimulation/Program.cs`.

## Model

| member | source | states |
|---|---|---|
| `Edges.NewEdge` | SocialNetworkSimulation/SocialNetworkSimulation/Program.cs:144-154 | The constructed edge has the given source and target (the Contract.Ensures on Source and Target) and keeps the given weight |
| `Seqs.InsertIfAbsent` | SocialNetworkSimulation/SocialNetworkSimulation/Program.cs:99-104 | Adding an element that is already present changes nothing; afterwards the element is present, the old contents are a prefix, at most one element is added, and distinctness is kept |
| `Graphs.BidirectionalGraph.constructor` | SocialNetworkSimulation/SocialNetworkSimulation/Program.cs:81 | A new graph has no vertices and no edges |
| `Graphs.BidirectionalGraph.ContainsVertex` | SocialNetworkSimulation/SocialNetworkSimulation/Program.cs:99-103 | True exactly when some stored vertex is the given label |
| `Graphs.BidirectionalGraph.ContainsEdge` | SocialNetworkSimulation/SocialNetworkSimulation/Program.cs:107 | Value equality: true exactly when some stored edge has the same source, target and weight as the given edge (the library's identity comparison is not modelled, see below) |
| `Graphs.BidirectionalGraph.AddVertex` | SocialNetworkSimulation/SocialNetworkSimulation/Program.cs:99-104 | The vertex is present afterwards; a vertex already present leaves the graph unchanged; edges are untouched; the graph stays well formed |
| `Graphs.BidirectionalGraph.AddEdge` | SocialNetworkSimulation/SocialNetworkSimulation/Program.cs:107-108 | Given both endpoints are vertices, appends exactly that edge and changes nothing else (parallel edges are allowed) |
| `Graphs.BidirectionalGraph.InDegree` | SocialNetworkSimulation/SocialNetworkSimulation/Program.cs:34 | The number of stored edges whose target is `v`, found by counting edge positions. Parallel edges each count, and a self-loop at `v` counts here as well as in `OutDegree` |
| `Graphs.BidirectionalGraph.OutDegree` | SocialNetworkSimulation/SocialNetworkSimulation/Program.cs:55 | The number of stored edges whose source is `v`, found by counting edge positions. Parallel edges each count, and a self-loop at `v` counts here as well as in `InDegree` |
| `Graphs.DegreeSums` | SocialNetworkSimulation/SocialNetworkSimulation/Program.cs:34 | In a well-formed graph the in-degrees (line 34) and the out-degrees (line 55) of all vertices each add up to the number of edges |
| `GraphImport.RecordEdge` | SocialNetworkSimulation/SocialNetworkSimulation/Program.cs:106 | The edge built from a record has the record's source, target and weight |
| `GraphImport.Step` | SocialNetworkSimulation/SocialNetworkSimulation/Program.cs:98-108 | Processing one record inserts its endpoints and adds at most one edge. No edge is added if an equal edge is already stored. Existing vertices and edges stay as a prefix. Well-formedness and duplicate-free edges are kept |
| `GraphImport.ImportedWellFormed` | SocialNetworkSimulation/SocialNetworkSimulation/Program.cs:99-108 | After the import, vertices are distinct and both endpoints of every stored edge are vertices. No edge is stored twice, and there are at most as many edges as records |
| `GraphImport.ImportedVertices` | SocialNetworkSimulation/SocialNetworkSimulation/Program.cs:90-104 | A label is a vertex of the imported graph if and only if it is the source or target of some record |
| `GraphImport.ImportedEdges` | SocialNetworkSimulation/SocialNetworkSimulation/Program.cs:106-108 | An edge is stored if and only if it is the edge built from some record |
| `GraphImport.ImportedGrows` | SocialNetworkSimulation/SocialNetworkSimulation/Program.cs:90-109 | Later records never remove or change earlier vertices or edges: the graph imported from a prefix of the records is a prefix of the whole import |
| `GraphImport.DuplicateRecords` | SocialNetworkSimulation/SocialNetworkSimulation/Program.cs:106-108 | A repeated identical record adds no edge. Two records for the same pair with different weights give two parallel edges |
| `GraphImport.ImportRecord` | SocialNetworkSimulation/SocialNetworkSimulation/Program.cs:93-108 | One loop iteration on the graph object performs exactly one `Step` on its contents and keeps it well formed |
| `GraphImport.ImportGraph` | SocialNetworkSimulation/SocialNetworkSimulation/Program.cs:78-112 | Returns a new well-formed graph whose contents equal the fold of `Step`. Its vertices are exactly the record labels and its edges exactly the record edges, with no edge twice |
| `Dictionaries.Add` | SocialNetworkSimulation/SocialNetworkSimulation/Program.cs:45 | `Add` succeeds exactly when the key is absent, and then adds only that entry. On an existing key it fails with that key |
| `Dictionaries.ContainsKey` | SocialNetworkSimulation/SocialNetworkSimulation/Program.cs:36 | True exactly when the degree is already a key (line 36 for the in-degree dictionary, line 57 for the out-degree one) |
| `Dictionaries.TryGetValue` | SocialNetworkSimulation/SocialNetworkSimulation/Program.cs:39 | Reports whether the key is present, and gives its value or the default 0 |
| `Dictionaries.Remove` | SocialNetworkSimulation/SocialNetworkSimulation/Program.cs:40 | Drops the key and keeps every other entry |
| `DegreeHistograms.Bump` | SocialNetworkSimulation/SocialNetworkSimulation/Program.cs:36-46 | One upsert raises bucket `d` by one, or creates it with 1. Every other bucket is unchanged, and the key set gains only `d` |
| `DegreeHistograms.Upsert` | SocialNetworkSimulation/SocialNetworkSimulation/Program.cs:36-46 | ContainsKey, TryGetValue, Remove and Add(value + 1), or else Add(d, 1): neither Add meets an existing key, and together they are a single increment (`Bump`) |
| `DegreeHistograms.TallyHistogram` | SocialNetworkSimulation/SocialNetworkSimulation/Program.cs:29-47 | For the histogram of a degree list, bucket `d` holds the number of positions with degree `d`. Every key is some listed degree, and the counts add up to the length of the list |
| `DegreeHistograms.DegreePass` | SocialNetworkSimulation/SocialNetworkSimulation/Program.cs:29-47 | The in-degree pass: bucket `d` counts the vertices whose InDegree is `d`. Every key is some vertex's in-degree, and the counts add up to the number of vertices |
| `DegreeHistograms.AddOnesFacts` | SocialNetworkSimulation/SocialNetworkSimulation/Program.cs:64-67 | After the `else`-branch Adds, the keys are the old keys plus the added out-degrees. When every added out-degree was a new key, the old counts are kept and each out-degree counts 1 |
| `DegreeHistograms.OutDegreePassAsWritten` | SocialNetworkSimulation/SocialNetworkSimulation/Program.cs:50-68 | The out-degree dictionary stays empty. The pass completes if and only if the out-degrees are distinct and none is already an in-degree key; then each out-degree is added to the in-degree dictionary with count 1. Otherwise it fails on the first out-degree that is already a key |
| `DegreeHistograms.ComputeDegreeHistograms` | SocialNetworkSimulation/SocialNetworkSimulation/Program.cs:27-68 | Both passes as written complete if and only if no out-degree repeats and no out-degree equals any in-degree. On completion the out-degree histogram is empty, and the in-degree histogram holds the true in-degree counts plus each out-degree counted once |
| `DegreeHistograms.OutPassCondition` | SocialNetworkSimulation/SocialNetworkSimulation/Program.cs:57-67 | The out-degrees are fresh keys of the in-degree histogram if and only if they are pairwise distinct and differ from every in-degree |
| `DegreeHistograms.SharedDegreeBreaksOutPass` | SocialNetworkSimulation/SocialNetworkSimulation/Program.cs:66 | If some vertex's out-degree equals some vertex's in-degree (possibly the same vertex), the as-written pass fails |
| `DegreeHistograms.RepeatedOutDegreeBreaksOutPass` | SocialNetworkSimulation/SocialNetworkSimulation/Program.cs:66 | If two vertices have the same out-degree, the as-written pass fails |
| `DegreeHistograms.SingleVertexBreaksOutPass` | SocialNetworkSimulation/SocialNetworkSimulation/Program.cs:66 | A well-formed graph with one vertex always makes the as-written pass fail |
| `DegreeHistograms.SingleRecordBreaksOutPass` | SocialNetworkSimulation/SocialNetworkSimulation/Program.cs:66 | Importing the single record A -> B and running the passes fails: A's out-degree 1 is already a key of the in-degree histogram |
| `DegreeHistograms.DisjointDegreesPassOutPass` | SocialNetworkSimulation/SocialNetworkSimulation/Program.cs:50-68 | The completing case is reachable. Vertices B, A with edges B -> A (weight 1), B -> A (weight 2) and B -> B have out-degrees 3 and 0 and in-degrees 1 and 2 |
| `DegreeHistograms.AnalyzeRecords` | SocialNetworkSimulation/SocialNetworkSimulation/Program.cs:25-68 | Main from the import to the end of the out-degree pass. It completes exactly when the graph imported from the records meets the condition above, and the out-degree histogram is then empty |
| `DegreeHistograms.ComputeDegreeHistogramsCorrected` | SocialNetworkSimulation/SocialNetworkSimulation/Program.cs:50-68 | With the out-degree pass writing to its own dictionary, both histograms count the vertices per degree, and each adds up to the number of vertices |

## Findings

| source | as written | input that shows it | evidently intended | confidence | as-written member | corrected member |
|---|---|---|---|---|---|---|
| SocialNetworkSimulation/SocialNetworkSimulation/Program.cs:66 | The `else` branch of the out-degree pass calls `numberOfVerticesByInDegree.Add(degree, 1)`. The out-degree dictionary therefore never gains a key, and every vertex adds its out-degree to the in-degree dictionary | The single record (A, B, 1). The in-degree pass leaves {0: 1, 1: 1}. A's out-degree is 1, already a key, so `Add` throws | `numberOfVerticesByOutDegree.Add(degree, 1)`, giving an out-degree histogram built like the in-degree one | high; not executed | `DegreeHistograms.OutDegreePassAsWritten` (counterexample: `DegreeHistograms.SingleRecordBreaksOutPass`) | `DegreeHistograms.ComputeDegreeHistogramsCorrected` |

`AnalyzeRecords` keeps the as-written pass, because that is what the program
does. The corrected histograms come from `DegreePass` applied to out-degrees.

## Left out

- File and directory handling is not modelled: the data directory setup
  (lines 21-22), the `StreamReader`/`CsvReader` reading and `GetField`
  parsing (lines 84-95), and the final `Console.Read` (line 75). The records
  are an input sequence of already-parsed rows. Malformed rows, which would
  make `GetField` throw, are not modelled.
- The QuickGraph library's code is not part of this model.
  `BidirectionalGraph` is modelled as a vertex sequence plus an edge
  sequence. The vertex sequence is in insertion order, which is taken to be
  the enumeration order of `graph.Vertices`. Neither pass's outcome depends
  on that order; only the key reported on failure does.
- `ContainsEdge` is modelled as value equality on (source, target, weight).
  `Edge<TVertex>` does not override `Equals`, so the library's default
  comparer would compare object identity. Under that reading a freshly built
  edge is never found, and every record would add an edge. Object identity
  of edges is not modelled; an edge is a value.
- The code passes the whole edge to `ContainsEdge`, not the (source, target)
  pair. Under the value-equality reading taken here the weight takes part
  in the comparison. A de-duplication keyed on (source, target) alone would
  keep only the first weight for a pair. Here, two records for the same pair
  with different weights give two parallel edges (`DuplicateRecords`), and
  the graph is created with parallel edges allowed. Under the library's
  identity comparison, even an identical repeated record would add a second
  edge. The model does not capture that.
- A histogram whose counts add up to the number of vertices is not what the
  program as written produces. The out-degree histogram stays empty, and the
  in-degree dictionary gains extra keys. That total is proved for the
  in-degree pass and for the corrected out-degree pass.
- Shortest paths (Dijkstra), closeness centrality, weighted degrees and the
  mirrored undirected graph are not modelled: the program does not implement
  them (lines 70-72 are placeholders).
- The unused `Vertex` class (lines 116-129), the unused `edges` list (line 88),
  `ToString` and `DebuggerDisplay` (lines 131, 180-183), and the null checks
  of the `Edge` constructor (lines 146-147) are not modelled. Dafny strings
  are never null.
- 32-bit `int` arithmetic is not modelled. Weights are never used in
  arithmetic. Counts are at most the number of vertices, so `tempValue + 1`
  cannot overflow for any graph that fits in memory.
- A failing `Dictionary.Add` throws an `ArgumentException` that ends the
  program. The model returns `DuplicateKey(key)` and drops the partially
  updated dictionary, since nothing reads it afterwards.
