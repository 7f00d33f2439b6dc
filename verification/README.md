# Superread graph: a Dafny model

This project models the superread graph pipeline of `convex_qsr/graph.py`
(the superseal / convex-qsr quasispecies reconstruction tool) and proves
what it promises. A superread covers a half-open interval `[cv_start, cv_end)`
of covarying sites and carries one symbol per site (`vacs`). The pipeline
has five parts:

- a directed compatibility check between two superreads;
- a graph builder. It admits superreads by a weight cutoff, adds the `source`
  and `target` sentinels, and adds either every compatible edge (full mode) or
  the `edges_per_node` edges of largest overlap per node (reduced mode);
- a transitive reduction;
- two dynamic programs that count the `source` to `target` walks;
- an enumerator that builds one candidate row per walk, together with the
  list of superreads the row was chained from.

Modules, one per file:

- `Wrappers`: `Option`, `Result`, `Distinct`, small sequence helpers.
- `Fragments`: `Superread`, `Node`, Python slicing, `check_compatability`.
- `Graphs`: the graph value. Nodes are kept in insertion order. Edges are a
  map from endpoint pairs to an optional `overlap`, because sentinel edges have
  none. The module also holds well-formedness, predecessor and successor
  lists, and reachability.
- `Reduction`: the transitive reduction, defined as an edge filter.
- `Paths`: two reference enumerations of walks, forward into a node and
  backward out of a node. Each lists every walk exactly once.
- `Counting`: `dynamic_programming_path_count` and the forward count of
  `get_candidates`.
- `Candidates`: the explosion guard and the enumeration of `get_candidates`.
- `EdgeLists`: `get_full_edge_list`, `itertools.groupby` by source node, the
  stable descending sort by overlap, and `islice`.
- `Builder`: `initialize_superread_graph`, `create_full`, `create_reduced`.

Assumptions the model makes explicit:

- **Node order.** Nodes are inserted as `source`, `target`, then the
  admitted superreads in input order. The reduction rebuilds the edges by
  iterating the source nodes in node order, so each node's predecessors come
  in node order; that order decides the order of the candidate rows. A
  node's successors are inserted in the iteration order of a Python set. The
  model lists them in node order too, which is safe because successors only
  feed a sum and the count of walks.
- **Visit order.** The depth-first postorder and its reverse are given as
  parameters. `PostOrder` states what the backward pass relies on. `VisitOrder`
  states what the forward pass relies on:
  - each node appears once, and `source` does not appear;
  - every visited node is reachable from `source`;
  - the order is topological;
  - the set of visited nodes is closed under successors of `source` and of
    visited nodes.

  The reverse of a depth-first postorder from `source`, without `source`
  itself, has all of these properties.
- **Weight cutoff.** The quantile-based weight cutoff is a parameter of type
  `Cutoff`. It is either a threshold or NaN. NaN is what pandas returns for
  the quantile of an empty series, and it admits nothing.
- **Errors.** Both builders fail on empty input, because `max` over the
  `cv_end` values fails. Both can also fail in the reduction: networkx
  rejects a cycle, which arises when two admitted superreads are compatible
  in both directions and both edges are kept. `Buildable` rules that out for
  both builders (see `Builder.CreateFull` and `Builder.CreateReduced` under
  "Left out"). `create_reduced` also refuses a negative `edges_per_node` when
  some compatible pair exists, which `islice` rejects; `Builder.ReducedGraph`
  models that as `NegativeEdgesPerNode`. When no superread is admitted, the
  builders return a graph holding only the two sentinels and no edges.

## Model

| member | source | states |
|---|---|---|
| Fragments.CheckCompatibility | convex_qsr/graph.py:9-36 | A sentinel, a repeated index or intervals out of order give `(False, 0)`. Otherwise the overlap is `i.cv_end - j.cv_start`, between 1 and both lengths, and the pair is compatible exactly when the tail of i from `j.cv_start` equals the first `overlap` symbols of j and the overlap reaches the minimum |
| Fragments.Slice | convex_qsr/graph.py:29-30 | Python slicing with both bounds clamped to the length: the result's length, its contents position by position, and agreement with an in-bounds slice |
| Fragments.CompatibleIsMonotone | convex_qsr/graph.py:18-21 | A compatible pair is two distinct superreads whose start and end both do not decrease, which share at least one site, and whose overlap reaches the minimum |
| Fragments.SameIntervalSymmetric | convex_qsr/graph.py:14-35 | For two superreads with the same interval the check gives the same answer in both directions, and compatibility means equal symbols |
| Fragments.MutualCompatibility | convex_qsr/graph.py:18-21 | Compatibility in both directions forces equal intervals and equal symbols, so a cycle can only run through copies of one superread |
| Fragments.NeverSelfCompatible | convex_qsr/graph.py:12-13 | A node is never compatible with itself |
| Fragments.ShortOverlapExample | convex_qsr/graph.py:29-35 | "AAT" on sites 0-2 and "TCC" on sites 2-4 agree on one site. That is rejected at the default minimum of 2, accepted at minimum 1, and never accepted in the reverse direction |
| Graphs.NodesInto | convex_qsr/graph.py:177-183 | The predecessor list holds exactly the nodes with an edge into v, each once |
| Graphs.NodesIntoKeepsOrder | convex_qsr/graph.py:200-230 | Any two nodes of the predecessor list occur in that order in the node list, so the candidate rows are stacked predecessor by predecessor in node order |
| Graphs.NodesOutOf | convex_qsr/graph.py:111-114 | The successor list holds exactly the nodes with an edge out of u, each once |
| Graphs.SubgraphWellFormed | convex_qsr/graph.py:83-90 | Keeping the nodes and a subset of the edges keeps every graph invariant |
| Graphs.ReachTransitive | convex_qsr/graph.py:83-90 | Reachability composes |
| Reduction.TransitiveReduction | convex_qsr/graph.py:83-90 | The reduction is a well-formed graph on the same nodes. Its edges are a subset of the input's, and each keeps its original attributes |
| Reduction.SurvivesIffNoLongerWalk | convex_qsr/graph.py:84 | An edge u -> v is in the reduction exactly when it is an edge of the input and no walk of two or more edges joins u to v |
| Reduction.ReductionPreservesReach | convex_qsr/graph.py:83-90 | Reachability in the reduced graph equals reachability in the input, for every pair of nodes |
| Reduction.ReductionIsMinimal | convex_qsr/graph.py:84 | Deleting any surviving edge disconnects its endpoints |
| Reduction.ReductionIdempotent | convex_qsr/graph.py:83-90 | Reducing a reduced graph changes nothing |
| Paths.PathsToSound | convex_qsr/graph.py:175-184 | Every listed walk into v starts at `source`, ends at v and follows edges |
| Paths.PathsToComplete | convex_qsr/graph.py:175-184 | Every walk from `source` is listed among the walks into its last node |
| Paths.PathsToDistinct | convex_qsr/graph.py:175-184 | No walk into v is listed twice |
| Paths.PathsFromSound | convex_qsr/graph.py:105-116 | Every listed walk out of u starts at u, ends at `target` and follows edges |
| Paths.PathsFromComplete | convex_qsr/graph.py:105-116 | Every walk to `target` is listed among the walks out of its first node |
| Paths.PathsFromDistinct | convex_qsr/graph.py:105-116 | No walk out of u is listed twice |
| Paths.CompletePathCountsAgree | convex_qsr/graph.py:105-116 | Counting complete walks backward out of `source` and forward into `target` gives the same number |
| Paths.OutsideClosedSetUnreached | convex_qsr/graph.py:171-173 | A node outside a successor-closed set that holds `source` has no walk from `source` |
| Paths.ReachableHasPaths | convex_qsr/graph.py:171-173 | A node reachable from `source` has at least one walk from it |
| Counting.BackwardCountsCorrect | convex_qsr/graph.py:106-115 | After any prefix of a postorder, every node of the prefix holds its number of walks to `target` |
| Counting.DynamicProgrammingPathCount | convex_qsr/graph.py:105-116 | `dynamic_programming_path_count` returns the number of walks from `source` to `target` |
| Counting.MarkUncounted | convex_qsr/graph.py:177-179 | Unvisited predecessors get count 0, and every existing count is kept |
| Counting.ForwardCounts | convex_qsr/graph.py:175-184 | After the forward pass, `source` and every visited node have a count. Any other counted node is a predecessor of a visited node |
| Counting.ForwardCountsCorrect | convex_qsr/graph.py:175-184 | After any prefix of the visit order, every count equals the number of walks from `source` to its node, including the 0 given to unreached predecessors |
| Counting.EarlierOrUnreached | convex_qsr/graph.py:177-179 | A predecessor that is neither `source` nor visited earlier has no walk from `source` |
| Counting.ForwardCountsArePathCounts | convex_qsr/graph.py:175-185 | `npath(source)` is 1, and every visited node's count is its positive number of walks from `source` |
| Candidates.NewSymbols | convex_qsr/graph.py:196-206 | The suffix `vacs[a.cv_end - d.cv_start:]` has `d.cv_end - a.cv_end` symbols, so the offset always lies within `vacs` |
| Candidates.Enumerate | convex_qsr/graph.py:195-230 | After the traversal, `source` and every visited node have a table, and no other node does |
| Candidates.GetCandidates | convex_qsr/graph.py:164-233 | Three outcomes. "Target never reached" exactly when no walk joins `source` to `target`. Refused exactly when there are more than 10000 walks, with that number reported. Otherwise one row per walk, in walk order, each `n_cv` long, each with its describing superreads and spelling every node over its interval |
| Candidates.TargetCount | convex_qsr/graph.py:185-188 | `target` has a count exactly when some walk reaches it, and the count is the number of such walks |
| Candidates.TargetTable | convex_qsr/graph.py:231-233 | When `target` is visited, its table matches its walks and every row spans all `n_cv` sites |
| Candidates.TargetHasNoSuccessor | convex_qsr/graph.py:63-79 | Nothing leaves `target`: it sits at `[n_cv, n_cv]`, so in a well-formed graph no edge can start there |
| Candidates.ExtendDescribes | convex_qsr/graph.py:196-224 | Extending a row along an edge by the new symbols, and the list by the new superread, describes the longer walk. The overlap the edge guarantees keeps the earlier nodes spelled correctly |
| Candidates.ExtendTableMatches | convex_qsr/graph.py:208-220 | Extending every row of a predecessor matches the walks into it extended by the edge |
| Candidates.ConcatMatches | convex_qsr/graph.py:225-230 | Stacking two tables matches the concatenation of their walk lists |
| Candidates.GatherMatches | convex_qsr/graph.py:198-230 | Gathering over the predecessors gives one row per walk into the node, skipping only predecessors with no walk |
| Candidates.EnumerateCorrect | convex_qsr/graph.py:195-230 | After any prefix of the visit order, every table holds exactly one described row per walk into its node |
| Candidates.VisitedRowsMatchCounts | convex_qsr/graph.py:175-230 | At every visited node, rows and describing lists run parallel. There are as many as the node's forward count, which is positive, and each row spans `[0, cv_end)` of the node |
| EdgeLists.Block | convex_qsr/graph.py:43-53 | The arcs from one node are exactly its compatible pairs with the checker's overlap |
| EdgeLists.BlockKeepsOrder | convex_qsr/graph.py:43-53 | The arcs of a block follow the order of the inner `j` loop over the nodes |
| EdgeLists.BlockOnePerNode | convex_qsr/graph.py:43-53 | Over distinct nodes, a block holds at most one arc per target node |
| EdgeLists.FullEdgeList | convex_qsr/graph.py:39-54 | The full edge list holds exactly the compatible ordered pairs of nodes, each with its overlap |
| EdgeLists.GroupRuns | convex_qsr/graph.py:151 | `groupby` starts its first group with the first arc |
| EdgeLists.GroupRunsPrepend | convex_qsr/graph.py:151 | A run of one source node followed by arcs of another source node forms a group of its own |
| EdgeLists.GroupRunsAreBlocks | convex_qsr/graph.py:151 | Over the full edge list of distinct nodes, `groupby` yields exactly the non-empty per-node blocks, in node order |
| EdgeLists.Insert | convex_qsr/graph.py:153-155 | Insertion into a descending list keeps it descending and adds exactly one arc |
| EdgeLists.SortByOverlap | convex_qsr/graph.py:153-155 | The sort is descending by overlap and a permutation of its input |
| EdgeLists.SortIsStable | convex_qsr/graph.py:153-155 | Within every overlap value, the sorted arcs keep their input order |
| EdgeLists.TopEdges | convex_qsr/graph.py:156 | `islice` keeps `min(k, n)` arcs |
| EdgeLists.TopEdgesAreTheLargest | convex_qsr/graph.py:153-156 | The kept arcs are `min(k, n)` arcs drawn from the list. No arc with a larger overlap than a kept one is left out. Among equal overlaps the kept arcs are the first ones in list order |
| Builder.MaxCvEnd | convex_qsr/graph.py:61 | `n_cv` bounds every `cv_end` and equals one of them |
| Builder.Admitted | convex_qsr/graph.py:73-75 | A superread is admitted exactly when its weight reaches the cutoff |
| Builder.AdmissionNodes | convex_qsr/graph.py:73-75 | The admission loop appends exactly the admitted superreads to the nodes, in input order |
| Builder.AdmittedKeepsOrder | convex_qsr/graph.py:73-74 | The admitted superreads keep their input order |
| Builder.AdmissionEdges | convex_qsr/graph.py:76-79 | The admission loop adds exactly the sentinel edges, none carrying an overlap |
| Builder.InitializeGraph | convex_qsr/graph.py:57-80 | Empty input is an error. Otherwise `n_cv` is the largest `cv_end` and the nodes are `source`, `target`, then the admitted superreads. A superread is a node exactly when admitted. `source -> f` exists exactly when f is admitted and starts at 0, `f -> target` exactly when f is admitted and ends at `n_cv`, and there are no other edges. With nothing admitted, the graph holds only the two sentinels |
| Builder.AddArcs | convex_qsr/graph.py:100-101 | Adding arcs adds exactly their endpoint pairs, leaves other edges alone, and gives each added edge the overlap of an arc with those endpoints |
| Builder.FullGraphEdges | convex_qsr/graph.py:93-101 | Before the reduction, the full graph has exactly the sentinel edges without overlap and an edge between every compatible pair of nodes, carrying the checker's overlap |
| Builder.CheckerEdgeChained | convex_qsr/graph.py:18-36 | A compatible pair that is not compatible the other way runs strictly forward and agrees on its shared sites |
| Builder.SentinelEdgeChained | convex_qsr/graph.py:62-63 | Sentinel edges run forward and agree trivially |
| Builder.InitialNodesOk | convex_qsr/graph.py:60-75 | The initial nodes are distinct, and each has an interval inside `[0, n_cv]` with one symbol per site |
| Builder.FullEdgesChained | convex_qsr/graph.py:93-101 | Every edge of the full graph joins two of its nodes and runs forward between agreeing nodes |
| Builder.FullGraphWellFormed | convex_qsr/graph.py:93-101 | The full graph is acyclic and well formed, as the reduction requires |
| Builder.CreateFull | convex_qsr/graph.py:93-102 | `create_full` gives a well-formed graph on the initial nodes. Each of its edges is a sentinel edge without overlap or a compatible pair with the checker's overlap |
| Builder.CreateFullKeepsReach | convex_qsr/graph.py:102 | The reduction inside `create_full` keeps reachability between every pair of nodes |
| Builder.CheckerPairsListed | convex_qsr/graph.py:150-152 | The full edge list is empty exactly when no admitted superread is compatible with another |
| Builder.ReducedGraph | convex_qsr/graph.py:144-157 | Empty input is an error. Otherwise a negative `edges_per_node` is refused exactly when there is at least one compatible pair |
| Builder.TopOfBlock | convex_qsr/graph.py:153-156 | A kept arc starts at its block's node and is a compatible pair with the checker's overlap |
| Builder.KeptArcs | convex_qsr/graph.py:151-157 | An arc is added exactly when it is among the top `k` of its source node's block |
| Builder.ReducedArcs | convex_qsr/graph.py:147-157 | The reduced graph is the initial graph plus exactly the top `k` arcs of every node |
| Builder.ReducedGraphEdges | convex_qsr/graph.py:147-157 | Before the reduction, the reduced graph has exactly the sentinel edges and, from every node, the top `k` arcs of its block, each carrying the checker's overlap |
| Builder.ReducedCheckerEdge | convex_qsr/graph.py:156-157 | A checker edge of the reduced graph is one of the top arcs of its source node |
| Builder.ReducedHasTop | convex_qsr/graph.py:156-157 | Every top arc of a node is an edge of the reduced graph |
| Builder.ReducedKeepsLargest | convex_qsr/graph.py:153-157 | If a node keeps an edge to v, it also keeps an edge to every compatible w with a larger overlap |
| Builder.ReducedOutDegree | convex_qsr/graph.py:156-157 | Each node keeps at most `edges_per_node` checker edges |
| Builder.ReducedInsideFull | convex_qsr/graph.py:147-157 | Every edge of the reduced graph is an edge of the full graph, with the same attribute |
| Builder.CreateReduced | convex_qsr/graph.py:144-161 | `create_reduced` errs as `ReducedGraph` does. Otherwise it gives a well-formed graph on the initial nodes whose edges are sentinel edges or compatible pairs with the checker's overlap |

## Left out

- File and JSON I/O and node-link serialization (`graph_io`, `candidates_io`,
  `annotate_and_serialize_graph`, convex_qsr/graph.py:119-142, 236-242). These
  are input and output only. `graph_io` calls `create_full` with the default
  weight parameters.
- The pandas quantile (convex_qsr/graph.py:64-71). It is floating-point library
  numerics, so the cutoff it produces is a parameter. The `minimum_weight`
  filter only feeds that quantile.
- The `print` diagnostics (convex_qsr/graph.py:70-72, 159-160, 189-193).
- networkx depth-first traversal (convex_qsr/graph.py:107, 171-173). The
  postorder and the visit order are parameters, constrained by `PostOrder`
  and `VisitOrder`.
- numpy arrays (`hstack`, `vstack`, `repeat`). Candidate rows are strings and
  tables are sequences of rows. `np.vstack` of an empty list would raise. It
  cannot happen: `Candidates.VisitedRowsMatchCounts` shows every visited node
  gets at least one row.
- superseal/cli.py, superseal/io.py and tests/test_read_graph.py. They are
  argument wiring, file writers, and a test that needs data and classes that
  are not part of this model.
- Integer widths. Coordinates are `nat`, matching the non-negative site
  indices the extraction produces. Python integers do not overflow.
- Graphs.NodesOutOf: states membership and distinctness only. In the reduced
  graph the source orders successors by Python set iteration, which the
  model does not reproduce; the backward count sums over them and does not
  depend on the order.
- Builder.CreateFull: the cycle that networkx rejects is excluded by the
  precondition `Buildable` rather than modelled as an error. Under well-formed
  reads, a cycle exists in full mode exactly when two admitted superreads are
  compatible in both directions (`Fragments.MutualCompatibility`), and that is
  what `Buildable` rules out.
- Builder.CreateReduced: requires the same `Buildable`. It therefore also
  excludes inputs where a mutually compatible pair exists but reduced mode
  happens to drop one of the two edges, which the source would accept. When
  reduced mode keeps both edges of such a pair, the source raises networkx's
  cycle error, and `Buildable` excludes that case too.
- Builder.Buildable: a repeated index among admitted superreads is excluded,
  including the same superread listed twice. The source would merge such
  nodes and overwrite their attributes. Buildable also requires every
  admitted superread to span a non-empty interval with one symbol per site
  (`WellFormedRead`), which the read extraction guarantees. The source would
  still process an empty interval such as [0, 0): it adds `source -> f`, and
  f becomes a dead end. The model cannot hold that edge, because an edge must
  raise the rank `cv_start + cv_end`.
- Builder.ReducedOutDegree: states at most `edges_per_node` checker edges per
  node, not that exactly `min(edges_per_node, compatible successors)` are kept.
  The exact count holds for the arc list (`EdgeLists.TopEdges`).
- EdgeLists.TopEdgesAreTheLargest: the tie-break in encounter order is stated
  on a node's arc list, and that list is in node order. It is not restated as
  a relation between graph edges.
- Candidates.GetCandidates: a `KeyError` on a `target` with no count is
  modelled as the error `TargetNotReached`. Under `VisitOrder` the reverse
  postorder visits `target` exactly when it is reachable.
