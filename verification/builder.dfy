/** Building the superread graph: admitting superreads by a weight cutoff,
    the sentinel edges, and the full and reduced builders that add checker
    edges before the transitive reduction. */
module Builder {
  import opened Wrappers
  import opened Fragments
  import opened Graphs
  import opened EdgeLists
  import opened Reduction

  /** The weight cutoff: a quantile of the weights that reach the minimum
      weight, or NaN when none does (the quantile of an empty series). */
  datatype Cutoff = Threshold(value: real) | NotANumber

  /** `weight >= weight_cutoff`; every comparison with NaN is false. */
  predicate Admits(c: Cutoff, sr: Superread) {
    c.Threshold? && sr.weight as real >= c.value
  }

  datatype BuildError =
    | NoSuperreads              // `max` of an empty list
    | NegativeEdgesPerNode      // `islice` refuses a negative stop

  /** `n_cv`: the largest `cv_end` of any input superread. */
  function MaxCvEnd(srs: seq<Superread>): (n: nat)
    requires srs != []
    ensures forall sr | sr in srs :: sr.cvEnd <= n
    ensures exists sr | sr in srs :: sr.cvEnd == n
  {
    if |srs| == 1 then srs[0].cvEnd
    else
      var rest := MaxCvEnd(srs[1..]);
      assert forall sr | sr in srs :: sr == srs[0] || sr in srs[1..];
      if srs[0].cvEnd >= rest then srs[0].cvEnd else rest
  }

  /** The superreads that pass the cutoff, in input order (`AdmittedKeepsOrder`). */
  function Admitted(srs: seq<Superread>, c: Cutoff): (r: seq<Superread>)
    ensures forall sr :: sr in r <==> sr in srs && Admits(c, sr)
  {
    if srs == [] then []
    else (if Admits(c, srs[0]) then [srs[0]] else []) + Admitted(srs[1..], c)
  }

  /** The filter keeps input order. */
  lemma {:induction false} AdmittedKeepsOrder(srs: seq<Superread>, c: Cutoff)
    ensures forall i, j | 0 <= i < j < |Admitted(srs, c)| :: InOrder(srs, Admitted(srs, c)[i], Admitted(srs, c)[j])
    decreases |srs|
  {
    if srs != [] {
      AdmittedKeepsOrder(srs[1..], c);
      FilterStepKeepsOrder(srs, Admitted(srs, c), Admitted(srs[1..], c), Admits(c, srs[0]));
    }
  }

  function FragmentsOf(srs: seq<Superread>): (r: seq<Node>)
    ensures |r| == |srs| && forall k | 0 <= k < |r| :: r[k] == Fragment(srs[k])
  {
    seq(|srs|, k requires 0 <= k < |srs| => Fragment(srs[k]))
  }

  /** The edges `initialize_superread_graph` adds: `source` to each admitted
      superread starting at site 0, each admitted superread ending at site
      `nCv` to `target`. */
  predicate SentinelEdge(nCv: nat, srs: seq<Superread>, c: Cutoff, u: Node, v: Node) {
    || (u == Source && v.Fragment? && v.read in srs && Admits(c, v.read) && v.read.cvStart == 0)
    || (v == Target && u.Fragment? && u.read in srs && Admits(c, u.read) && u.read.cvEnd == nCv)
  }

  /** One pass of the admission loop: the node and its sentinel edges, which
      carry no overlap. */
  function AddSuperread(g: Graph, sr: Superread, c: Cutoff): Graph {
    if !Admits(c, sr) then g
    else
      var f := Fragment(sr);
      var e1 := if sr.cvStart == 0 then g.edges[(Source, f) := None] else g.edges;
      var e2 := if sr.cvEnd == g.nCv then e1[(f, Target) := None] else e1;
      Graph(g.nCv, g.nodes + [f], e2)
  }

  /** The admission loop over the input in order. */
  function AddSuperreads(g: Graph, srs: seq<Superread>, c: Cutoff): (r: Graph)
    ensures r.nCv == g.nCv
    decreases srs
  {
    if srs == [] then g
    else AddSuperreads(AddSuperread(g, srs[0], c), srs[1..], c)
  }

  /** The admitted superreads join the nodes in input order. */
  lemma {:induction false} AdmissionNodes(g: Graph, srs: seq<Superread>, c: Cutoff)
    ensures AddSuperreads(g, srs, c).nodes == g.nodes + FragmentsOf(Admitted(srs, c))
    decreases srs
  {
    if srs != [] {
      var h := AddSuperread(g, srs[0], c);
      var rest := Admitted(srs[1..], c);
      AdmissionNodes(h, srs[1..], c);
      if Admits(c, srs[0]) {
        assert Admitted(srs, c) == [srs[0]] + rest;
        FragmentsOfCons(srs[0], rest);
        ConcatAssoc(g.nodes, [Fragment(srs[0])], FragmentsOf(rest));
      } else {
        assert Admitted(srs, c) == rest;
      }
    }
  }

  /** A superread is among the initial nodes exactly when it is admitted. */
  lemma FragmentMembers(adm: seq<Superread>)
    ensures forall sr :: Fragment(sr) in [Source, Target] + FragmentsOf(adm) <==> sr in adm
  {
    var nodes := [Source, Target] + FragmentsOf(adm);
    forall sr
      ensures Fragment(sr) in nodes <==> sr in adm
    {
      if sr in adm {
        var k :| 0 <= k < |adm| && adm[k] == sr;
        assert nodes[k + 2] == Fragment(sr);
      }
      if Fragment(sr) in nodes {
        var k :| 0 <= k < |nodes| && nodes[k] == Fragment(sr);
        assert adm[k - 2] == sr;
      }
    }
  }

  lemma FragmentsOfCons(sr: Superread, b: seq<Superread>)
    ensures FragmentsOf([sr] + b) == [Fragment(sr)] + FragmentsOf(b)
  {
  }

  /** The admission loop adds exactly the sentinel edges, none with an overlap. */
  lemma {:induction false} AdmissionEdges(g: Graph, srs: seq<Superread>, c: Cutoff)
    ensures var r := AddSuperreads(g, srs, c);
      forall e: (Node, Node) :: e in r.edges <==> e in g.edges || SentinelEdge(g.nCv, srs, c, e.0, e.1)
    ensures var r := AddSuperreads(g, srs, c);
      (forall e | e in g.edges :: g.edges[e] == None) ==> forall e | e in r.edges :: r.edges[e] == None
    decreases srs
  {
    if srs != [] {
      var h := AddSuperread(g, srs[0], c);
      AdmissionEdges(h, srs[1..], c);
      AdmissionStep(g, srs[0], c);
      forall e: (Node, Node)
        ensures SentinelEdge(g.nCv, srs, c, e.0, e.1) <==>
          SentinelEdge(g.nCv, [srs[0]], c, e.0, e.1) || SentinelEdge(g.nCv, srs[1..], c, e.0, e.1)
      {
        assert forall sr :: sr in srs <==> sr == srs[0] || sr in srs[1..];
      }
    }
  }

  lemma AdmissionStep(g: Graph, sr: Superread, c: Cutoff)
    ensures var h := AddSuperread(g, sr, c);
      && h.nCv == g.nCv
      && (forall e: (Node, Node) :: e in h.edges <==> e in g.edges || SentinelEdge(g.nCv, [sr], c, e.0, e.1))
      && (forall e | e in h.edges && e !in g.edges :: h.edges[e] == None)
      && (forall e | e in g.edges :: h.edges[e] == g.edges[e] || h.edges[e] == None)
  {
  }

  /** `initialize_superread_graph` with the cutoff given. */
  function InitializeGraph(srs: seq<Superread>, c: Cutoff): (r: Result<Graph, BuildError>)
    ensures r.Err? <==> srs == []
    ensures r.Err? ==> r.error == NoSuperreads
    ensures r.Ok? ==>
      && (forall sr | sr in srs :: sr.cvEnd <= r.value.nCv)
      && (exists sr | sr in srs :: sr.cvEnd == r.value.nCv)
      && r.value.nodes == [Source, Target] + FragmentsOf(Admitted(srs, c))
      && (forall sr :: Fragment(sr) in r.value.nodes <==> sr in srs && Admits(c, sr))
      && (forall e: (Node, Node) :: e in r.value.edges <==> SentinelEdge(r.value.nCv, srs, c, e.0, e.1))
      && (forall e | e in r.value.edges :: r.value.edges[e] == None)
  {
    if srs == [] then Err(NoSuperreads)
    else
      var g0 := Graph(MaxCvEnd(srs), [Source, Target], map[]);
      var g := AddSuperreads(g0, srs, c);
      AdmissionNodes(g0, srs, c);
      AdmissionEdges(g0, srs, c);
      FragmentMembers(Admitted(srs, c));
      Ok(g)
  }

  // ---------------------------------------------------------------------
  // Checker edges

  /** The endpoint pairs of a list of arcs. */
  function ArcPairs(arcs: seq<Arc>): set<(Node, Node)> {
    set a | a in arcs :: (a.i, a.j)
  }

  /** `G.add_edge(i, j, overlap=...)` for each arc in order; adding an edge
      again overwrites its overlap. */
  function AddArcs(edges: map<(Node, Node), Option<nat>>, arcs: seq<Arc>): (r: map<(Node, Node), Option<nat>>)
    ensures r.Keys == edges.Keys + ArcPairs(arcs)
    ensures forall e | e in edges && e !in ArcPairs(arcs) :: r[e] == edges[e]
    ensures forall e | e in ArcPairs(arcs) :: exists a | a in arcs :: (a.i, a.j) == e && r[e] == Some(a.overlap)
    decreases arcs
  {
    if arcs == [] then edges
    else
      var a := arcs[0];
      var r := AddArcs(edges[(a.i, a.j) := Some(a.overlap)], arcs[1..]);
      ArcPairsCons(arcs);
      EveryPairFromAnArc(arcs, r);
      r
  }

  lemma ArcPairsCons(arcs: seq<Arc>)
    requires arcs != []
    ensures ArcPairs(arcs) == {(arcs[0].i, arcs[0].j)} + ArcPairs(arcs[1..])
  {
    assert arcs == [arcs[0]] + arcs[1..];
  }

  /** If the later arcs account for their own pairs and the first arc's pair
      keeps its overlap unless a later arc repeats it, every pair's value
      comes from some arc. */
  lemma EveryPairFromAnArc(arcs: seq<Arc>, r: map<(Node, Node), Option<nat>>)
    requires arcs != [] && ArcPairs(arcs) == {(arcs[0].i, arcs[0].j)} + ArcPairs(arcs[1..])
    requires ArcPairs(arcs) <= r.Keys
    requires (arcs[0].i, arcs[0].j) !in ArcPairs(arcs[1..]) ==> r[(arcs[0].i, arcs[0].j)] == Some(arcs[0].overlap)
    requires forall e | e in ArcPairs(arcs[1..]) :: exists b | b in arcs[1..] :: (b.i, b.j) == e && r[e] == Some(b.overlap)
    ensures forall e | e in ArcPairs(arcs) :: exists b | b in arcs :: (b.i, b.j) == e && r[e] == Some(b.overlap)
  {
    var a := arcs[0];
    forall e | e in ArcPairs(arcs)
      ensures exists b | b in arcs :: (b.i, b.j) == e && r[e] == Some(b.overlap)
    {
      if e !in ArcPairs(arcs[1..]) {
        assert (a.i, a.j) == e && r[e] == Some(a.overlap);
      } else {
        var b :| b in arcs[1..] && (b.i, b.j) == e && r[e] == Some(b.overlap);
        assert b in arcs;
      }
    }
  }

  /** The edge the checker allows from u to v. */
  predicate CheckerEdge(u: Node, v: Node) {
    CheckCompatibility(u, v, DefaultMinimumOverlap).compatible
  }

  function Overlap(u: Node, v: Node): nat {
    CheckCompatibility(u, v, DefaultMinimumOverlap).overlap
  }

  /** Adding checker arcs, each carrying the checker's overlap, to edges
      without an overlap between pairs the checker rejects: every edge
      carries an overlap exactly when the checker allows it, and then the
      checker's. */
  lemma ArcValues(edges: map<(Node, Node), Option<nat>>, arcs: seq<Arc>, u: Node, v: Node)
    requires forall e | e in edges :: edges[e] == None && !CheckerEdge(e.0, e.1)
    requires forall a | a in arcs :: CheckerEdge(a.i, a.j) && a.overlap == Overlap(a.i, a.j)
    requires (u, v) in AddArcs(edges, arcs)
    ensures AddArcs(edges, arcs)[(u, v)] == if CheckerEdge(u, v) then Some(Overlap(u, v)) else None
  {
    var r := AddArcs(edges, arcs);
    if (u, v) in ArcPairs(arcs) {
      var a :| a in arcs && (a.i, a.j) == (u, v) && r[(u, v)] == Some(a.overlap);
    } else {
      assert (u, v) in edges;
    }
  }

  /** The checker rejects every pair with a sentinel. */
  lemma SentinelNotChecker(nCv: nat, srs: seq<Superread>, c: Cutoff, u: Node, v: Node)
    requires SentinelEdge(nCv, srs, c, u, v)
    ensures !CheckerEdge(u, v)
  {
    assert !Comparable(u, v);
  }

  /** The initial edges carry no overlap and join no checker pair. */
  lemma InitialEdgesPlain(srs: seq<Superread>, c: Cutoff)
    requires srs != []
    ensures var g0 := InitializeGraph(srs, c).value;
      forall e | e in g0.edges :: g0.edges[e] == None && !CheckerEdge(e.0, e.1)
  {
    var g0 := InitializeGraph(srs, c).value;
    forall e | e in g0.edges
      ensures g0.edges[e] == None && !CheckerEdge(e.0, e.1)
    {
      SentinelNotChecker(g0.nCv, srs, c, e.0, e.1);
    }
  }

  /** The graph `create_full` builds before the reduction: the initialized
      graph with every arc of the full edge list added. */
  function FullGraph(srs: seq<Superread>, c: Cutoff): (r: Result<Graph, BuildError>)
    ensures r.Err? <==> srs == []
  {
    match InitializeGraph(srs, c)
    case Err(e) => Err(e)
    case Ok(g) => Ok(g.(edges := AddArcs(g.edges, FullEdgeList(g.nodes, g.nodes))))
  }

  /** The full graph holds exactly the sentinel edges, without an overlap,
      and an edge between every checker-compatible pair of nodes, carrying
      the checker's overlap. */
  lemma FullGraphEdges(srs: seq<Superread>, c: Cutoff)
    requires srs != []
    ensures var g := FullGraph(srs, c).value;
      && g.nodes == [Source, Target] + FragmentsOf(Admitted(srs, c))
      && (forall u, v :: HasEdge(g, u, v) <==>
            SentinelEdge(g.nCv, srs, c, u, v) || (u in g.nodes && v in g.nodes && CheckerEdge(u, v)))
      && (forall u, v | HasEdge(g, u, v) :: g.edges[(u, v)] == if CheckerEdge(u, v) then Some(Overlap(u, v)) else None)
  {
    var g0 := InitializeGraph(srs, c).value;
    var arcs := FullEdgeList(g0.nodes, g0.nodes);
    var g := FullGraph(srs, c).value;
    assert g == g0.(edges := AddArcs(g0.edges, arcs));
    FullArcPairs(g0.nodes);
    InitialEdgesPlain(srs, c);
    forall u, v | HasEdge(g, u, v)
      ensures g.edges[(u, v)] == if CheckerEdge(u, v) then Some(Overlap(u, v)) else None
    {
      ArcValues(g0.edges, arcs, u, v);
    }
  }

  /** The full edge list joins exactly the checker pairs of nodes. */
  lemma FullArcPairs(nodes: seq<Node>)
    ensures forall u, v :: (u, v) in ArcPairs(FullEdgeList(nodes, nodes)) <==>
      u in nodes && v in nodes && CheckerEdge(u, v)
  {
    var arcs := FullEdgeList(nodes, nodes);
    forall u, v
      ensures (u, v) in ArcPairs(arcs) <==> u in nodes && v in nodes && CheckerEdge(u, v)
    {
      if u in nodes && v in nodes && CheckerEdge(u, v) {
        assert Arc(u, v, Overlap(u, v)) in arcs;
      }
    }
  }

  // ---------------------------------------------------------------------
  // What the builders need of their input

  predicate UniqueIndices(srs: seq<Superread>) {
    forall i, j | 0 <= i < j < |srs| :: srs[i].index != srs[j].index
  }

  /** The input the builders are meant for: admitted superreads have
      distinct indices (a repeated index would overwrite a node), one symbol
      per site of a non-empty interval, and no two of them are compatible
      in both directions (that would be a cycle, which the reduction
      rejects). */
  predicate Buildable(srs: seq<Superread>, c: Cutoff) {
    var adm := Admitted(srs, c);
    && UniqueIndices(adm)
    && (forall sr | sr in adm :: WellFormedRead(sr))
    && (forall a, b | a in adm && b in adm ::
          !(CheckerEdge(Fragment(a), Fragment(b)) && CheckerEdge(Fragment(b), Fragment(a))))
  }

  /** A checker edge that is not mutual satisfies everything a graph edge must. */
  lemma CheckerEdgeChained(nCv: nat, u: Node, v: Node)
    requires u.Fragment? && v.Fragment? && WellFormedRead(u.read) && WellFormedRead(v.read)
    requires u.read.cvEnd <= nCv && v.read.cvEnd <= nCv
    requires CheckerEdge(u, v) && !CheckerEdge(v, u)
    ensures Chained(nCv, u, v)
  {
    var a, b := u.read, v.read;
    CompatibleIsMonotone(u, v, DefaultMinimumOverlap);
    if a.cvStart == b.cvStart && a.cvEnd == b.cvEnd {
      SameIntervalSymmetric(u, v, DefaultMinimumOverlap);
    }
    assert a.cvStart + a.cvEnd < b.cvStart + b.cvEnd;
    assert a.vacs[b.cvStart - a.cvStart..] == b.vacs[..a.cvEnd - b.cvStart];
    ReadsChained(nCv, a, b);
  }

  /** Two superreads in order, sharing the symbols of their common sites, are
      chained. */
  lemma ReadsChained(nCv: nat, a: Superread, b: Superread)
    requires WellFormedRead(a) && WellFormedRead(b) && a.cvEnd <= nCv && b.cvEnd <= nCv
    requires a.cvStart <= b.cvStart <= a.cvEnd <= b.cvEnd
    requires a.cvStart + a.cvEnd < b.cvStart + b.cvEnd
    requires a.vacs[b.cvStart - a.cvStart..] == b.vacs[..a.cvEnd - b.cvStart]
    ensures Chained(nCv, Fragment(a), Fragment(b))
  {
  }

  /** Sentinel edges satisfy everything a graph edge must. */
  lemma SentinelEdgeChained(nCv: nat, srs: seq<Superread>, c: Cutoff, u: Node, v: Node)
    requires SentinelEdge(nCv, srs, c, u, v)
    requires forall sr | sr in srs && Admits(c, sr) :: WellFormedRead(sr) && sr.cvEnd <= nCv
    ensures Chained(nCv, u, v)
  {
    if u == Source {
      assert Vacs(v)[..0] == [];
    }
  }

  /** The nodes `initialize_superread_graph` adds are distinct and each has
      a consistent interval inside [0, nCv]. */
  lemma InitialNodesOk(srs: seq<Superread>, c: Cutoff)
    requires srs != [] && Buildable(srs, c)
    ensures var g := InitializeGraph(srs, c).value;
      Distinct(g.nodes) && forall n | n in g.nodes :: NodeOk(g.nCv, n)
  {
    var g := InitializeGraph(srs, c).value;
    var adm := Admitted(srs, c);
    InitialNodesDistinct(srs, c);
    forall n | n in g.nodes
      ensures NodeOk(g.nCv, n)
    {
      if n.Fragment? {
        assert n.read in adm;
      }
    }
  }

  /** Every edge of the full graph runs forward between agreeing nodes. */
  lemma FullEdgesChained(srs: seq<Superread>, c: Cutoff, u: Node, v: Node)
    requires srs != [] && Buildable(srs, c)
    requires HasEdge(FullGraph(srs, c).value, u, v)
    ensures var g := FullGraph(srs, c).value;
      u in g.nodes && v in g.nodes && Chained(g.nCv, u, v)
  {
    var g := FullGraph(srs, c).value;
    var adm := Admitted(srs, c);
    FullGraphEdges(srs, c);
    if SentinelEdge(g.nCv, srs, c, u, v) {
      SentinelEdgeChained(g.nCv, srs, c, u, v);
      assert u.Fragment? ==> Fragment(u.read) in g.nodes;
      assert v.Fragment? ==> Fragment(v.read) in g.nodes;
    } else {
      assert u.read in adm && v.read in adm;
      CheckerEdgeChained(g.nCv, u, v);
    }
  }

  /** The full graph is a well-formed graph: distinct nodes with consistent
      intervals, and every edge runs forward between agreeing superreads. */
  lemma FullGraphWellFormed(srs: seq<Superread>, c: Cutoff)
    requires srs != [] && Buildable(srs, c)
    ensures WellFormed(FullGraph(srs, c).value)
  {
    var g := FullGraph(srs, c).value;
    InitialNodesOk(srs, c);
    assert g.nodes == InitializeGraph(srs, c).value.nodes;
    forall e | e in g.edges
      ensures e.0 in g.nodes && e.1 in g.nodes && Chained(g.nCv, e.0, e.1)
    {
      FullEdgesChained(srs, c, e.0, e.1);
    }
  }

  /** `create_full`: the full graph, transitively reduced. */
  function CreateFull(srs: seq<Superread>, c: Cutoff): (r: Result<Graph, BuildError>)
    requires Buildable(srs, c)
    ensures r.Err? <==> srs == []
    ensures r.Ok? ==>
      && WellFormed(r.value)
      && r.value.nodes == [Source, Target] + FragmentsOf(Admitted(srs, c))
      && forall u, v | HasEdge(r.value, u, v) ::
           && (SentinelEdge(r.value.nCv, srs, c, u, v) || CheckerEdge(u, v))
           && r.value.edges[(u, v)] == if CheckerEdge(u, v) then Some(Overlap(u, v)) else None
  {
    match FullGraph(srs, c)
    case Err(e) => Err(e)
    case Ok(g) =>
      FullGraphWellFormed(srs, c);
      FullGraphEdges(srs, c);
      Ok(TransitiveReduction(g))
  }

  /** The reduction inside `create_full` keeps reachability: one node reaches
      another in the built graph exactly when it does using every
      compatible edge. */
  lemma CreateFullKeepsReach(srs: seq<Superread>, c: Cutoff, u: Node, v: Node)
    requires Buildable(srs, c) && srs != []
    ensures WellFormed(FullGraph(srs, c).value)
    ensures Reach(CreateFull(srs, c).value, u, v) <==> Reach(FullGraph(srs, c).value, u, v)
  {
    var g := FullGraph(srs, c).value;
    FullGraphWellFormed(srs, c);
    var r := CreateFull(srs, c).value;
    assert r == TransitiveReduction(g);
    ReductionPreservesReach(g, u, v);
  }

  // ---------------------------------------------------------------------
  // create_reduced

  /** The arcs `create_reduced` adds: the top `k` of every group. */
  function KeepTop(groups: seq<seq<Arc>>, k: nat): seq<Arc> {
    if groups == [] then [] else TopEdges(groups[0], k) + KeepTop(groups[1..], k)
  }

  /** Some admitted superread is compatible with another. */
  predicate HasCheckerPair(srs: seq<Superread>, c: Cutoff) {
    exists a, b | a in Admitted(srs, c) && b in Admitted(srs, c) :: CheckerEdge(Fragment(a), Fragment(b))
  }

  /** The full edge list is empty exactly when no admitted superread is
      compatible with another. */
  lemma CheckerPairsListed(srs: seq<Superread>, c: Cutoff)
    requires srs != []
    ensures var nodes := InitializeGraph(srs, c).value.nodes;
      FullEdgeList(nodes, nodes) != [] <==> HasCheckerPair(srs, c)
  {
    var nodes := InitializeGraph(srs, c).value.nodes;
    PairsListed(nodes, Admitted(srs, c));
  }

  lemma PairsListed(nodes: seq<Node>, adm: seq<Superread>)
    requires forall sr :: Fragment(sr) in nodes <==> sr in adm
    ensures FullEdgeList(nodes, nodes) != [] <==>
      exists a, b | a in adm && b in adm :: CheckerEdge(Fragment(a), Fragment(b))
  {
    if FullEdgeList(nodes, nodes) != [] {
      ListedIsPair(nodes, adm);
    }
    if exists a, b | a in adm && b in adm :: CheckerEdge(Fragment(a), Fragment(b)) {
      var a, b :| a in adm && b in adm && CheckerEdge(Fragment(a), Fragment(b));
      PairIsListed(nodes, Fragment(a), Fragment(b));
    }
  }

  lemma ListedIsPair(nodes: seq<Node>, adm: seq<Superread>)
    requires forall sr :: Fragment(sr) in nodes <==> sr in adm
    requires FullEdgeList(nodes, nodes) != []
    ensures exists a, b | a in adm && b in adm :: CheckerEdge(Fragment(a), Fragment(b))
  {
    var arc := FullEdgeList(nodes, nodes)[0];
    assert arc in FullEdgeList(nodes, nodes);
    assert arc.i.Fragment? && arc.j.Fragment?;
    var a, b := arc.i.read, arc.j.read;
    assert Fragment(a) == arc.i && Fragment(b) == arc.j;
    assert a in adm && b in adm && CheckerEdge(Fragment(a), Fragment(b));
  }

  lemma PairIsListed(nodes: seq<Node>, u: Node, v: Node)
    requires u in nodes && v in nodes && CheckerEdge(u, v)
    ensures FullEdgeList(nodes, nodes) != []
  {
    assert Arc(u, v, Overlap(u, v)) in FullEdgeList(nodes, nodes);
  }

  /** The graph `create_reduced` builds before the reduction: for each run
      of the full edge list with one source node, the `k` arcs of largest
      overlap. A negative `k` is refused as soon as there is a run. */
  function ReducedGraph(srs: seq<Superread>, c: Cutoff, k: int): (r: Result<Graph, BuildError>)
    ensures srs == [] ==> r == Err(NoSuperreads)
    ensures srs != [] ==> (r.Err? <==> k < 0 && HasCheckerPair(srs, c))
    ensures srs != [] && r.Err? ==> r.error == NegativeEdgesPerNode
  {
    match InitializeGraph(srs, c)
    case Err(e) => Err(e)
    case Ok(g) =>
      var arcs := FullEdgeList(g.nodes, g.nodes);
      var groups := GroupRuns(arcs);
      CheckerPairsListed(srs, c);
      if k < 0 && groups != [] then Err(NegativeEdgesPerNode)
      else Ok(g.(edges := AddArcs(g.edges, KeepTop(groups, if k < 0 then 0 else k))))
  }

  /** What the top of one node's block holds: arcs from that node, each
      compatible and with the checker's overlap. */
  lemma TopOfBlock(u: Node, all: seq<Node>, k: nat, a: Arc)
    requires a in TopEdges(Block(u, all), k)
    ensures a in Block(u, all) && a.i == u && a.j in all
    ensures CheckerEdge(u, a.j) && a.overlap == Overlap(u, a.j)
  {
    TopEdgesAreTheLargest(Block(u, all), k);
    assert a in multiset(TopEdges(Block(u, all), k));
  }

  /** An arc survives the per-run selection exactly when it is among the top
      `k` of its source node's block. */
  lemma {:induction false} KeptArcs(us: seq<Node>, all: seq<Node>, k: nat, a: Arc)
    ensures a in KeepTop(NonEmptyBlocks(us, all), k) <==> a.i in us && a in TopEdges(Block(a.i, all), k)
  {
    if us != [] {
      var b := Block(us[0], all);
      KeptArcs(us[1..], all, k, a);
      var blocks := NonEmptyBlocks(us, all);
      if b != [] {
        assert blocks[0] == b && blocks[1..] == NonEmptyBlocks(us[1..], all);
      } else {
        assert blocks == NonEmptyBlocks(us[1..], all);
        assert TopEdges(b, k) == [];
      }
      if a in TopEdges(b, k) {
        TopOfBlock(us[0], all, k, a);
      }
    }
  }

  /** Distinct indices make the initial nodes distinct. */
  lemma InitialNodesDistinct(srs: seq<Superread>, c: Cutoff)
    requires srs != [] && UniqueIndices(Admitted(srs, c))
    ensures Distinct(InitializeGraph(srs, c).value.nodes)
  {
    SentinelsThenFragments(Admitted(srs, c));
  }

  lemma SentinelsThenFragments(adm: seq<Superread>)
    requires UniqueIndices(adm)
    ensures Distinct([Source, Target] + FragmentsOf(adm))
  {
    var fs := FragmentsOf(adm);
    var nodes := [Source, Target] + fs;
    forall i, j | 0 <= i < j < |nodes|
      ensures nodes[i] != nodes[j]
    {
      if i >= 2 {
        assert nodes[i] == fs[i - 2] && nodes[j] == fs[j - 2];
      }
    }
  }

  /** Because `groupby` recovers the per-node blocks, the reduced graph is
      the initial graph plus the top `k` arcs of every non-empty block. */
  lemma ReducedIsInitialPlusKept(srs: seq<Superread>, c: Cutoff, k: nat)
    requires srs != [] && UniqueIndices(Admitted(srs, c))
    ensures var g0 := InitializeGraph(srs, c).value;
      ReducedGraph(srs, c, k).value == g0.(edges := AddArcs(g0.edges, KeepTop(NonEmptyBlocks(g0.nodes, g0.nodes), k)))
  {
    var g0 := InitializeGraph(srs, c).value;
    InitialNodesDistinct(srs, c);
    GroupRunsAreBlocks(g0.nodes, g0.nodes);
  }

  /** The arcs the reduced builder adds, read off node by node. */
  lemma ReducedArcs(srs: seq<Superread>, c: Cutoff, k: nat)
    requires srs != [] && UniqueIndices(Admitted(srs, c))
    ensures var g0 := InitializeGraph(srs, c).value;
      var kept := KeepTop(NonEmptyBlocks(g0.nodes, g0.nodes), k);
      && ReducedGraph(srs, c, k).value == g0.(edges := AddArcs(g0.edges, kept))
      && forall u, v :: (u, v) in ArcPairs(kept) <==>
           u in g0.nodes && Arc(u, v, Overlap(u, v)) in TopEdges(Block(u, g0.nodes), k)
  {
    var g0 := InitializeGraph(srs, c).value;
    ReducedIsInitialPlusKept(srs, c, k);
    forall u, v
      ensures (u, v) in ArcPairs(KeepTop(NonEmptyBlocks(g0.nodes, g0.nodes), k)) <==>
        u in g0.nodes && Arc(u, v, Overlap(u, v)) in TopEdges(Block(u, g0.nodes), k)
    {
      KeptPair(g0.nodes, k, u, v);
    }
  }

  /** A pair is kept exactly when its arc is among the top `k` of its block. */
  lemma KeptPair(nodes: seq<Node>, k: nat, u: Node, v: Node)
    ensures (u, v) in ArcPairs(KeepTop(NonEmptyBlocks(nodes, nodes), k)) <==>
      u in nodes && Arc(u, v, Overlap(u, v)) in TopEdges(Block(u, nodes), k)
  {
    var kept := KeepTop(NonEmptyBlocks(nodes, nodes), k);
    if (u, v) in ArcPairs(kept) {
      var a :| a in kept && (a.i, a.j) == (u, v);
      KeptArcs(nodes, nodes, k, a);
      TopOfBlock(u, nodes, k, a);
    }
    if u in nodes && Arc(u, v, Overlap(u, v)) in TopEdges(Block(u, nodes), k) {
      KeptArcs(nodes, nodes, k, Arc(u, v, Overlap(u, v)));
    }
  }

  /** The reduced graph holds exactly the sentinel edges, without an
      overlap, and from each node the arcs among the top `k` of its block,
      carrying the checker's overlap. */
  lemma ReducedGraphEdges(srs: seq<Superread>, c: Cutoff, k: nat)
    requires srs != [] && UniqueIndices(Admitted(srs, c))
    ensures var g := ReducedGraph(srs, c, k).value;
      && g.nodes == [Source, Target] + FragmentsOf(Admitted(srs, c))
      && (forall u, v :: HasEdge(g, u, v) <==>
            || SentinelEdge(g.nCv, srs, c, u, v)
            || (u in g.nodes && Arc(u, v, Overlap(u, v)) in TopEdges(Block(u, g.nodes), k)))
      && (forall u, v | HasEdge(g, u, v) :: g.edges[(u, v)] == if CheckerEdge(u, v) then Some(Overlap(u, v)) else None)
  {
    var g := ReducedGraph(srs, c, k).value;
    ReducedIsInitialPlusKept(srs, c, k);
    forall u, v
      ensures HasEdge(g, u, v) <==>
        || SentinelEdge(g.nCv, srs, c, u, v)
        || (u in g.nodes && Arc(u, v, Overlap(u, v)) in TopEdges(Block(u, g.nodes), k))
    {
      ReducedHasEdge(srs, c, k, u, v);
    }
    forall u, v | HasEdge(g, u, v)
      ensures g.edges[(u, v)] == if CheckerEdge(u, v) then Some(Overlap(u, v)) else None
    {
      ReducedEdgeValue(srs, c, k, u, v);
    }
  }

  lemma ReducedHasEdge(srs: seq<Superread>, c: Cutoff, k: nat, u: Node, v: Node)
    requires srs != [] && UniqueIndices(Admitted(srs, c))
    ensures var g := ReducedGraph(srs, c, k).value;
      HasEdge(g, u, v) <==>
        || SentinelEdge(g.nCv, srs, c, u, v)
        || (u in g.nodes && Arc(u, v, Overlap(u, v)) in TopEdges(Block(u, g.nodes), k))
  {
    var g0 := InitializeGraph(srs, c).value;
    var kept := KeepTop(NonEmptyBlocks(g0.nodes, g0.nodes), k);
    ReducedIsInitialPlusKept(srs, c, k);
    KeptPair(g0.nodes, k, u, v);
    assert (u, v) in AddArcs(g0.edges, kept) <==> (u, v) in g0.edges || (u, v) in ArcPairs(kept);
  }

  lemma ReducedEdgeValue(srs: seq<Superread>, c: Cutoff, k: nat, u: Node, v: Node)
    requires srs != [] && UniqueIndices(Admitted(srs, c))
    requires HasEdge(ReducedGraph(srs, c, k).value, u, v)
    ensures ReducedGraph(srs, c, k).value.edges[(u, v)] == if CheckerEdge(u, v) then Some(Overlap(u, v)) else None
  {
    var g0 := InitializeGraph(srs, c).value;
    var kept := KeepTop(NonEmptyBlocks(g0.nodes, g0.nodes), k);
    ReducedIsInitialPlusKept(srs, c, k);
    InitialEdgesPlain(srs, c);
    KeptAreChecker(g0.nodes, g0.nodes, k);
    ArcValues(g0.edges, kept, u, v);
  }

  /** Every kept arc is a checker pair carrying the checker's overlap. */
  lemma KeptAreChecker(us: seq<Node>, all: seq<Node>, k: nat)
    ensures forall a | a in KeepTop(NonEmptyBlocks(us, all), k) ::
      CheckerEdge(a.i, a.j) && a.overlap == Overlap(a.i, a.j)
  {
    forall a | a in KeepTop(NonEmptyBlocks(us, all), k)
      ensures CheckerEdge(a.i, a.j) && a.overlap == Overlap(a.i, a.j)
    {
      KeptArcs(us, all, k, a);
      TopOfBlock(a.i, all, k, a);
    }
  }

  /** A checker edge of the reduced graph is one of the top arcs of its
      source node. */
  lemma ReducedCheckerEdge(srs: seq<Superread>, c: Cutoff, k: nat, u: Node, v: Node)
    requires srs != [] && UniqueIndices(Admitted(srs, c))
    requires HasEdge(ReducedGraph(srs, c, k).value, u, v) && CheckerEdge(u, v)
    ensures var g := ReducedGraph(srs, c, k).value;
      u in g.nodes && Arc(u, v, Overlap(u, v)) in TopEdges(Block(u, g.nodes), k)
  {
    var g0 := InitializeGraph(srs, c).value;
    var kept := KeepTop(NonEmptyBlocks(g0.nodes, g0.nodes), k);
    ReducedIsInitialPlusKept(srs, c, k);
    InitialEdgesPlain(srs, c);
    assert (u, v) in AddArcs(g0.edges, kept) && (u, v) !in g0.edges;
    var a :| a in kept && (a.i, a.j) == (u, v);
    KeptArcs(g0.nodes, g0.nodes, k, a);
    TopOfBlock(u, g0.nodes, k, a);
    assert a == Arc(u, v, Overlap(u, v));
  }

  /** Every top arc of a node is an edge of the reduced graph. */
  lemma ReducedHasTop(srs: seq<Superread>, c: Cutoff, k: nat, u: Node, v: Node)
    requires srs != [] && UniqueIndices(Admitted(srs, c))
    requires var g := ReducedGraph(srs, c, k).value;
      u in g.nodes && Arc(u, v, Overlap(u, v)) in TopEdges(Block(u, g.nodes), k)
    ensures HasEdge(ReducedGraph(srs, c, k).value, u, v)
  {
    var g0 := InitializeGraph(srs, c).value;
    var kept := KeepTop(NonEmptyBlocks(g0.nodes, g0.nodes), k);
    ReducedIsInitialPlusKept(srs, c, k);
    KeptArcs(g0.nodes, g0.nodes, k, Arc(u, v, Overlap(u, v)));
    assert (u, v) in ArcPairs(kept);
  }

  /** No arc left out has a larger overlap than one kept: if u keeps an
      edge to v, it keeps one to every compatible w overlapping it more. */
  lemma ReducedKeepsLargest(srs: seq<Superread>, c: Cutoff, k: nat, u: Node, v: Node, w: Node)
    requires srs != [] && UniqueIndices(Admitted(srs, c))
    requires var g := ReducedGraph(srs, c, k).value;
      HasEdge(g, u, v) && CheckerEdge(u, v) && w in g.nodes && CheckerEdge(u, w)
    requires Overlap(u, w) > Overlap(u, v)
    ensures HasEdge(ReducedGraph(srs, c, k).value, u, w)
  {
    var g := ReducedGraph(srs, c, k).value;
    ReducedCheckerEdge(srs, c, k, u, v);
    BlockKeepsLarger(u, g.nodes, k, v, w);
    ReducedHasTop(srs, c, k, u, w);
  }

  /** Within one node's block: a compatible w overlapping more than a kept
      v is kept too. */
  lemma BlockKeepsLarger(u: Node, nodes: seq<Node>, k: nat, v: Node, w: Node)
    requires Arc(u, v, Overlap(u, v)) in TopEdges(Block(u, nodes), k)
    requires w in nodes && CheckerEdge(u, w) && Overlap(u, w) > Overlap(u, v)
    ensures Arc(u, w, Overlap(u, w)) in TopEdges(Block(u, nodes), k)
  {
    var b := Arc(u, w, Overlap(u, w));
    assert b in Block(u, nodes);
    TopKeepsLarger(Block(u, nodes), k, Arc(u, v, Overlap(u, v)), b);
  }

  lemma {:induction false} TargetsBound(s: seq<Arc>)
    ensures |set a | a in s :: a.j| <= |s|
  {
    if s != [] {
      TargetsBound(s[1..]);
      assert (set a | a in s :: a.j) == {s[0].j} + set a | a in s[1..] :: a.j;
    }
  }

  /** Each superread keeps at most `k` checker edges. */
  lemma ReducedOutDegree(srs: seq<Superread>, c: Cutoff, k: nat, u: Node)
    requires srs != [] && UniqueIndices(Admitted(srs, c))
    ensures var g := ReducedGraph(srs, c, k).value;
      |set v | v in g.nodes && HasEdge(g, u, v) && CheckerEdge(u, v)| <= k
  {
    var g := ReducedGraph(srs, c, k).value;
    var top := TopEdges(Block(u, g.nodes), k);
    var succs := set v | v in g.nodes && HasEdge(g, u, v) && CheckerEdge(u, v);
    forall v | v in succs
      ensures v in set a | a in top :: a.j
    {
      ReducedCheckerEdge(srs, c, k, u, v);
      assert Arc(u, v, Overlap(u, v)) in top;
    }
    var targets := set a | a in top :: a.j;
    TargetsBound(top);
    assert succs <= targets;
    SubsetCardinality(succs, targets);
    assert |succs| <= |targets| <= |top| <= k;
  }

  lemma SubsetCardinality<T>(a: set<T>, b: set<T>)
    requires a <= b
    ensures |a| <= |b|
  {
    assert b == a + (b - a);
  }

  /** Every edge of the reduced graph is an edge of the full graph. */
  lemma ReducedInsideFull(srs: seq<Superread>, c: Cutoff, k: int)
    requires srs != [] && UniqueIndices(Admitted(srs, c)) && ReducedGraph(srs, c, k).Ok?
    ensures var g := ReducedGraph(srs, c, k).value;
      var f := FullGraph(srs, c).value;
      && g.nCv == f.nCv && g.nodes == f.nodes && g.edges.Keys <= f.edges.Keys
      && forall e | e in g.edges :: g.edges[e] == f.edges[e]
  {
    var k' := if k < 0 then 0 else k;
    var g0 := InitializeGraph(srs, c).value;
    var kept := KeepTop(NonEmptyBlocks(g0.nodes, g0.nodes), k');
    var all := FullEdgeList(g0.nodes, g0.nodes);
    assert ReducedGraph(srs, c, k).value == ReducedGraph(srs, c, k').value;
    ReducedIsInitialPlusKept(srs, c, k');
    assert FullGraph(srs, c).value == g0.(edges := AddArcs(g0.edges, all));
    InitialEdgesPlain(srs, c);
    KeptAreChecker(g0.nodes, g0.nodes, k');
    FullArcPairs(g0.nodes);
    forall e | e in ArcPairs(kept)
      ensures e in ArcPairs(all)
    {
      var a :| a in kept && (a.i, a.j) == e;
      KeptArcs(g0.nodes, g0.nodes, k', a);
      TopOfBlock(a.i, g0.nodes, k', a);
    }
    FewerArcs(g0.edges, kept, all);
  }

  /** Adding a subset of the checker arcs gives a sub-map of adding them all. */
  lemma FewerArcs(edges: map<(Node, Node), Option<nat>>, kept: seq<Arc>, all: seq<Arc>)
    requires forall e | e in edges :: edges[e] == None && !CheckerEdge(e.0, e.1)
    requires forall a | a in kept :: CheckerEdge(a.i, a.j) && a.overlap == Overlap(a.i, a.j)
    requires forall a | a in all :: CheckerEdge(a.i, a.j) && a.overlap == Overlap(a.i, a.j)
    requires ArcPairs(kept) <= ArcPairs(all)
    ensures AddArcs(edges, kept).Keys <= AddArcs(edges, all).Keys
    ensures forall e | e in AddArcs(edges, kept) :: AddArcs(edges, kept)[e] == AddArcs(edges, all)[e]
  {
    forall e | e in AddArcs(edges, kept)
      ensures AddArcs(edges, kept)[e] == AddArcs(edges, all)[e]
    {
      ArcValues(edges, kept, e.0, e.1);
      ArcValues(edges, all, e.0, e.1);
    }
  }

  /** `create_reduced`: the reduced graph, transitively reduced. */
  function CreateReduced(srs: seq<Superread>, c: Cutoff, k: int): (r: Result<Graph, BuildError>)
    requires Buildable(srs, c)
    ensures srs == [] ==> r == Err(NoSuperreads)
    ensures srs != [] ==> (r.Err? <==> k < 0 && HasCheckerPair(srs, c))
    ensures srs != [] && r.Err? ==> r.error == NegativeEdgesPerNode
    ensures r.Ok? ==>
      && WellFormed(r.value)
      && r.value.nodes == [Source, Target] + FragmentsOf(Admitted(srs, c))
      && forall u, v | HasEdge(r.value, u, v) ::
           && (SentinelEdge(r.value.nCv, srs, c, u, v) || CheckerEdge(u, v))
           && r.value.edges[(u, v)] == if CheckerEdge(u, v) then Some(Overlap(u, v)) else None
  {
    match ReducedGraph(srs, c, k)
    case Err(e) => Err(e)
    case Ok(g) =>
      FullGraphWellFormed(srs, c);
      ReducedInsideFull(srs, c, k);
      FullGraphEdges(srs, c);
      SubgraphWellFormed(FullGraph(srs, c).value, g);
      Ok(TransitiveReduction(g))
  }
}
