/** `get_candidates`: the forward path count, the explosion guard, and the
    enumeration that builds one candidate row per walk from `source`,
    together with the superreads the row was chained from. */
module Candidates {
  import opened Wrappers
  import opened Fragments
  import opened Graphs
  import opened Paths
  import opened Counting

  /** The candidate rows held at one node and, parallel to them, the indices
      of the superreads each row was built from. */
  datatype Table = Table(rows: seq<string>, describing: seq<seq<int>>)

  datatype CandidateError =
    | TargetNotReached          // `npath` of `target` was never set
    | TooManyCandidates(count: nat)

  /** The explosion guard: more candidates than this is an error. */
  const MaximumCandidates: nat := 10000

  /** The superread indices along a walk; the sentinels contribute none. */
  function FragmentIds(p: seq<Node>): seq<int> {
    if p == [] then []
    else FragmentIds(p[..|p| - 1]) + (if Last(p).Fragment? then [Last(p).read.index] else [])
  }

  /** The symbols of d past the end of a: `vacs[a.cv_end - d.cv_start:]`. */
  function NewSymbols(nCv: nat, a: Node, d: Node): (r: string)
    requires Chained(nCv, a, d)
    ensures |r| == End(nCv, d) - End(nCv, a)
  {
    Vacs(d)[End(nCv, a) - Start(nCv, d)..]
  }

  /** Every row of a's table extended by the new symbols of d, and every
      describing list by d itself unless d is `target`. */
  function ExtendTable(g: Graph, t: Table, a: Node, d: Node): Table
    requires WellFormed(g) && HasEdge(g, a, d)
  {
    EdgeFacts(g, a, d);
    var suffix := NewSymbols(g.nCv, a, d);
    var extension := if d.Fragment? then [d.read.index] else [];
    Table(seq(|t.rows| , k requires 0 <= k < |t.rows| => t.rows[k] + suffix),
          seq(|t.describing|, k requires 0 <= k < |t.describing| => t.describing[k] + extension))
  }

  /** The rows of d: the extended tables of its predecessors in order,
      skipping any predecessor that holds no table. */
  function Gather(g: Graph, tables: map<Node, Table>, preds: seq<Node>, d: Node): Table
    requires WellFormed(g)
    requires forall a | a in preds :: HasEdge(g, a, d)
  {
    if preds == [] then Table([], [])
    else
      var rest := Gather(g, tables, preds[1..], d);
      if preds[0] in tables then
        var t := ExtendTable(g, tables[preds[0]], preds[0], d);
        Table(t.rows + rest.rows, t.describing + rest.describing)
      else
        rest
  }

  /** The tables after visiting `order`, starting from one empty row at
      `source`. */
  function Enumerate(g: Graph, order: seq<Node>): (m: map<Node, Table>)
    requires WellFormed(g)
    ensures Source in m && forall v | v in order :: v in m
    ensures forall v | v in m :: v == Source || v in order
  {
    if order == [] then map[Source := Table([[]], [[]])]
    else
      var init := order[..|order| - 1];
      var m := Enumerate(g, init);
      var d := Last(order);
      m[d := Gather(g, m, Preds(g, d), d)]
  }

  /** `get_candidates`: count forward, refuse more than the ceiling before
      building any row, then enumerate and return the table of `target`.
      It reports that `target` was never reached exactly when no walk joins
      `source` to `target`, refuses exactly when there are more than the
      ceiling (reporting their number), and otherwise returns one row per
      such walk, in the order of `PathsTo`, each `nCv` symbols long, whose
      describing list names the superreads on the walk and which spells
      each node of the walk over its interval. */
  function GetCandidates(g: Graph, order: seq<Node>): (r: Result<Table, CandidateError>)
    requires WellFormed(g) && VisitOrder(g, order)
    ensures r == Err(TargetNotReached) <==> |PathsTo(g, Target)| == 0
    ensures r.Err? && r.error.TooManyCandidates? <==> |PathsTo(g, Target)| > MaximumCandidates
    ensures r.Err? && r.error.TooManyCandidates? ==> r.error.count == |PathsTo(g, Target)|
    ensures r.Ok? ==> 0 < |PathsTo(g, Target)| <= MaximumCandidates
    ensures r.Ok? ==> TableMatches(g, PathsTo(g, Target), r.value)
    ensures r.Ok? ==> forall k | 0 <= k < |r.value.rows| :: |r.value.rows[k]| == g.nCv
  {
    var counts := ForwardCounts(g, order);
    TargetCount(g, order);
    if Target !in counts then Err(TargetNotReached)
    else if counts[Target] > MaximumCandidates then Err(TooManyCandidates(counts[Target]))
    else
      TargetTable(g, order);
      Ok(Enumerate(g, order)[Target])
  }

  /** `target` holds a forward count exactly when some walk reaches it, and
      then the count is the number of those walks. */
  lemma TargetCount(g: Graph, order: seq<Node>)
    requires WellFormed(g) && VisitOrder(g, order)
    ensures Target in ForwardCounts(g, order) <==> |PathsTo(g, Target)| > 0
    ensures Target in ForwardCounts(g, order) ==> ForwardCounts(g, order)[Target] == |PathsTo(g, Target)|
  {
    TargetHasNoSuccessor(g);
    ForwardCountsArePathCounts(g, order);
    if Target !in order {
      OutsideClosedSetUnreached(g, order, Target);
    }
  }

  /** When `target` is visited its table matches its walks, and every row
      spans all `nCv` covarying sites. */
  lemma TargetTable(g: Graph, order: seq<Node>)
    requires WellFormed(g) && VisitOrder(g, order) && Target in order
    ensures var t := Enumerate(g, order)[Target];
      && TableMatches(g, PathsTo(g, Target), t)
      && forall k | 0 <= k < |t.rows| :: |t.rows[k]| == g.nCv
  {
    EnumerateCorrect(g, order, |order|);
    assert order[..|order|] == order;
    var t := Enumerate(g, order)[Target];
    var ps := PathsTo(g, Target);
    assert TableMatches(g, ps, t);
    PathsToSound(g, Target);
    forall k | 0 <= k < |t.rows|
      ensures |t.rows[k]| == g.nCv
    {
      assert ps[k] in ps;
      assert Describes(g, ps[k], t.rows[k], t.describing[k]);
    }
  }

  /** Nothing leaves `target`: its interval ends at the last site. */
  lemma TargetHasNoSuccessor(g: Graph)
    requires WellFormed(g)
    ensures forall d :: !HasEdge(g, Target, d)
  {
    forall d | HasEdge(g, Target, d)
      ensures false
    {
      EdgeFacts(g, Target, d);
    }
  }

  // ---------------------------------------------------------------------
  // What the rows mean

  /** A row and its describing list built along the walk p from `source`:
      the row spans [0, cv_end) of the walk's last node, the list names the
      superreads on the walk in order, and the row, read over the interval of
      any node on the walk, spells that node's symbols. */
  predicate Describes(g: Graph, p: seq<Node>, row: string, ids: seq<int>) {
    && |p| > 0
    && |row| == End(g.nCv, Last(p))
    && ids == FragmentIds(p)
    && Spells(g.nCv, p, row)
  }

  /** The row, read over the interval of any node of p, spells that node. */
  predicate Spells(nCv: nat, p: seq<Node>, row: string) {
    forall k | 0 <= k < |p| ::
      && Start(nCv, p[k]) <= End(nCv, p[k]) <= |row|
      && row[Start(nCv, p[k])..End(nCv, p[k])] == Vacs(p[k])
  }

  /** One row and one describing list per walk of `ps`, in the same order. */
  predicate TableMatches(g: Graph, ps: seq<seq<Node>>, t: Table) {
    && |t.rows| == |ps| && |t.describing| == |ps|
    && forall k | 0 <= k < |ps| :: Describes(g, ps[k], t.rows[k], t.describing[k])
  }

  /** Reading the extended row over d's interval: the part up to a's end is
      a's tail, which the edge makes equal to d's head, and the rest is the
      appended suffix. */
  lemma SpliceWindow(row: string, va: string, vd: string, sa: nat, sd: nat)
    requires sa <= sd <= |row| && |row| - sd <= |vd|
    requires row[sa..] == va
    requires va[sd - sa..] == vd[..|row| - sd]
    ensures (row + vd[|row| - sd..])[sd..] == vd
  {
    var off := |row| - sd;
    assert row[sd..] == va[sd - sa..];
    assert (row + vd[off..])[sd..] == row[sd..] + vd[off..];
    assert vd[..off] + vd[off..] == vd;
  }

  /** Appending symbols leaves every window of the row alone. */
  lemma KeepWindow(row: string, s: string, lo: nat, hi: nat)
    requires lo <= hi <= |row|
    ensures (row + s)[lo..hi] == row[lo..hi]
  {
    assert forall i | lo <= i < hi :: (row + s)[i] == row[i];
  }

  /** A row spelling a over a's interval and ending where a ends, extended
      by the symbols of d past that end, spells d over d's interval. */
  lemma NewWindow(row: string, va: string, vd: string, sa: nat, ea: nat, sd: nat, ed: nat)
    requires sa <= sd <= ea <= ed && |va| == ea - sa && |vd| == ed - sd
    requires va[sd - sa..] == vd[..ea - sd]
    requires |row| == ea && row[sa..ea] == va
    ensures |row + vd[ea - sd..]| == ed
    ensures (row + vd[ea - sd..])[sd..ed] == vd
  {
    assert row[sa..] == va;
    SpliceWindow(row, va, vd, sa, sd);
  }

  /** Appending symbols to a row that spells p keeps every node of p
      spelled, so spelling d as well makes it spell p + [d]. */
  lemma SpellsExtend(nCv: nat, p: seq<Node>, row: string, s: string, d: Node)
    requires Spells(nCv, p, row)
    requires Start(nCv, d) <= End(nCv, d) <= |row + s|
    requires (row + s)[Start(nCv, d)..End(nCv, d)] == Vacs(d)
    ensures Spells(nCv, p + [d], row + s)
  {
    var p' := p + [d];
    forall k | 0 <= k < |p'|
      ensures Start(nCv, p'[k]) <= End(nCv, p'[k]) <= |row + s|
      ensures (row + s)[Start(nCv, p'[k])..End(nCv, p'[k])] == Vacs(p'[k])
    {
      if k < |p| {
        assert p'[k] == p[k];
        KeepWindow(row, s, Start(nCv, p[k]), End(nCv, p[k]));
      } else {
        assert p'[k] == d;
      }
    }
  }

  /** The facts of `Chained`, spelled out on sites. */
  lemma ChainedSites(nCv: nat, a: Node, d: Node)
    requires Chained(nCv, a, d)
    ensures var sa, ea, sd, ed := Start(nCv, a), End(nCv, a), Start(nCv, d), End(nCv, d);
      && sa <= sd <= ea <= ed && |Vacs(a)| == ea - sa && |Vacs(d)| == ed - sd
      && Vacs(a)[sd - sa..] == Vacs(d)[..ea - sd]
  {
  }

  /** Extending a described row along one more edge describes the longer walk. */
  lemma ExtendDescribes(g: Graph, p: seq<Node>, row: string, ids: seq<int>, d: Node)
    requires WellFormed(g) && Describes(g, p, row, ids) && HasEdge(g, Last(p), d)
    ensures Describes(g, p + [d], row + NewSymbols(g.nCv, Last(p), d),
                      ids + (if d.Fragment? then [d.read.index] else []))
  {
    EdgeFacts(g, Last(p), d);
    SpliceDescribes(g.nCv, p, row, ids, d);
  }

  /** The splice itself, stated on sites and symbols alone. */
  lemma SpliceDescribes(nCv: nat, p: seq<Node>, row: string, ids: seq<int>, d: Node)
    requires |p| > 0 && |row| == End(nCv, Last(p)) && ids == FragmentIds(p) && Spells(nCv, p, row)
    requires Chained(nCv, Last(p), d)
    ensures |row + NewSymbols(nCv, Last(p), d)| == End(nCv, d)
    ensures FragmentIds(p + [d]) == ids + (if d.Fragment? then [d.read.index] else [])
    ensures Spells(nCv, p + [d], row + NewSymbols(nCv, Last(p), d))
  {
    var a := Last(p);
    var s := NewSymbols(nCv, a, d);
    ChainedSites(nCv, a, d);
    FragmentIdsSnoc(p, d);
    SpellsLast(nCv, p, row);
    NewWindow(row, Vacs(a), Vacs(d), Start(nCv, a), End(nCv, a), Start(nCv, d), End(nCv, d));
    SpellsExtend(nCv, p, row, s, d);
  }

  lemma FragmentIdsSnoc(p: seq<Node>, d: Node)
    ensures FragmentIds(p + [d]) == FragmentIds(p) + (if d.Fragment? then [d.read.index] else [])
  {
    var p' := p + [d];
    assert p'[..|p'| - 1] == p && Last(p') == d;
  }

  /** A row that spells a walk spells its last node. */
  lemma SpellsLast(nCv: nat, p: seq<Node>, row: string)
    requires |p| > 0 && Spells(nCv, p, row)
    ensures Start(nCv, Last(p)) <= End(nCv, Last(p)) <= |row|
    ensures row[Start(nCv, Last(p))..End(nCv, Last(p))] == Vacs(Last(p))
  {
    assert p[|p| - 1] == Last(p);
  }

  /** Extending a whole table along the edge a -> d matches the walks into a
      extended by d. */
  lemma ExtendTableMatches(g: Graph, ps: seq<seq<Node>>, t: Table, a: Node, d: Node)
    requires WellFormed(g) && HasEdge(g, a, d) && TableMatches(g, ps, t)
    requires forall p | p in ps :: |p| > 0 && Last(p) == a
    ensures TableMatches(g, AppendToEach(ps, d), ExtendTable(g, t, a, d))
  {
    var r := ExtendTable(g, t, a, d);
    var qs := AppendToEach(ps, d);
    forall k | 0 <= k < |qs|
      ensures Describes(g, qs[k], r.rows[k], r.describing[k])
    {
      assert ps[k] in ps;
      ExtendDescribes(g, ps[k], t.rows[k], t.describing[k], d);
    }
  }

  /** Tables concatenate along with their walks. */
  lemma ConcatMatches(g: Graph, ps: seq<seq<Node>>, t: Table, qs: seq<seq<Node>>, u: Table)
    requires TableMatches(g, ps, t) && TableMatches(g, qs, u)
    ensures TableMatches(g, ps + qs, Table(t.rows + u.rows, t.describing + u.describing))
  {
    var r := Table(t.rows + u.rows, t.describing + u.describing);
    forall k | 0 <= k < |ps + qs|
      ensures Describes(g, (ps + qs)[k], r.rows[k], r.describing[k])
    {
      if k >= |ps| {
        assert (ps + qs)[k] == qs[k - |ps|];
      }
    }
  }

  /** Gathering over predecessors matches `ExtendPaths` when each predecessor
      either holds the table of its walks or has no walk at all. */
  lemma {:induction false} GatherMatches(g: Graph, tables: map<Node, Table>, us: seq<Node>, d: Node)
    requires WellFormed(g)
    requires forall a | a in us :: HasEdge(g, a, d)
    requires forall a | a in us && a in tables :: TableMatches(g, PathsTo(g, a), tables[a])
    requires forall a | a in us && a !in tables :: PathsTo(g, a) == []
    ensures TableMatches(g, ExtendPaths(g, us, d), Gather(g, tables, us, d))
  {
    if us != [] {
      assert us[0] in us && forall b | b in us[1..] :: b in us;
      GatherMatches(g, tables, us[1..], d);
      GatherStep(g, tables, us, d);
    }
  }

  /** One predecessor more: its extended table goes in front of the rest,
      or nothing does when it holds no table. */
  lemma GatherStep(g: Graph, tables: map<Node, Table>, us: seq<Node>, d: Node)
    requires WellFormed(g) && us != []
    requires forall a | a in us :: HasEdge(g, a, d)
    requires us[0] in tables ==> TableMatches(g, PathsTo(g, us[0]), tables[us[0]])
    requires us[0] !in tables ==> PathsTo(g, us[0]) == []
    requires TableMatches(g, ExtendPaths(g, us[1..], d), Gather(g, tables, us[1..], d))
    ensures TableMatches(g, ExtendPaths(g, us, d), Gather(g, tables, us, d))
  {
    var a := us[0];
    assert HasEdge(g, a, d);
    ExtendPathsUnfold(g, us, d);
    if a in tables {
      GatherHit(g, tables, us, d);
    } else {
      var ps := ExtendPaths(g, us[1..], d);
      assert Gather(g, tables, us, d) == Gather(g, tables, us[1..], d);
      assert AppendToEach(PathsTo(g, a), d) + ps == ps;
    }
  }

  /** `ExtendPaths` over a non-empty list, one step unfolded. */
  lemma ExtendPathsUnfold(g: Graph, us: seq<Node>, d: Node)
    requires WellFormed(g) && us != []
    requires forall a | a in us :: HasEdge(g, a, d)
    ensures ExtendPaths(g, us, d) == AppendToEach(PathsTo(g, us[0]), d) + ExtendPaths(g, us[1..], d)
  {
  }

  /** A predecessor holding a table puts its extended table in front. */
  lemma GatherHit(g: Graph, tables: map<Node, Table>, us: seq<Node>, d: Node)
    requires WellFormed(g) && us != [] && us[0] in tables
    requires forall a | a in us :: HasEdge(g, a, d)
    requires TableMatches(g, PathsTo(g, us[0]), tables[us[0]])
    requires TableMatches(g, ExtendPaths(g, us[1..], d), Gather(g, tables, us[1..], d))
    ensures TableMatches(g, AppendToEach(PathsTo(g, us[0]), d) + ExtendPaths(g, us[1..], d), Gather(g, tables, us, d))
  {
    var a := us[0];
    assert HasEdge(g, a, d);
    var ps := ExtendPaths(g, us[1..], d);
    var rest := Gather(g, tables, us[1..], d);
    var t := ExtendTable(g, tables[a], a, d);
    assert Gather(g, tables, us, d) == Table(t.rows + rest.rows, t.describing + rest.describing);
    ExtendedTableMatches(g, tables[a], a, d);
    ConcatMatches(g, AppendToEach(PathsTo(g, a), d), t, ps, rest);
  }

  /** The table of a predecessor, extended along its edge to d, matches the
      walks into d through it. */
  lemma ExtendedTableMatches(g: Graph, t: Table, a: Node, d: Node)
    requires WellFormed(g) && HasEdge(g, a, d) && TableMatches(g, PathsTo(g, a), t)
    ensures TableMatches(g, AppendToEach(PathsTo(g, a), d), ExtendTable(g, t, a, d))
  {
    PathsToSound(g, a);
    ExtendTableMatches(g, PathsTo(g, a), t, a, d);
  }

  /** After visiting a prefix of the order, every node holding a table holds
      one row per walk from `source` to it, each described by that walk. */
  lemma {:induction false} EnumerateCorrect(g: Graph, order: seq<Node>, n: nat)
    requires WellFormed(g) && VisitOrder(g, order) && n <= |order|
    ensures forall v | v in Enumerate(g, order[..n]) ::
      TableMatches(g, PathsTo(g, v), Enumerate(g, order[..n])[v])
  {
    if n == 0 {
      var m := Enumerate(g, order[..0]);
      assert Describes(g, [Source], [], []);
      assert TableMatches(g, PathsTo(g, Source), m[Source]);
    } else {
      var init := order[..n][..n - 1];
      assert init == order[..n - 1];
      EnumerateCorrect(g, order, n - 1);
      var m := Enumerate(g, init);
      var d := order[n - 1];
      assert Last(order[..n]) == d;
      assert d != Source;
      var preds := Preds(g, d);
      forall a | a in preds && a !in m
        ensures PathsTo(g, a) == []
      {
        EarlierOrUnreached(g, order, n, a);
      }
      GatherMatches(g, m, preds, d);
    }
  }

  /** At every visited node the rows and the describing lists run parallel,
      there are as many of them as the forward count of the node, and each
      row spans [0, cv_end) of the node. */
  lemma VisitedRowsMatchCounts(g: Graph, order: seq<Node>, v: Node)
    requires WellFormed(g) && VisitOrder(g, order) && v in order
    ensures var t := Enumerate(g, order)[v];
      && |t.rows| == |t.describing| == ForwardCounts(g, order)[v] > 0
      && forall k | 0 <= k < |t.rows| :: |t.rows[k]| == End(g.nCv, v)
  {
    EnumerateAll(g, order);
    ForwardCountsArePathCounts(g, order);
    RowsSpanNode(g, v, Enumerate(g, order)[v]);
  }

  /** After the whole visit order, every table matches its node's walks. */
  lemma EnumerateAll(g: Graph, order: seq<Node>)
    requires WellFormed(g) && VisitOrder(g, order)
    ensures forall v | v in Enumerate(g, order) :: TableMatches(g, PathsTo(g, v), Enumerate(g, order)[v])
  {
    EnumerateCorrect(g, order, |order|);
    assert order[..|order|] == order;
  }

  /** Every row of a table matching the walks into v ends where v ends. */
  lemma RowsSpanNode(g: Graph, v: Node, t: Table)
    requires WellFormed(g) && TableMatches(g, PathsTo(g, v), t)
    ensures forall k | 0 <= k < |t.rows| :: |t.rows[k]| == End(g.nCv, v)
  {
    var ps := PathsTo(g, v);
    PathsToSound(g, v);
    forall k | 0 <= k < |t.rows|
      ensures |t.rows[k]| == End(g.nCv, v)
    {
      assert ps[k] in ps;
      assert Describes(g, ps[k], t.rows[k], t.describing[k]);
    }
  }
}
