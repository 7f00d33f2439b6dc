/** Walks through the superread graph and two independent enumerations of
    them: the walks from `source` into a node, and the walks from a node out
    to `target`. Both list every walk once, which makes their lengths the
    path counts the dynamic programs must reproduce. */
module Paths {
  import opened Wrappers
  import opened Fragments
  import opened Graphs

  /** Consecutive nodes joined by edges. */
  predicate IsPath(g: Graph, p: seq<Node>) {
    |p| > 0 && forall k | 0 <= k < |p| - 1 :: HasEdge(g, p[k], p[k + 1])
  }

  /** `ps` with `v` appended to each walk. */
  function AppendToEach(ps: seq<seq<Node>>, v: Node): (r: seq<seq<Node>>)
    ensures |r| == |ps|
    ensures forall k | 0 <= k < |r| :: r[k] == ps[k] + [v]
  {
    seq(|ps|, k requires 0 <= k < |ps| => ps[k] + [v])
  }

  /** `ps` with `u` put in front of each walk. */
  function PrependToEach(u: Node, ps: seq<seq<Node>>): (r: seq<seq<Node>>)
    ensures |r| == |ps|
    ensures forall k | 0 <= k < |r| :: r[k] == [u] + ps[k]
  {
    seq(|ps|, k requires 0 <= k < |ps| => [u] + ps[k])
  }

  /** Every walk from `source` to v, grouped by the last predecessor of v
      in node order. */
  function PathsTo(g: Graph, v: Node): seq<seq<Node>>
    requires WellFormed(g)
    decreases Rank(g.nCv, v), 1
  {
    if v == Source then [[Source]] else ExtendPaths(g, Preds(g, v), v)
  }

  /** The walks into each node of `us`, extended by the edge into v. */
  function ExtendPaths(g: Graph, us: seq<Node>, v: Node): seq<seq<Node>>
    requires WellFormed(g)
    requires forall u | u in us :: HasEdge(g, u, v)
    decreases Rank(g.nCv, v), 0, |us|
  {
    if us == [] then []
    else
      EdgeFacts(g, us[0], v);
      AppendToEach(PathsTo(g, us[0]), v) + ExtendPaths(g, us[1..], v)
  }

  /** Every walk from u to `target`, grouped by the first successor of u in
      node order. */
  function PathsFrom(g: Graph, u: Node): seq<seq<Node>>
    requires WellFormed(g) && u in g.nodes
    decreases 2 * g.nCv - Rank(g.nCv, u), 1
  {
    if u == Target then [[Target]] else PrependPaths(g, u, Succs(g, u))
  }

  /** The walks out of each node of `ss`, preceded by the edge from u. */
  function PrependPaths(g: Graph, u: Node, ss: seq<Node>): seq<seq<Node>>
    requires WellFormed(g) && u in g.nodes
    requires forall s | s in ss :: HasEdge(g, u, s)
    decreases 2 * g.nCv - Rank(g.nCv, u), 0, |ss|
  {
    if ss == [] then []
    else
      EdgeFacts(g, u, ss[0]);
      PrependToEach(u, PathsFrom(g, ss[0])) + PrependPaths(g, u, ss[1..])
  }

  // ---------------------------------------------------------------------
  // Walk facts

  lemma WalkThenEdge(g: Graph, q: seq<Node>, v: Node)
    requires IsPath(g, q) && HasEdge(g, Last(q), v)
    ensures IsPath(g, q + [v])
    ensures (q + [v])[0] == q[0] && Last(q + [v]) == v
  {
    var p := q + [v];
    forall k | 0 <= k < |p| - 1
      ensures HasEdge(g, p[k], p[k + 1])
    {
      if k < |q| - 1 {
        assert p[k] == q[k] && p[k + 1] == q[k + 1];
      }
    }
  }

  lemma EdgeThenWalk(g: Graph, u: Node, q: seq<Node>)
    requires IsPath(g, q) && HasEdge(g, u, q[0])
    ensures IsPath(g, [u] + q)
    ensures ([u] + q)[0] == u && ([u] + q)[1] == q[0] && Last([u] + q) == Last(q)
  {
    var p := [u] + q;
    forall k | 0 <= k < |p| - 1
      ensures HasEdge(g, p[k], p[k + 1])
    {
      if k > 0 {
        assert p[k] == q[k - 1] && p[k + 1] == q[k];
      }
    }
  }

  lemma WalkInit(g: Graph, p: seq<Node>)
    requires IsPath(g, p) && |p| >= 2
    ensures IsPath(g, p[..|p| - 1]) && HasEdge(g, p[|p| - 2], Last(p))
  {
    var q := p[..|p| - 1];
    forall k | 0 <= k < |q| - 1
      ensures HasEdge(g, q[k], q[k + 1])
    {
      assert HasEdge(g, p[k], p[k + 1]);
    }
    assert HasEdge(g, p[|p| - 2], p[|p| - 1]);
  }

  lemma WalkTail(g: Graph, p: seq<Node>)
    requires IsPath(g, p) && |p| >= 2
    ensures IsPath(g, p[1..]) && HasEdge(g, p[0], p[1])
  {
    var q := p[1..];
    forall k | 0 <= k < |q| - 1
      ensures HasEdge(g, q[k], q[k + 1])
    {
      assert HasEdge(g, p[k + 1], p[k + 2]);
    }
    assert HasEdge(g, p[0], p[1]);
  }

  lemma DistinctConcat<T>(a: seq<T>, b: seq<T>)
    requires Distinct(a) && Distinct(b)
    requires forall x | x in a :: x !in b
    ensures Distinct(a + b)
  {
    var c := a + b;
    forall i, j | 0 <= i < j < |c|
      ensures c[i] != c[j]
    {
      if i < |a| && |a| <= j {
        assert c[i] in a && c[j] in b;
      } else if |a| <= i {
        assert c[i] == b[i - |a|] && c[j] == b[j - |a|];
      }
    }
  }

  lemma AppendKeepsDistinct(ps: seq<seq<Node>>, v: Node)
    requires Distinct(ps)
    ensures Distinct(AppendToEach(ps, v))
  {
    var r := AppendToEach(ps, v);
    forall i, j | 0 <= i < j < |r|
      ensures r[i] != r[j]
    {
      assert r[i][..|r[i]| - 1] == ps[i];
      assert r[j][..|r[j]| - 1] == ps[j];
    }
  }

  lemma PrependKeepsDistinct(u: Node, ps: seq<seq<Node>>)
    requires Distinct(ps)
    ensures Distinct(PrependToEach(u, ps))
  {
    var r := PrependToEach(u, ps);
    forall i, j | 0 <= i < j < |r|
      ensures r[i] != r[j]
    {
      assert r[i][1..] == ps[i];
      assert r[j][1..] == ps[j];
    }
  }

  // ---------------------------------------------------------------------
  // The walks into a node

  /** Everything `PathsTo` lists is a walk from `source` to v. */
  lemma {:induction false} PathsToSound(g: Graph, v: Node)
    requires WellFormed(g)
    ensures forall p | p in PathsTo(g, v) :: IsPath(g, p) && p[0] == Source && Last(p) == v
    decreases Rank(g.nCv, v), 1
  {
    if v != Source {
      ExtendPathsSound(g, Preds(g, v), v);
    }
  }

  lemma {:induction false} ExtendPathsSound(g: Graph, us: seq<Node>, v: Node)
    requires WellFormed(g)
    requires forall u | u in us :: HasEdge(g, u, v)
    ensures forall p | p in ExtendPaths(g, us, v) ::
      && IsPath(g, p) && p[0] == Source && Last(p) == v
      && |p| >= 2 && p[|p| - 2] in us
    decreases Rank(g.nCv, v), 0, |us|
  {
    if us != [] {
      var u := us[0];
      EdgeFacts(g, u, v);
      var ps := PathsTo(g, u);
      PathsToSound(g, u);
      ExtendPathsSound(g, us[1..], v);
      AppendedWalks(g, ps, u, v);
      var rest := ExtendPaths(g, us[1..], v);
      assert ExtendPaths(g, us, v) == AppendToEach(ps, v) + rest;
      forall p | p in ExtendPaths(g, us, v)
        ensures IsPath(g, p) && p[0] == Source && Last(p) == v && |p| >= 2 && p[|p| - 2] in us
      {
        if p !in AppendToEach(ps, v) {
          assert p in rest && p[|p| - 2] in us[1..];
        }
      }
    }
  }

  /** Walks from `source` to u, each extended by the edge u -> v. */
  lemma AppendedWalks(g: Graph, ps: seq<seq<Node>>, u: Node, v: Node)
    requires forall p | p in ps :: IsPath(g, p) && p[0] == Source && Last(p) == u
    requires HasEdge(g, u, v)
    ensures forall x | x in AppendToEach(ps, v) ::
      IsPath(g, x) && x[0] == Source && Last(x) == v && |x| >= 2 && x[|x| - 2] == u
  {
    var a := AppendToEach(ps, v);
    forall x | x in a
      ensures IsPath(g, x) && x[0] == Source && Last(x) == v && |x| >= 2 && x[|x| - 2] == u
    {
      var k :| 0 <= k < |ps| && a[k] == x;
      assert ps[k] in ps;
      WalkThenEdge(g, ps[k], v);
    }
  }

  /** Every walk from `source` is listed by `PathsTo` of its last node. */
  lemma {:induction false} PathsToComplete(g: Graph, p: seq<Node>)
    requires WellFormed(g) && IsPath(g, p) && p[0] == Source
    ensures p in PathsTo(g, Last(p))
    decreases |p|
  {
    if |p| == 1 {
      assert p == [Source];
    } else {
      var q := p[..|p| - 1];
      WalkInit(g, p);
      PathsToComplete(g, q);
      SnocLast(p);
      PathsToStep(g, Last(q), Last(p), q);
    }
  }

  lemma SnocLast<T>(p: seq<T>)
    requires |p| > 0
    ensures p == p[..|p| - 1] + [p[|p| - 1]]
  {
  }

  /** A listed walk into u, extended by an edge u -> v, is listed into v. */
  lemma PathsToStep(g: Graph, u: Node, v: Node, q: seq<Node>)
    requires WellFormed(g) && HasEdge(g, u, v) && q in PathsTo(g, u)
    ensures q + [v] in PathsTo(g, v)
  {
    EdgeFacts(g, u, v);
    ExtendPathsContains(g, Preds(g, v), v, u, q);
  }

  lemma {:induction false} ExtendPathsContains(g: Graph, us: seq<Node>, v: Node, u: Node, q: seq<Node>)
    requires WellFormed(g)
    requires forall x | x in us :: HasEdge(g, x, v)
    requires u in us && q in PathsTo(g, u)
    ensures q + [v] in ExtendPaths(g, us, v)
    decreases |us|
  {
    if us[0] == u {
      var ps := PathsTo(g, u);
      var k :| 0 <= k < |ps| && ps[k] == q;
      assert AppendToEach(ps, v)[k] == q + [v];
    } else {
      ExtendPathsContains(g, us[1..], v, u, q);
    }
  }

  /** `PathsTo` lists no walk twice. */
  lemma {:induction false} PathsToDistinct(g: Graph, v: Node)
    requires WellFormed(g)
    ensures Distinct(PathsTo(g, v))
    decreases Rank(g.nCv, v), 1
  {
    if v != Source {
      ExtendPathsDistinct(g, Preds(g, v), v);
    }
  }

  lemma {:induction false} ExtendPathsDistinct(g: Graph, us: seq<Node>, v: Node)
    requires WellFormed(g) && Distinct(us)
    requires forall u | u in us :: HasEdge(g, u, v)
    ensures Distinct(ExtendPaths(g, us, v))
    decreases Rank(g.nCv, v), 0, |us|
  {
    if us != [] {
      EdgeFacts(g, us[0], v);
      var ps := PathsTo(g, us[0]);
      PathsToDistinct(g, us[0]);
      AppendKeepsDistinct(ps, v);
      assert Distinct(us[1..]);
      ExtendPathsDistinct(g, us[1..], v);
      ExtendPathsBlocksDisjoint(g, us, v);
      DistinctConcat(AppendToEach(ps, v), ExtendPaths(g, us[1..], v));
    }
  }

  /** The walks through the first predecessor and those through the others
      differ in their second-to-last node. */
  lemma ExtendPathsBlocksDisjoint(g: Graph, us: seq<Node>, v: Node)
    requires WellFormed(g) && Distinct(us) && |us| > 0
    requires forall u | u in us :: HasEdge(g, u, v)
    ensures forall x | x in AppendToEach(PathsTo(g, us[0]), v) :: x !in ExtendPaths(g, us[1..], v)
  {
    var ps := PathsTo(g, us[0]);
    PathsToSound(g, us[0]);
    ExtendPathsSound(g, us[1..], v);
    AppendedPenultimate(ps, v, us[0]);
    assert us[0] !in us[1..];
    DisjointByPenultimate(AppendToEach(ps, v), ExtendPaths(g, us[1..], v), us[0], us[1..]);
  }

  lemma AppendedPenultimate(ps: seq<seq<Node>>, v: Node, s: Node)
    requires forall p | p in ps :: |p| > 0 && Last(p) == s
    ensures forall x | x in AppendToEach(ps, v) :: |x| >= 2 && x[|x| - 2] == s
  {
    var a := AppendToEach(ps, v);
    forall x | x in a
      ensures |x| >= 2 && x[|x| - 2] == s
    {
      var k :| 0 <= k < |ps| && a[k] == x;
      assert ps[k] in ps;
    }
  }

  /** Walks whose next-to-last nodes come from disjoint places are different. */
  lemma DisjointByPenultimate(a: seq<seq<Node>>, b: seq<seq<Node>>, s: Node, rest: seq<Node>)
    requires forall x | x in a :: |x| >= 2 && x[|x| - 2] == s
    requires forall y | y in b :: |y| >= 2 && y[|y| - 2] in rest
    requires s !in rest
    ensures forall x | x in a :: x !in b
  {
  }

  // ---------------------------------------------------------------------
  // The walks out of a node

  /** Everything `PathsFrom` lists is a walk from u to `target`. */
  lemma {:induction false} PathsFromSound(g: Graph, u: Node)
    requires WellFormed(g) && u in g.nodes
    ensures forall p | p in PathsFrom(g, u) :: IsPath(g, p) && p[0] == u && Last(p) == Target
    decreases 2 * g.nCv - Rank(g.nCv, u), 1
  {
    if u != Target {
      PrependPathsSound(g, u, Succs(g, u));
    }
  }

  lemma {:induction false} PrependPathsSound(g: Graph, u: Node, ss: seq<Node>)
    requires WellFormed(g) && u in g.nodes
    requires forall s | s in ss :: HasEdge(g, u, s)
    ensures forall p | p in PrependPaths(g, u, ss) ::
      && IsPath(g, p) && p[0] == u && Last(p) == Target
      && |p| >= 2 && p[1] in ss
    decreases 2 * g.nCv - Rank(g.nCv, u), 0, |ss|
  {
    if ss != [] {
      var s := ss[0];
      EdgeFacts(g, u, s);
      var ps := PathsFrom(g, s);
      PathsFromSound(g, s);
      PrependPathsSound(g, u, ss[1..]);
      PrependedWalks(g, u, s, ps);
      var rest := PrependPaths(g, u, ss[1..]);
      assert PrependPaths(g, u, ss) == PrependToEach(u, ps) + rest;
      forall p | p in PrependPaths(g, u, ss)
        ensures IsPath(g, p) && p[0] == u && Last(p) == Target && |p| >= 2 && p[1] in ss
      {
        if p !in PrependToEach(u, ps) {
          assert p in rest && p[1] in ss[1..];
        }
      }
    }
  }

  /** Walks from s to `target`, each preceded by the edge u -> s. */
  lemma PrependedWalks(g: Graph, u: Node, s: Node, ps: seq<seq<Node>>)
    requires forall p | p in ps :: IsPath(g, p) && p[0] == s && Last(p) == Target
    requires HasEdge(g, u, s)
    ensures forall x | x in PrependToEach(u, ps) ::
      IsPath(g, x) && x[0] == u && Last(x) == Target && |x| >= 2 && x[1] == s
  {
    var a := PrependToEach(u, ps);
    forall x | x in a
      ensures IsPath(g, x) && x[0] == u && Last(x) == Target && |x| >= 2 && x[1] == s
    {
      var k :| 0 <= k < |ps| && a[k] == x;
      assert ps[k] in ps;
      EdgeThenWalk(g, u, ps[k]);
    }
  }

  /** Every walk to `target` is listed by `PathsFrom` of its first node. */
  lemma {:induction false} PathsFromComplete(g: Graph, p: seq<Node>)
    requires WellFormed(g) && IsPath(g, p) && p[0] in g.nodes && Last(p) == Target
    ensures p in PathsFrom(g, p[0])
    decreases |p|
  {
    var u := p[0];
    if |p| == 1 {
      assert p == [Target];
    } else {
      var q := p[1..];
      WalkTail(g, p);
      EdgeFacts(g, u, q[0]);
      PathsFromComplete(g, q);
      ConsFirst(p);
      PathsFromStep(g, u, q[0], q);
    }
  }

  lemma ConsFirst<T>(p: seq<T>)
    requires |p| > 0
    ensures p == [p[0]] + p[1..]
  {
  }

  /** A listed walk out of s, preceded by an edge u -> s, is listed out of u. */
  lemma PathsFromStep(g: Graph, u: Node, s: Node, q: seq<Node>)
    requires WellFormed(g) && HasEdge(g, u, s) && s in g.nodes && q in PathsFrom(g, s)
    ensures u in g.nodes && [u] + q in PathsFrom(g, u)
  {
    EdgeFacts(g, u, s);
    PrependPathsContains(g, u, Succs(g, u), s, q);
  }

  lemma {:induction false} PrependPathsContains(g: Graph, u: Node, ss: seq<Node>, s: Node, q: seq<Node>)
    requires WellFormed(g) && u in g.nodes
    requires forall x | x in ss :: HasEdge(g, u, x)
    requires s in ss && s in g.nodes && q in PathsFrom(g, s)
    ensures [u] + q in PrependPaths(g, u, ss)
    decreases |ss|
  {
    if ss[0] == s {
      var ps := PathsFrom(g, s);
      var k :| 0 <= k < |ps| && ps[k] == q;
      assert PrependToEach(u, ps)[k] == [u] + q;
    } else {
      PrependPathsContains(g, u, ss[1..], s, q);
    }
  }

  /** `PathsFrom` lists no walk twice. */
  lemma {:induction false} PathsFromDistinct(g: Graph, u: Node)
    requires WellFormed(g) && u in g.nodes
    ensures Distinct(PathsFrom(g, u))
    decreases 2 * g.nCv - Rank(g.nCv, u), 1
  {
    if u != Target {
      PrependPathsDistinct(g, u, Succs(g, u));
    }
  }

  lemma {:induction false} PrependPathsDistinct(g: Graph, u: Node, ss: seq<Node>)
    requires WellFormed(g) && u in g.nodes && Distinct(ss)
    requires forall s | s in ss :: HasEdge(g, u, s)
    ensures Distinct(PrependPaths(g, u, ss))
    decreases 2 * g.nCv - Rank(g.nCv, u), 0, |ss|
  {
    if ss != [] {
      EdgeFacts(g, u, ss[0]);
      var ps := PathsFrom(g, ss[0]);
      PathsFromDistinct(g, ss[0]);
      PrependKeepsDistinct(u, ps);
      assert Distinct(ss[1..]);
      PrependPathsDistinct(g, u, ss[1..]);
      PrependPathsBlocksDisjoint(g, u, ss);
      DistinctConcat(PrependToEach(u, ps), PrependPaths(g, u, ss[1..]));
    }
  }

  /** The walks through the first successor and those through the others
      differ in their second node. */
  lemma PrependPathsBlocksDisjoint(g: Graph, u: Node, ss: seq<Node>)
    requires WellFormed(g) && u in g.nodes && Distinct(ss) && |ss| > 0
    requires forall s | s in ss :: HasEdge(g, u, s)
    ensures ss[0] in g.nodes
    ensures forall x | x in PrependToEach(u, PathsFrom(g, ss[0])) :: x !in PrependPaths(g, u, ss[1..])
  {
    EdgeFacts(g, u, ss[0]);
    var ps := PathsFrom(g, ss[0]);
    PathsFromSound(g, ss[0]);
    PrependPathsSound(g, u, ss[1..]);
    PrependedSecond(u, ps, ss[0]);
    assert ss[0] !in ss[1..];
    DisjointBySecond(PrependToEach(u, ps), PrependPaths(g, u, ss[1..]), ss[0], ss[1..]);
  }

  lemma PrependedSecond(u: Node, ps: seq<seq<Node>>, s: Node)
    requires forall p | p in ps :: |p| > 0 && p[0] == s
    ensures forall x | x in PrependToEach(u, ps) :: |x| >= 2 && x[1] == s
  {
    var a := PrependToEach(u, ps);
    forall x | x in a
      ensures |x| >= 2 && x[1] == s
    {
      var k :| 0 <= k < |ps| && a[k] == x;
      assert ps[k] in ps;
    }
  }

  /** Walks whose second nodes come from disjoint places are different. */
  lemma DisjointBySecond(a: seq<seq<Node>>, b: seq<seq<Node>>, s: Node, rest: seq<Node>)
    requires forall x | x in a :: |x| >= 2 && x[1] == s
    requires forall y | y in b :: |y| >= 2 && y[1] in rest
    requires s !in rest
    ensures forall x | x in a :: x !in b
  {
  }

  // ---------------------------------------------------------------------
  // Consequences

  /** Counting the walks forward into `target` and backward out of
      `source` gives the same number: both list exactly the complete walks. */
  lemma CompletePathCountsAgree(g: Graph)
    requires WellFormed(g)
    ensures |PathsFrom(g, Source)| == |PathsTo(g, Target)|
  {
    PathsFromSound(g, Source);
    PathsToSound(g, Target);
    forall p
      ensures p in PathsFrom(g, Source) <==> p in PathsTo(g, Target)
    {
      if p in PathsFrom(g, Source) {
        PathsToComplete(g, p);
      }
      if p in PathsTo(g, Target) {
        PathsFromComplete(g, p);
      }
    }
    PathsFromDistinct(g, Source);
    PathsToDistinct(g, Target);
    SameElementsSameLength(PathsFrom(g, Source), PathsTo(g, Target));
  }

  /** A walk that starts at `source` stays inside any node set that holds
      `source` and is closed under successors. */
  lemma {:induction false} WalkStaysInClosedSet(g: Graph, p: seq<Node>, order: seq<Node>)
    requires IsPath(g, p) && p[0] == Source
    requires forall u, w | (u == Source || u in order) && HasEdge(g, u, w) :: w in order
    ensures Last(p) == Source || Last(p) in order
    decreases |p|
  {
    if |p| > 1 {
      var q := p[..|p| - 1];
      WalkInit(g, p);
      WalkStaysInClosedSet(g, q, order);
    }
  }

  /** A node outside such a closed set has no walk from `source`. */
  lemma OutsideClosedSetUnreached(g: Graph, order: seq<Node>, v: Node)
    requires WellFormed(g)
    requires forall u, w | (u == Source || u in order) && HasEdge(g, u, w) :: w in order
    requires v != Source && v !in order
    ensures PathsTo(g, v) == []
  {
    if PathsTo(g, v) != [] {
      PathsToSound(g, v);
      WalkStaysInClosedSet(g, PathsTo(g, v)[0], order);
    }
  }

  /** Reachability yields a walk. */
  lemma {:induction false} ReachGivesWalk(g: Graph, u: Node, v: Node) returns (p: seq<Node>)
    requires WellFormed(g) && Reach(g, u, v)
    ensures IsPath(g, p) && p[0] == u && Last(p) == v
    decreases Rank(g.nCv, v) - Rank(g.nCv, u)
  {
    if u == v {
      p := [u];
    } else {
      var w :| w in g.nodes && HasEdge(g, u, w) && Rank(g.nCv, w) <= Rank(g.nCv, v) && Reach(g, w, v);
      var q := ReachGivesWalk(g, w, v);
      EdgeThenWalk(g, u, q);
      p := [u] + q;
      assert Last(p) == Last(q);
    }
  }

  /** A walk shows its last node reachable from its first, at a higher rank
      once it has an edge. */
  lemma {:induction false} WalkGivesReach(g: Graph, p: seq<Node>)
    requires WellFormed(g) && IsPath(g, p)
    ensures Reach(g, p[0], Last(p))
    ensures |p| >= 2 ==> Rank(g.nCv, p[0]) < Rank(g.nCv, Last(p))
    decreases |p|
  {
    if |p| >= 2 {
      WalkTail(g, p);
      WalkGivesReach(g, p[1..]);
      assert Last(p[1..]) == Last(p);
      EdgeFacts(g, p[0], p[1]);
      EdgeThenReach(g, p[0], p[1], Last(p));
      ReachRaisesRank(g, p[1], Last(p));
    } else {
      assert Last(p) == p[0];
    }
  }

  /** A node reachable from `source` has at least one walk from it. */
  lemma ReachableHasPaths(g: Graph, v: Node)
    requires WellFormed(g) && Reach(g, Source, v)
    ensures |PathsTo(g, v)| > 0
  {
    var p := ReachGivesWalk(g, Source, v);
    PathsToComplete(g, p);
  }
}
