/** Superreads, the nodes of the superread graph, and the directed
    compatibility check between two nodes (convex_qsr/graph.py). */
module Fragments {
  import opened Wrappers

  /** One superread: the half-open interval [cvStart, cvEnd) of covarying
      sites it spans, the symbol observed at each of those sites, and a weight
      that only the admission filter looks at. */
  datatype Superread = Superread(index: int, cvStart: nat, cvEnd: nat, vacs: string, weight: int)

  /** A graph node: one of the two sentinels, which carry no `index`, or an
      admitted superread, identified by its `index`. */
  datatype Node = Source | Target | Fragment(read: Superread)

  /** What the checker reports: whether an edge i -> j is allowed and the
      length of the overlap window it compared (0 when rejected early). */
  datatype Compatibility = Compatibility(compatible: bool, overlap: nat)

  /** The default `minimum_overlap`; the graph builders never pass another. */
  const DefaultMinimumOverlap: nat := 2

  /** The shape the upstream extraction guarantees: a non-empty interval and
      one symbol per covarying site in it. */
  predicate WellFormedRead(sr: Superread) {
    sr.cvStart < sr.cvEnd && |sr.vacs| == sr.cvEnd - sr.cvStart
  }

  /** Python's `s[lo:hi]` for non-negative bounds: both ends are clamped to
      the length, and an inverted window is empty. */
  function Slice(s: string, lo: nat, hi: nat): (r: string)
    ensures |r| == if lo <= hi then Min(hi, |s|) - Min(lo, |s|) else 0
    ensures forall k | 0 <= k < |r| :: r[k] == s[lo + k]
    ensures lo <= hi <= |s| ==> r == s[lo..hi]
  {
    if hi <= lo || |s| <= lo then [] else s[lo..Min(hi, |s|)]
  }

  /** i starts no later than j, j starts before i ends, i ends no later than j. */
  predicate Precedes(i: Superread, j: Superread) {
    i.cvStart <= j.cvStart && j.cvStart < i.cvEnd && i.cvEnd <= j.cvEnd
  }

  /** The pairs the checker compares symbol by symbol: two superreads with
      different indices whose intervals are in the `Precedes` order. */
  predicate Comparable(i: Node, j: Node) {
    i.Fragment? && j.Fragment? && i.read.index != j.read.index && Precedes(i.read, j.read)
  }

  /** `check_compatability`: slices both symbol sequences to the overlap of
      the two intervals and compares them. */
  function CheckCompatibility(i: Node, j: Node, minimumOverlap: int): (r: Compatibility)
    // a sentinel, the same index twice, or intervals out of order: rejected outright
    ensures !Comparable(i, j) ==> r == Compatibility(false, 0)
    // otherwise the window is [j.cvStart, i.cvEnd): the tail of i against the head of j
    ensures Comparable(i, j) && WellFormedRead(i.read) && WellFormedRead(j.read) ==>
      && r.overlap == i.read.cvEnd - j.read.cvStart
      && 1 <= r.overlap <= Min(|i.read.vacs|, |j.read.vacs|)
      && (r.compatible <==>
            r.overlap >= minimumOverlap &&
            i.read.vacs[j.read.cvStart - i.read.cvStart..] == j.read.vacs[..r.overlap])
  {
    if !i.Fragment? || !j.Fragment? then Compatibility(false, 0)
    else if i.read.index == j.read.index then Compatibility(false, 0)
    else
      var a, b := i.read, j.read;
      if Precedes(a, b) then
        var cvStart := Max(a.cvStart, b.cvStart);
        var cvEnd := Min(a.cvEnd, b.cvEnd);
        var delta := cvEnd - cvStart;
        var iStart := cvStart - a.cvStart;
        var jStart := cvStart - b.cvStart;
        var iSequence := Slice(a.vacs, iStart, iStart + delta);
        var jSequence := Slice(b.vacs, jStart, jStart + delta);
        var overlap := |iSequence|;
        Compatibility(iSequence == jSequence && overlap >= minimumOverlap, overlap)
      else
        Compatibility(false, 0)
  }

  /** A compatible pair never decreases either end of the interval, and the
      overlap reaches the requested minimum. */
  lemma CompatibleIsMonotone(i: Node, j: Node, minimumOverlap: int)
    requires CheckCompatibility(i, j, minimumOverlap).compatible
    ensures i.Fragment? && j.Fragment? && i.read.index != j.read.index
    ensures i.read.cvStart <= j.read.cvStart && i.read.cvEnd <= j.read.cvEnd
    ensures j.read.cvStart < i.read.cvEnd
    ensures CheckCompatibility(i, j, minimumOverlap).overlap >= minimumOverlap
  {
  }

  /** Between two superreads with the same interval the check is symmetric:
      the window is the whole interval on both sides. */
  lemma SameIntervalSymmetric(i: Node, j: Node, minimumOverlap: int)
    requires i.Fragment? && j.Fragment?
    requires WellFormedRead(i.read) && WellFormedRead(j.read)
    requires i.read.cvStart == j.read.cvStart && i.read.cvEnd == j.read.cvEnd
    ensures CheckCompatibility(i, j, minimumOverlap) == CheckCompatibility(j, i, minimumOverlap)
    ensures CheckCompatibility(i, j, minimumOverlap).compatible ==> i.read.vacs == j.read.vacs
  {
    assert Comparable(i, j) <==> Comparable(j, i);
    if Comparable(i, j) {
      var n := |i.read.vacs|;
      assert i.read.vacs[0..] == i.read.vacs && j.read.vacs[..n] == j.read.vacs;
      assert j.read.vacs[0..] == j.read.vacs && i.read.vacs[..n] == i.read.vacs;
    }
  }

  /** Compatibility in both directions forces equal intervals and equal
      symbols, so any cycle of compatible edges runs through copies of one
      superread. */
  lemma MutualCompatibility(a: Superread, b: Superread, minimumOverlap: int)
    requires WellFormedRead(a) && WellFormedRead(b)
    requires CheckCompatibility(Fragment(a), Fragment(b), minimumOverlap).compatible
    requires CheckCompatibility(Fragment(b), Fragment(a), minimumOverlap).compatible
    ensures a.cvStart == b.cvStart && a.cvEnd == b.cvEnd
    ensures a.vacs == b.vacs
  {
    SameIntervalSymmetric(Fragment(a), Fragment(b), minimumOverlap);
  }

  /** A node is never compatible with itself. */
  lemma NeverSelfCompatible(i: Node, minimumOverlap: int)
    ensures CheckCompatibility(i, i, minimumOverlap) == Compatibility(false, 0)
  {
  }

  /** The two-superread scenario: positions 0-2 "AAT" and 2-4 "TCC" agree on
      the single shared site, which is below the default minimum overlap. */
  lemma ShortOverlapExample()
    ensures var a := Fragment(Superread(0, 0, 3, "AAT", 5));
            var b := Fragment(Superread(1, 2, 5, "TCC", 5));
            && CheckCompatibility(a, b, DefaultMinimumOverlap) == Compatibility(false, 1)
            && CheckCompatibility(a, b, 1) == Compatibility(true, 1)
            && CheckCompatibility(b, a, 1) == Compatibility(false, 0)
  {
  }
}
