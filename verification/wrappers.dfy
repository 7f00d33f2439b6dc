/** Optional values (edge attributes) and results with an error (the
    exceptions the pipeline raises). */
module Wrappers {

  datatype Option<+T> = None | Some(value: T)

  datatype Result<+T, +E> = Ok(value: T) | Err(error: E)

  /** No element occurs twice. */
  predicate Distinct<T(==)>(s: seq<T>) {
    forall i, j | 0 <= i < j < |s| :: s[i] != s[j]
  }

  /** x occurs strictly before y in `ns`. */
  ghost predicate InOrder<T>(ns: seq<T>, x: T, y: T) {
    exists a, b | 0 <= a < b < |ns| :: ns[a] == x && ns[b] == y
  }

  lemma InOrderCons<T>(ns: seq<T>, x: T, y: T)
    requires |ns| > 0
    requires InOrder(ns[1..], x, y) || (x == ns[0] && y in ns[1..])
    ensures InOrder(ns, x, y)
  {
    if InOrder(ns[1..], x, y) {
      var a, b :| 0 <= a < b < |ns[1..]| && ns[1..][a] == x && ns[1..][b] == y;
      assert ns[a + 1] == x && ns[b + 1] == y;
    } else {
      var b :| 0 <= b < |ns[1..]| && ns[1..][b] == y;
      assert ns[0] == x && ns[b + 1] == y;
    }
  }

  /** One step of an order-keeping filter: keeping or dropping the head of
      `ns` in front of a filtered, ordered tail keeps the order. */
  lemma FilterStepKeepsOrder<T>(ns: seq<T>, r: seq<T>, rest: seq<T>, keep: bool)
    requires |ns| > 0 && r == (if keep then [ns[0]] else []) + rest
    requires forall x | x in rest :: x in ns[1..]
    requires forall p, q | 0 <= p < q < |rest| :: InOrder(ns[1..], rest[p], rest[q])
    ensures forall p, q | 0 <= p < q < |r| :: InOrder(ns, r[p], r[q])
  {
    var k := if keep then 1 else 0;
    forall p, q | 0 <= p < q < |r|
      ensures InOrder(ns, r[p], r[q])
    {
      assert r[q] == rest[q - k] && rest[q - k] in rest;
      if p < k {
        assert r[p] == ns[0];
      } else {
        assert r[p] == rest[p - k];
      }
      InOrderCons(ns, r[p], r[q]);
    }
  }

  /** In a list without repeats, nodes in order are different. */
  lemma InOrderDistinct<T>(ns: seq<T>, x: T, y: T)
    requires Distinct(ns) && InOrder(ns, x, y)
    ensures x != y
  {
  }

  function Last<T>(s: seq<T>): T
    requires |s| > 0
  {
    s[|s| - 1]
  }

  function Min(a: int, b: int): int { if a <= b then a else b }

  function Max(a: int, b: int): int { if a >= b then a else b }

  lemma ConcatAssoc<T>(a: seq<T>, b: seq<T>, c: seq<T>)
    ensures (a + b) + c == a + (b + c)
  {
  }

  /** A duplicate-free sequence has as many elements as its set. */
  lemma {:induction false} DistinctCardinality<T>(s: seq<T>)
    requires Distinct(s)
    ensures |set x | x in s| == |s|
  {
    if |s| > 0 {
      var init := s[..|s| - 1];
      assert Distinct(init);
      DistinctCardinality(init);
      assert (set x | x in s) == (set x | x in init) + {Last(s)};
      assert Last(s) !in init;
    }
  }

  /** Two duplicate-free sequences with the same elements have the same length. */
  lemma SameElementsSameLength<T>(a: seq<T>, b: seq<T>)
    requires Distinct(a) && Distinct(b)
    requires forall x :: x in a <==> x in b
    ensures |a| == |b|
  {
    DistinctCardinality(a);
    DistinctCardinality(b);
    assert (set x | x in a) == (set x | x in b);
  }
}
