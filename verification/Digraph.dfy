/** Finite directed graphs given as sets of edges: chains, cycles, heights and closure. */
module Digraph {

  type Edges<!T(==)> = set<(T, T)>

  /** A non-empty walk along edges. */
  predicate Chain<T(==)>(r: Edges<T>, p: seq<T>) {
    |p| >= 1 && forall i | 0 <= i < |p| - 1 :: (p[i], p[i+1]) in r
  }

  ghost predicate Acyclic<T(!new)>(r: Edges<T>) {
    forall p: seq<T> | Chain(r, p) && |p| >= 2 :: p[0] != p[|p|-1]
  }

  /** The longest chain that ends in `x` has exactly `k` edges. */
  ghost predicate HasHeight<T(!new)>(r: Edges<T>, x: T, k: nat) {
    && (exists p: seq<T> :: Chain(r, p) && |p| == k + 1 && p[k] == x)
    && (forall p: seq<T> | Chain(r, p) && p[|p|-1] == x :: |p| <= k + 1)
  }

  /** Transitive closure: a chain of at least one edge leads from `a` to `b`. */
  ghost predicate Reaches<T(!new)>(r: Edges<T>, a: T, b: T) {
    exists p: seq<T> :: Chain(r, p) && |p| >= 2 && p[0] == a && p[|p|-1] == b
  }

  lemma LastEdge<T(!new)>(r: Edges<T>, p: seq<T>)
    requires Chain(r, p) && |p| >= 2
    ensures (p[|p|-2], p[|p|-1]) in r
  {
    assert (p[|p|-2], p[|p|-2+1]) in r;
  }

  lemma EdgeReaches<T(!new)>(r: Edges<T>, a: T, b: T)
    requires (a, b) in r
    ensures Reaches(r, a, b)
  {
    assert Chain(r, [a, b]);
  }

  lemma ReachesTransitive<T(!new)>(r: Edges<T>, a: T, b: T, c: T)
    requires Reaches(r, a, b) && Reaches(r, b, c)
    ensures Reaches(r, a, c)
  {
    var p :| Chain(r, p) && |p| >= 2 && p[0] == a && p[|p|-1] == b;
    var q :| Chain(r, q) && |q| >= 2 && q[0] == b && q[|q|-1] == c;
    var w := p + q[1..];
    forall i | 0 <= i < |w| - 1 ensures (w[i], w[i+1]) in r {
      if i == |p| - 1 {
        assert (q[0], q[1]) in r;
      } else if i >= |p| {
        assert w[i] == q[i - |p| + 1] && w[i+1] == q[i - |p| + 2];
      }
    }
    assert Chain(r, w);
  }

  /** The last edge of a chain can be split off. */
  lemma ReachesSplit<T(!new)>(r: Edges<T>, a: T, c: T) returns (b: T)
    requires Reaches(r, a, c)
    ensures (b, c) in r && (a == b || Reaches(r, a, b))
  {
    var p :| Chain(r, p) && |p| >= 2 && p[0] == a && p[|p|-1] == c;
    b := p[|p|-2];
    if |p| > 2 {
      assert Chain(r, p[..|p|-1]);
    }
  }

  lemma AcyclicIrreflexive<T(!new)>(r: Edges<T>, a: T)
    requires Acyclic(r)
    ensures !Reaches(r, a, a)
  {
  }

  lemma HeightUnique<T(!new)>(r: Edges<T>, x: T, j: nat, k: nat)
    requires HasHeight(r, x, j) && HasHeight(r, x, k)
    ensures j == k
  {
    var p :| Chain(r, p) && |p| == j + 1 && p[j] == x;
    var q :| Chain(r, q) && |q| == k + 1 && q[k] == x;
  }

  lemma RootHeight<T(!new)>(r: Edges<T>, x: T)
    requires forall d :: (d, x) !in r
    ensures HasHeight(r, x, 0)
  {
    assert Chain(r, [x]);
    forall p: seq<T> | Chain(r, p) && p[|p|-1] == x ensures |p| <= 1 {
      if |p| >= 2 { LastEdge(r, p); }
    }
  }

  /** One more than the largest height among the predecessors. */
  lemma HeightStep<T(!new)>(r: Edges<T>, x: T, d: T, k: nat, h: map<T, nat>)
    requires (d, x) in r && HasHeight(r, d, k)
    requires forall e :: (e, x) in r ==> e in h && HasHeight(r, e, h[e]) && h[e] <= k
    ensures HasHeight(r, x, k + 1)
  {
    var p :| Chain(r, p) && |p| == k + 1 && p[k] == d;
    var q := p + [x];
    assert Chain(r, q) && |q| == k + 2 && q[k+1] == x;
    forall w: seq<T> | Chain(r, w) && w[|w|-1] == x ensures |w| <= k + 2 {
      if |w| >= 2 {
        var e := w[|w|-2];
        assert (e, w[|w|-2+1]) in r;
        var v := w[..|w|-1];
        assert Chain(r, v) && v[|v|-1] == e;
      }
    }
  }

  /** A predecessor is strictly lower. */
  /** A longest chain leaves from a predecessor of the next lower height. */
  lemma HeightBelow<T(!new)>(r: Edges<T>, x: T, k: nat) returns (d: T)
    requires HasHeight(r, x, k) && k >= 1
    ensures (d, x) in r && HasHeight(r, d, k - 1)
  {
    var p :| Chain(r, p) && |p| == k + 1 && p[k] == x;
    LastEdge(r, p);
    d := p[k-1];
    assert Chain(r, p[..k]) && |p[..k]| == k && p[..k][k-1] == d;
    forall w: seq<T> | Chain(r, w) && w[|w|-1] == d ensures |w| <= k {
      assert Chain(r, w + [x]) && (w + [x])[|w + [x]| - 1] == x;
    }
  }

  lemma HeightMonotone<T(!new)>(r: Edges<T>, d: T, x: T, j: nat, k: nat)
    requires (d, x) in r && HasHeight(r, d, j) && HasHeight(r, x, k)
    ensures j < k
  {
    var p :| Chain(r, p) && |p| == j + 1 && p[j] == d;
    assert Chain(r, p + [x]);
    assert (p + [x])[|p + [x]| - 1] == x;
  }

  lemma {:induction false} ReachesLower<T(!new)>(r: Edges<T>, p: seq<T>, h: map<T, nat>)
    requires Chain(r, p) && |p| >= 2
    requires forall e :: e in r ==> e.0 in h && e.1 in h && h[e.0] < h[e.1]
    ensures p[0] in h && p[|p|-1] in h && h[p[0]] < h[p[|p|-1]]
    decreases |p|
  {
    assert (p[|p|-2], p[|p|-2+1]) in r;
    if |p| > 2 {
      var q := p[..|p|-1];
      assert Chain(r, q);
      ReachesLower(r, q, h);
    }
  }

  /** A graph whose edges climb a rank has no cycle. */
  lemma RankedAcyclic<T(!new)>(r: Edges<T>, h: map<T, nat>)
    requires forall e :: e in r ==> e.0 in h && e.1 in h && h[e.0] < h[e.1]
    ensures Acyclic(r)
  {
    forall p: seq<T> | Chain(r, p) && |p| >= 2 ensures p[0] != p[|p|-1] {
      ReachesLower(r, p, h);
    }
  }

  lemma {:induction false} Pigeonhole<T(!new)>(s: set<T>, p: seq<T>) returns (i: nat, j: nat)
    requires forall x | x in p :: x in s
    requires |p| > |s|
    ensures i < j < |p| && p[i] == p[j]
    decreases |s|
  {
    var x := p[|p|-1];
    assert x in s;
    var front := p[..|p|-1];
    if x in front {
      i :| 0 <= i < |front| && front[i] == x;
      j := |p| - 1;
    } else {
      assert forall y | y in front :: y in s - {x};
      i, j := Pigeonhole(s - {x}, front);
    }
  }

  /** Some predecessor of `x` is in `s`. */
  ghost predicate WaitsIn<T(!new)>(r: Edges<T>, s: set<T>, x: T) {
    exists d :: d in s && (d, x) in r
  }

  lemma {:induction false} BackwardWalk<T(!new)>(r: Edges<T>, s: set<T>, x: T, n: nat) returns (p: seq<T>)
    requires x in s
    requires forall y {:trigger WaitsIn(r, s, y)} | y in s :: WaitsIn(r, s, y)
    ensures |p| == n + 1 && Chain(r, p) && p[n] == x && forall y | y in p :: y in s
  {
    if n == 0 {
      p := [x];
    } else {
      var q := BackwardWalk(r, s, x, n - 1);
      assert q[0] in s && WaitsIn(r, s, q[0]);
      var d :| d in s && (d, q[0]) in r;
      p := [d] + q;
    }
  }

  /** Nodes that all wait for one another hide a cycle. */
  lemma StuckHasCycle<T(!new)>(r: Edges<T>, s: set<T>)
    requires s != {}
    requires forall x {:trigger WaitsIn(r, s, x)} | x in s :: WaitsIn(r, s, x)
    ensures !Acyclic(r)
  {
    var x :| x in s;
    var p := BackwardWalk(r, s, x, |s|);
    var i, j := Pigeonhole(s, p);
    var c := p[i..j+1];
    assert Chain(r, c) && |c| >= 2 && c[0] == c[|c|-1];
  }

  /** ... and none of them has a longest chain. */
  lemma StuckHasNoHeight<T(!new)>(r: Edges<T>, s: set<T>, x: T, k: nat)
    requires x in s
    requires forall y {:trigger WaitsIn(r, s, y)} | y in s :: WaitsIn(r, s, y)
    ensures !HasHeight(r, x, k)
  {
    var p := BackwardWalk(r, s, x, k + 1);
  }
}
