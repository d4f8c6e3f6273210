/** Walks in a finite directed graph given by adjacency lists; lists may name vertices that do not exist. */
module Walks {

  /** Node ids: the algorithms only ever compare them. */
  type NodeId(==, !new)

  type Graph = map<NodeId, seq<NodeId>>

  predicate Edge(g: Graph, u: NodeId, v: NodeId) { u in g && v in g && v in g[u] }

  ghost predicate Walk(g: Graph, w: seq<NodeId>) {
    && w != []
    && (forall i :: 0 <= i < |w| ==> w[i] in g)
    && (forall i :: 0 <= i < |w| - 1 ==> Edge(g, w[i], w[i + 1]))
  }

  ghost predicate WalkFrom(g: Graph, a: NodeId, b: NodeId, w: seq<NodeId>) {
    Walk(g, w) && w[0] == a && w[|w| - 1] == b
  }

  /** `b` can be reached from `a`, in zero or more steps. */
  ghost predicate Reaches(g: Graph, a: NodeId, b: NodeId) { exists w :: WalkFrom(g, a, b, w) }

  ghost predicate ReachedFromAny(g: Graph, starts: seq<NodeId>, b: NodeId) {
    exists a :: a in starts && Reaches(g, a, b)
  }

  ghost predicate Closed(g: Graph, w: seq<NodeId>) { Walk(g, w) && |w| >= 2 && w[0] == w[|w| - 1] }

  ghost predicate OnCycle(g: Graph, v: NodeId) { exists w :: Closed(g, w) && w[0] == v }

  ghost predicate Acyclic(g: Graph) { forall w :: !Closed(g, w) }

  lemma SameEdgesSameWalks(g: Graph, h: Graph)
    requires g.Keys == h.Keys && forall u, v :: Edge(g, u, v) <==> Edge(h, u, v)
    ensures forall w {:trigger Walk(g, w)} {:trigger Walk(h, w)} :: Walk(g, w) <==> Walk(h, w)
  {
  }

  lemma Slice(g: Graph, w: seq<NodeId>, i: nat, j: nat)
    requires Walk(g, w) && i < j <= |w|
    ensures Walk(g, w[i..j])
  {
    var s := w[i..j];
    forall k | 0 <= k < |s| - 1 ensures Edge(g, s[k], s[k + 1]) { assert Edge(g, w[i + k], w[i + k + 1]); }
  }

  /** Two walks that share the joint vertex make one. */
  lemma Concat(g: Graph, a: seq<NodeId>, b: seq<NodeId>)
    requires Walk(g, a) && Walk(g, b) && a[|a| - 1] == b[0]
    ensures Walk(g, a + b[1..])
    ensures |a + b[1..]| == |a| + |b| - 1
    ensures (a + b[1..])[0] == a[0] && (a + b[1..])[|a| + |b| - 2] == b[|b| - 1]
  {
    var s := a + b[1..];
    forall k | 0 <= k < |s| - 1 ensures Edge(g, s[k], s[k + 1]) {
      if k < |a| - 1 {
        assert Edge(g, a[k], a[k + 1]);
      } else {
        assert s[k] == b[k - |a| + 1] && s[k + 1] == b[k - |a| + 2];
        assert Edge(g, b[k - |a| + 1], b[k - |a| + 2]);
      }
    }
  }

  lemma ReachesSelf(g: Graph, a: NodeId)
    requires a in g
    ensures Reaches(g, a, a)
  {
    assert WalkFrom(g, a, a, [a]);
  }

  lemma ReachesTransitive(g: Graph, a: NodeId, b: NodeId, c: NodeId)
    requires Reaches(g, a, b) && Reaches(g, b, c)
    ensures Reaches(g, a, c)
  {
    var w1 :| WalkFrom(g, a, b, w1);
    var w2 :| WalkFrom(g, b, c, w2);
    Concat(g, w1, w2);
    assert WalkFrom(g, a, c, w1 + w2[1..]);
  }

  lemma EdgeReaches(g: Graph, a: NodeId, b: NodeId)
    requires Edge(g, a, b)
    ensures Reaches(g, a, b)
  {
    assert Walk(g, [a, b]);
    assert WalkFrom(g, a, b, [a, b]);
  }

  /** Every vertex of a walk is reached from its first and reaches its last. */
  lemma ReachesAlong(g: Graph, w: seq<NodeId>, k: nat)
    requires Walk(g, w) && k < |w|
    ensures Reaches(g, w[0], w[k]) && Reaches(g, w[k], w[|w| - 1])
  {
    Slice(g, w, 0, k + 1);
    Slice(g, w, k, |w|);
    assert WalkFrom(g, w[0], w[k], w[..k + 1]);
    assert WalkFrom(g, w[k], w[|w| - 1], w[k..]);
  }

  lemma RepeatCloses(g: Graph, w: seq<NodeId>, i: nat, j: nat)
    requires Walk(g, w) && i < j < |w| && w[i] == w[j]
    ensures Closed(g, w[i..j + 1])
  {
    Slice(g, w, i, j + 1);
  }

  lemma EdgeBackCloses(g: Graph, w: seq<NodeId>, k: nat)
    requires Walk(g, w) && k < |w| && Edge(g, w[|w| - 1], w[k])
    ensures !Acyclic(g)
  {
    Slice(g, w, k, |w|);
    Concat(g, w[k..], [w[|w| - 1], w[k]]);
    assert Closed(g, w[k..] + [w[|w| - 1], w[k]][1..]);
  }

  /** A list drawn from a smaller set repeats itself. */
  lemma {:induction false} Pigeonhole(w: seq<NodeId>, s: set<NodeId>) returns (i: nat, j: nat)
    requires |w| > |s| && forall k :: 0 <= k < |w| ==> w[k] in s
    ensures i < j < |w| && w[i] == w[j]
  {
    var x := w[|w| - 1];
    var rest := w[..|w| - 1];
    if x in rest {
      i :| 0 <= i < |rest| && rest[i] == x;
      j := |w| - 1;
    } else {
      i, j := Pigeonhole(rest, s - {x});
    }
  }

  lemma LongWalkHasCycle(g: Graph, w: seq<NodeId>) returns (i: nat, j: nat)
    requires Walk(g, w) && |w| > |g|
    ensures i < j < |w| && Closed(g, w[i..j + 1])
  {
    assert |g| == |g.Keys|;
    i, j := Pigeonhole(w, g.Keys);
    RepeatCloses(g, w, i, j);
  }

  lemma AcyclicWalkDistinct(g: Graph, w: seq<NodeId>)
    requires Acyclic(g) && Walk(g, w)
    ensures forall i, j :: 0 <= i < j < |w| ==> w[i] != w[j]
    ensures |w| <= |g|
  {
    forall i, j | 0 <= i < j < |w| ensures w[i] != w[j] {
      if w[i] == w[j] { RepeatCloses(g, w, i, j); }
    }
    if |w| > |g| {
      var i, j := LongWalkHasCycle(g, w);
    }
  }

  /** A set that holds a walk's first vertex and every successor of its members holds the whole walk. */
  lemma {:induction false} ClosedSetHoldsWalk(g: Graph, s: set<NodeId>, w: seq<NodeId>)
    requires Walk(g, w) && w[0] in s
    requires forall u, v :: u in s && Edge(g, u, v) ==> v in s
    ensures w[|w| - 1] in s
  {
    if |w| > 1 {
      Slice(g, w, 0, |w| - 1);
      ClosedSetHoldsWalk(g, s, w[..|w| - 1]);
      assert Edge(g, w[|w| - 2], w[|w| - 1]);
    }
  }

  // ------------------------------------------------------------ reversal

  ghost predicate Reverse(g: Graph, r: Graph) {
    g.Keys == r.Keys && forall u, v :: Edge(g, u, v) <==> Edge(r, v, u)
  }

  function Backwards(w: seq<NodeId>): (r: seq<NodeId>)
    ensures |r| == |w| && forall i :: 0 <= i < |w| ==> r[i] == w[|w| - 1 - i]
  {
    seq(|w|, i requires 0 <= i < |w| => w[|w| - 1 - i])
  }

  lemma WalkBackwards(g: Graph, r: Graph, w: seq<NodeId>)
    requires Reverse(g, r) && Walk(g, w)
    ensures Walk(r, Backwards(w))
  {
    var b := Backwards(w);
    forall i | 0 <= i < |b| - 1 ensures Edge(r, b[i], b[i + 1]) {
      assert Edge(g, w[|w| - 2 - i], w[|w| - 2 - i + 1]);
    }
  }

  lemma ReachesReversed(g: Graph, r: Graph, a: NodeId, b: NodeId)
    requires Reverse(g, r)
    ensures Reaches(g, a, b) <==> Reaches(r, b, a)
  {
    if Reaches(g, a, b) {
      var w :| WalkFrom(g, a, b, w);
      WalkBackwards(g, r, w);
      assert WalkFrom(r, b, a, Backwards(w));
    }
    if Reaches(r, b, a) {
      var w :| WalkFrom(r, b, a, w);
      WalkBackwards(r, g, w);
      assert WalkFrom(g, a, b, Backwards(w));
    }
  }
}
