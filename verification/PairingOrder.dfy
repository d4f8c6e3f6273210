/** find_pairing_nodes_in_topological_order: longest distances from the Captures by repeated relaxation. */
module PairingOrder {
  import opened Sorting
  import opened Walks
  import opened Pipelines
  import opened TopologicalOrders
  import opened PipelineGraphs
  import opened StructureValidators

  type Distances = map<NodeId, int>

  /** Some walk of exactly `n` edges leads from one of `starts` to `v`. */
  ghost predicate HasWalk(g: Graph, starts: set<NodeId>, v: NodeId, n: int) {
    exists w :: Walk(g, w) && w[0] in starts && w[|w| - 1] == v && |w| == n + 1
  }

  /** `d[v]` is the number of edges of a longest walk from `starts` to `v`, or -1 when there is none. */
  ghost predicate Longest(g: Graph, starts: set<NodeId>, d: Distances) {
    && d.Keys == g.Keys
    && (forall v :: v in d ==> d[v] == -1 || HasWalk(g, starts, v, d[v]))
    && (forall v, n :: v in d && HasWalk(g, starts, v, n) ==> n <= d[v])
  }

  ghost predicate CycleAhead(g: Graph, starts: set<NodeId>) {
    exists a, v :: a in starts && Reaches(g, a, v) && OnCycle(g, v)
  }

  // ------------------------------------------------------------ walks, one edge at a time

  lemma HasWalkStep(g: Graph, starts: set<NodeId>, u: NodeId, v: NodeId, n: int)
    requires HasWalk(g, starts, u, n) && Edge(g, u, v)
    ensures HasWalk(g, starts, v, n + 1)
  {
    var w :| Walk(g, w) && w[0] in starts && w[|w| - 1] == u && |w| == n + 1;
    Concat(g, w, [u, v]);
    var w' := w + [u, v][1..];
    assert Walk(g, w') && w'[0] in starts && w'[|w'| - 1] == v && |w'| == n + 2;
  }

  lemma HasWalkLast(g: Graph, starts: set<NodeId>, v: NodeId, n: int) returns (u: NodeId)
    requires HasWalk(g, starts, v, n) && n > 0
    ensures HasWalk(g, starts, u, n - 1) && Edge(g, u, v)
  {
    var w :| Walk(g, w) && w[0] in starts && w[|w| - 1] == v && |w| == n + 1;
    u := w[n - 1];
    assert Edge(g, w[n - 1], w[n]);
    Slice(g, w, 0, n);
    var r := w[..n];
    assert Walk(g, r) && r[0] in starts && r[|r| - 1] == u && |r| == n;
  }

  lemma HasWalkNat(g: Graph, starts: set<NodeId>, v: NodeId, n: int)
    requires HasWalk(g, starts, v, n)
    ensures n >= 0 && v in g && (n == 0 ==> v in starts)
  {
  }

  /** Without a cycle ahead of the starts, walks are shorter than the number of vertices. */
  lemma WalksAreShort(g: Graph, starts: set<NodeId>, v: NodeId, n: int)
    requires HasWalk(g, starts, v, n) && !CycleAhead(g, starts)
    ensures n < |g|
  {
    var w :| Walk(g, w) && w[0] in starts && w[|w| - 1] == v && |w| == n + 1;
    if |w| > |g| {
      var i, j := LongWalkHasCycle(g, w);
      Slice(g, w, 0, i + 1);
      assert WalkFrom(g, w[0], w[i], w[..i + 1]);
      assert OnCycle(g, w[i]);
    }
  }

  /** A cycle ahead of the starts makes some vertex's walks arbitrarily long. */
  lemma {:induction false} WalksAreUnbounded(g: Graph, starts: set<NodeId>, a: NodeId, v: NodeId, n: nat)
    returns (k: int)
    requires a in starts && Reaches(g, a, v) && OnCycle(g, v)
    ensures HasWalk(g, starts, v, k) && k >= n
  {
    if n == 0 {
      var w :| WalkFrom(g, a, v, w);
      k := |w| - 1;
    } else {
      var k' := WalksAreUnbounded(g, starts, a, v, n - 1);
      var w :| Walk(g, w) && w[0] in starts && w[|w| - 1] == v && |w| == k' + 1;
      var loop :| Closed(g, loop) && loop[0] == v;
      Concat(g, w, loop);
      var w' := w + loop[1..];
      k := |w'| - 1;
      assert Walk(g, w') && w'[0] in starts && w'[|w'| - 1] == v && |w'| == k + 1;
    }
  }

  // ------------------------------------------------------------ relaxation

  /** Every recorded distance is the length of a real walk; the starts have one. */
  ghost predicate Honest(g: Graph, starts: set<NodeId>, d: Distances) {
    && d.Keys == g.Keys && starts <= g.Keys
    && (forall v :: v in d ==> d[v] == -1 || HasWalk(g, starts, v, d[v]))
    && (forall v :: v in starts ==> d[v] >= 0)
  }

  /** Walks of at most `r` edges are accounted for. */
  ghost predicate Settled(g: Graph, starts: set<NodeId>, d: Distances, r: int)
    requires d.Keys == g.Keys
  {
    forall v, n :: v in d && HasWalk(g, starts, v, n) && n <= r ==> n <= d[v]
  }

  predicate Grown(d: Distances, e: Distances) { d.Keys == e.Keys && forall v :: v in d ==> d[v] <= e[v] }

  /** No edge out of a vertex known in `d` would still raise `v` in `e`. */
  ghost predicate Relaxed(g: Graph, d: Distances, e: Distances, v: NodeId)
    requires d.Keys == e.Keys == g.Keys && v in g
  {
    forall u :: Edge(g, u, v) && d[u] >= 0 ==> e[v] >= d[u] + 1
  }

  lemma RoundSettles(g: Graph, starts: set<NodeId>, d: Distances, e: Distances, r: int)
    requires Honest(g, starts, e) && d.Keys == g.Keys && Grown(d, e) && Settled(g, starts, d, r) && r >= 0
    requires forall v :: v in g ==> Relaxed(g, d, e, v)
    ensures Settled(g, starts, e, r + 1)
  {
    forall v, n | v in e && HasWalk(g, starts, v, n) && n <= r + 1 ensures n <= e[v] {
      HasWalkNat(g, starts, v, n);
      if n > 0 {
        var u := HasWalkLast(g, starts, v, n);
        HasWalkNat(g, starts, u, n - 1);
        assert n - 1 <= d[u];
      }
    }
  }

  /** A round that changes nothing leaves nothing to change. */
  lemma {:induction false} FixpointSettles(g: Graph, starts: set<NodeId>, d: Distances, v: NodeId, n: int)
    requires Honest(g, starts, d) && (forall v :: v in g ==> Relaxed(g, d, d, v))
    requires HasWalk(g, starts, v, n)
    ensures v in d && n <= d[v]
    decreases n
  {
    HasWalkNat(g, starts, v, n);
    if n > 0 {
      var u := HasWalkLast(g, starts, v, n);
      FixpointSettles(g, starts, d, u, n - 1);
    }
  }

  // ------------------------------------------------------------ the relaxation as a function of the graph

  /** `u`, once for every entry of its outputs that names `v`. */
  function Repeated(u: NodeId, output: seq<NodeId>, v: NodeId): (r: seq<NodeId>)
    ensures forall x :: x in r <==> x == u && v in output
  {
    if output == [] then []
    else
      var rest, last := output[..|output| - 1], output[|output| - 1];
      assert output == rest + [last];
      Repeated(u, rest, v) + if last == v then [u] else []
  }

  /** The predecessors of `v` among `ids`, in definition order, with multiplicity. */
  function Preds(g: Graph, ids: seq<NodeId>, v: NodeId): (r: seq<NodeId>)
    requires Elements(ids) <= g.Keys
    ensures forall u :: u in r <==> u in ids && v in g[u]
  {
    if ids == [] then []
    else
      var rest, u := ids[..|ids| - 1], ids[|ids| - 1];
      assert ids == rest + [u] && u in Elements(ids);
      assert Elements(rest) <= Elements(ids);
      Preds(g, rest, v) + Repeated(u, g[u], v)
  }

  /** `d` after the turn of `v`: raised over each predecessor in order, a self-loop included. */
  function Turn(d: Distances, preds: seq<NodeId>, v: NodeId): (e: Distances)
    requires v in d && forall u :: u in preds ==> u in d
    ensures e.Keys == d.Keys
  {
    if preds == [] then d
    else
      var u := preds[|preds| - 1];
      var e := Turn(d, preds[..|preds| - 1], v);
      if e[u] >= 0 && e[v] < e[u] + 1 then e[v := e[u] + 1] else e
  }

  /** `d` after the turns of the first nodes of one pass. */
  function Turns(g: Graph, ids: seq<NodeId>, d: Distances, n: nat): (e: Distances)
    requires Elements(ids) == g.Keys == d.Keys && n <= |ids|
    ensures e.Keys == d.Keys
  {
    if n == 0 then d
    else
      assert ids[n - 1] in Elements(ids);
      Turn(Turns(g, ids, d, n - 1), Preds(g, ids, ids[n - 1]), ids[n - 1])
  }

  function Beginning(g: Graph, starts: set<NodeId>): Distances { map v | v in g :: if v in starts then 0 else -1 }

  function Rounds(g: Graph, ids: seq<NodeId>, starts: set<NodeId>, n: nat): (e: Distances)
    requires Elements(ids) == g.Keys
    ensures e.Keys == g.Keys
  {
    if n == 0 then Beginning(g, starts) else Turns(g, ids, Rounds(g, ids, starts, n - 1), |ids|)
  }

  /** What the capped loop ends with. */
  function FinalDistances(g: Graph, ids: seq<NodeId>, starts: set<NodeId>): Distances
    requires Elements(ids) == g.Keys
  {
    Rounds(g, ids, starts, |ids| + 1)
  }

  lemma {:induction false} RoundsStayFixed(g: Graph, ids: seq<NodeId>, starts: set<NodeId>, m: nat, n: nat)
    requires Elements(ids) == g.Keys && m <= n
    requires Rounds(g, ids, starts, m + 1) == Rounds(g, ids, starts, m)
    ensures Rounds(g, ids, starts, n) == Rounds(g, ids, starts, m)
  {
    hide Turns;
    if m < n { RoundsStayFixed(g, ids, starts, m, n - 1); }
  }

  /** The reverse adjacency lists of the graph. */
  method ReverseEdges(g: Graph, ids: seq<NodeId>) returns (parents: Graph)
    requires Elements(ids) == g.Keys
    ensures parents.Keys == g.Keys && forall v :: v in g ==> parents[v] == Preds(g, ids, v)
  {
    hide Repeated;
    parents := map id | id in g :: [];
    for i := 0 to |ids|
      invariant Elements(ids[..i]) <= g.Keys
      invariant parents.Keys == g.Keys && forall v :: v in g ==> parents[v] == Preds(g, ids[..i], v)
    {
      var u := ids[i];
      assert u in Elements(ids) && ids[..i + 1][..i] == ids[..i];
      assert forall x :: x in ids[..i + 1] ==> x in Elements(ids);
      parents := AddParent(parents, u, g[u]);
    }
    assert ids[..|ids|] == ids;
  }

  method AddParent(before: Graph, u: NodeId, output: seq<NodeId>) returns (parents: Graph)
    ensures parents.Keys == before.Keys
    ensures forall v :: v in before ==> parents[v] == before[v] + Repeated(u, output, v)
  {
    parents := before;
    for j := 0 to |output|
      invariant parents.Keys == before.Keys
      invariant forall v :: v in before ==> parents[v] == before[v] + Repeated(u, output[..j], v)
    {
      assert output[..j + 1][..j] == output[..j];
      if output[j] in parents { parents := parents[output[j] := parents[output[j]] + [u]]; }
    }
    assert output[..|output|] == output;
  }

  // ------------------------------------------------------------ what the rounds achieve

  /** A turn only raises `v`, and only as far as walks go; afterwards no predecessor known before would raise it. */
  lemma {:induction false} TurnRaises(g: Graph, preds: seq<NodeId>, starts: set<NodeId>, v: NodeId, d: Distances)
    requires Honest(g, starts, d) && v in d && forall u :: u in preds ==> u in d && Edge(g, u, v)
    ensures var e := Turn(d, preds, v);
            && Honest(g, starts, e) && Grown(d, e)
            && (forall x :: x in e && x != v ==> e[x] == d[x])
            && (forall u :: u in preds && d[u] >= 0 ==> e[v] >= d[u] + 1)
  {
    hide HasWalk, Honest, Edge;
    if preds != [] {
      var rest, u := preds[..|preds| - 1], preds[|preds| - 1];
      assert preds == rest + [u];
      TurnRaises(g, rest, starts, v, d);
      HonestHasKeys(g, starts, d);
      HonestStep(g, starts, Turn(d, rest, v), u, v);
    }
  }

  lemma HonestStep(g: Graph, starts: set<NodeId>, d: Distances, u: NodeId, v: NodeId)
    requires Honest(g, starts, d) && u in d && v in d && Edge(g, u, v)
    ensures d[u] >= 0 && d[v] < d[u] + 1 ==> Honest(g, starts, d[v := d[u] + 1])
  {
    hide HasWalk;
    if d[u] >= 0 && d[v] < d[u] + 1 { HasWalkStep(g, starts, u, v, d[u]); }
  }

  /** After the turns of some nodes these are relaxed: later turns only raise distances. */
  lemma {:induction false} TurnsRelax(g: Graph, ids: seq<NodeId>, starts: set<NodeId>, d: Distances, n: nat)
    requires Honest(g, starts, d) && Elements(ids) == g.Keys == d.Keys && n <= |ids|
    ensures var e := Turns(g, ids, d, n);
            && Honest(g, starts, e) && Grown(d, e)
            && forall k :: 0 <= k < n ==> ids[k] in g && Relaxed(g, d, e, ids[k])
  {
    hide Honest, HasWalk, Turn, Preds;
    if n > 0 {
      var v, prev := ids[n - 1], Turns(g, ids, d, n - 1);
      assert v in Elements(ids);
      TurnsRelax(g, ids, starts, d, n - 1);
      PredecessorsAreEdges(g, ids, v);
      TurnRaises(g, Preds(g, ids, v), starts, v, prev);
      StillRelaxed(g, d, prev, Turns(g, ids, d, n), ids, n - 1);
    }
  }

  lemma RoundRelaxes(g: Graph, ids: seq<NodeId>, starts: set<NodeId>, d: Distances)
    requires Honest(g, starts, d) && Elements(ids) == g.Keys == d.Keys
    ensures var e := Turns(g, ids, d, |ids|);
            Honest(g, starts, e) && Grown(d, e) && forall v :: v in g ==> Relaxed(g, d, e, v)
  {
    hide Honest, HasWalk, Turns, Relaxed;
    TurnsRelax(g, ids, starts, d, |ids|);
    forall v | v in g ensures Relaxed(g, d, Turns(g, ids, d, |ids|), v) {
      assert v in Elements(ids);
      var k :| 0 <= k < |ids| && ids[k] == v;
    }
  }

  /** After `n` rounds every walk of at most `n` edges is accounted for. */
  lemma {:induction false} RoundsSettle(g: Graph, ids: seq<NodeId>, starts: set<NodeId>, n: nat)
    requires Elements(ids) == g.Keys && starts <= g.Keys
    ensures Honest(g, starts, Rounds(g, ids, starts, n)) && Settled(g, starts, Rounds(g, ids, starts, n), n)
    ensures forall v :: v in g ==> Relaxed(g, Rounds(g, ids, starts, n), Rounds(g, ids, starts, n + 1), v)
    ensures Honest(g, starts, Rounds(g, ids, starts, n + 1))
    ensures Grown(Rounds(g, ids, starts, n), Rounds(g, ids, starts, n + 1))
  {
    hide Honest, HasWalk, Turns, Relaxed, Settled;
    if n == 0 {
      StartsHonest(g, starts, Beginning(g, starts));
    } else {
      RoundsSettle(g, ids, starts, n - 1);
      RoundSettles(g, starts, Rounds(g, ids, starts, n - 1), Rounds(g, ids, starts, n), n - 1);
    }
    RoundRelaxes(g, ids, starts, Rounds(g, ids, starts, n));
  }

  /** A round changes nothing only if no cycle lies ahead of the starts, and then the distances are longest walks. */
  lemma FixedMeansLongest(g: Graph, ids: seq<NodeId>, starts: set<NodeId>, n: nat)
    requires Elements(ids) == g.Keys && starts <= g.Keys
    requires Rounds(g, ids, starts, n + 1) == Rounds(g, ids, starts, n)
    ensures Longest(g, starts, Rounds(g, ids, starts, n)) && !CycleAhead(g, starts)
  {
    hide Honest, HasWalk, Rounds, Relaxed, Settled, Longest;
    RoundsSettle(g, ids, starts, n);
    FixpointIsLongest(g, starts, Rounds(g, ids, starts, n));
  }

  /** Without a cycle ahead the distances are settled after as many rounds as there are edges on a longest walk. */
  lemma SettledIsFixed(g: Graph, ids: seq<NodeId>, starts: set<NodeId>, n: nat)
    requires Elements(ids) == g.Keys && starts <= g.Keys && n + 1 >= |g| && !CycleAhead(g, starts)
    ensures Rounds(g, ids, starts, n + 1) == Rounds(g, ids, starts, n)
  {
    hide Honest, HasWalk, Rounds, Relaxed, Settled, CycleAhead, Grown;
    RoundsSettle(g, ids, starts, n);
    var d, e := Rounds(g, ids, starts, n), Rounds(g, ids, starts, n + 1);
    if e != d { LateChangeMeansCycle(g, starts, d, e, n); }
  }

  /** The capped relaxation, judged by the graph alone: without a cycle ahead of the starts it ends with longest
      walks. */
  lemma FinalDistancesAreLongest(g: Graph, ids: seq<NodeId>, starts: set<NodeId>)
    requires DistinctElements(ids) && Elements(ids) == g.Keys && starts <= g.Keys && !CycleAhead(g, starts)
    ensures Longest(g, starts, FinalDistances(g, ids, starts))
  {
    hide CycleAhead, Longest, Rounds;
    DistinctCardinality(ids);
    assert |g| == |g.Keys| == |ids|;
    SettledIsFixed(g, ids, starts, |ids| + 1);
    FixedMeansLongest(g, ids, starts, |ids| + 1);
  }

  // ------------------------------------------------------------ the relaxation as a loop

  /** One node's turn: its distance is raised over each predecessor in turn. */
  method RelaxNode(preds: seq<NodeId>, v: NodeId, before: Distances) returns (d: Distances, changed: bool)
    requires v in before && forall u :: u in preds ==> u in before
    ensures d == Turn(before, preds, v)
    ensures changed <==> d != before
  {
    d, changed := before, false;
    for k := 0 to |preds|
      invariant d == Turn(before, preds[..k], v)
      invariant d[v] >= before[v] && (changed <==> d[v] > before[v])
      invariant forall x :: x in d && x != v ==> d[x] == before[x]
    {
      var u := preds[k];
      assert u in preds && preds[..k + 1][..k] == preds[..k];
      if d[u] >= 0 {
        var newDistance := d[u] + 1;
        if d[v] < newDistance {
          d := d[v := newDistance];
          changed := true;
        }
      }
    }
    assert preds[..|preds|] == preds;
  }

  /** One pass over all nodes, in definition order and in place. */
  method RelaxRound(g: Graph, parents: Graph, ids: seq<NodeId>, ghost starts: set<NodeId>, before: Distances)
    returns (d: Distances, changed: bool)
    requires Honest(g, starts, before) && g.Keys == Elements(ids) == parents.Keys == before.Keys
    requires forall v :: v in g ==> parents[v] == Preds(g, ids, v)
    ensures d == Turns(g, ids, before, |ids|)
    ensures changed <==> d != before
  {
    hide Honest, HasWalk, Turn, Turns, Preds;
    d, changed := before, false;
    NoTurnYet(g, ids, before);
    for i := 0 to |ids|
      invariant d == Turns(g, ids, before, i)
      invariant changed <==> d != before
    {
      NextTurn(g, ids, starts, before, i);
      var c: bool;
      d, c := RelaxNode(parents[ids[i]], ids[i], d);
      if c { changed := true; }
    }
  }

  lemma NoTurnYet(g: Graph, ids: seq<NodeId>, d: Distances)
    requires Elements(ids) == g.Keys == d.Keys
    ensures Turns(g, ids, d, 0) == d
  {
  }

  lemma NextTurn(g: Graph, ids: seq<NodeId>, starts: set<NodeId>, d: Distances, n: nat)
    requires Honest(g, starts, d) && Elements(ids) == g.Keys == d.Keys && n < |ids|
    ensures var e, v := Turns(g, ids, d, n), ids[n];
            && v in g && v in e && (forall u :: u in Preds(g, ids, v) ==> u in e)
            && Turns(g, ids, d, n + 1) == Turn(e, Preds(g, ids, v), v)
    ensures Turns(g, ids, d, n + 1) == d ==> Turns(g, ids, d, n) == d
  {
    hide Honest, HasWalk, Turn, Preds;
    assert ids[n] in Elements(ids);
    PredecessorsAreEdges(g, ids, ids[n]);
    GrownBack(g, ids, starts, d, n);
  }

  /** What a turn has changed no later turn changes back. */
  lemma GrownBack(g: Graph, ids: seq<NodeId>, starts: set<NodeId>, d: Distances, n: nat)
    requires Honest(g, starts, d) && Elements(ids) == g.Keys == d.Keys && n < |ids|
    ensures Turns(g, ids, d, n + 1) == d ==> Turns(g, ids, d, n) == d
  {
    hide Honest, HasWalk, Turn, Preds;
    var prev := Turns(g, ids, d, n);
    assert ids[n] in Elements(ids);
    TurnsRelax(g, ids, starts, d, n);
    PredecessorsAreEdges(g, ids, ids[n]);
    TurnRaises(g, Preds(g, ids, ids[n]), starts, ids[n], prev);
  }

  lemma HonestHasKeys(g: Graph, starts: set<NodeId>, d: Distances)
    requires Honest(g, starts, d)
    ensures d.Keys == g.Keys
  {
  }

  lemma PredecessorsAreEdges(g: Graph, ids: seq<NodeId>, v: NodeId)
    requires g.Keys == Elements(ids) && v in g
    ensures forall u :: u in Preds(g, ids, v) <==> Edge(g, u, v)
  {
    forall u ensures u in Preds(g, ids, v) <==> Edge(g, u, v) { assert u in ids <==> u in Elements(ids); }
  }

  /** Later turns in a round only raise distances, so earlier nodes stay relaxed. */
  lemma StillRelaxed(g: Graph, before: Distances, prev: Distances, d: Distances, ids: seq<NodeId>, i: nat)
    requires before.Keys == prev.Keys == d.Keys == g.Keys && i < |ids| && ids[i] in g
    requires Grown(before, prev) && Grown(prev, d) && Relaxed(g, prev, d, ids[i])
    requires forall k :: 0 <= k < i ==> ids[k] in g && Relaxed(g, before, prev, ids[k])
    ensures Grown(before, d)
    ensures forall k :: 0 <= k < i + 1 ==> ids[k] in g && Relaxed(g, before, d, ids[k])
  {
  }

  lemma StartsHonest(g: Graph, starts: set<NodeId>, d: Distances)
    requires starts <= g.Keys && d.Keys == g.Keys
    requires forall v :: v in g ==> d[v] == if v in starts then 0 else -1
    ensures Honest(g, starts, d) && Settled(g, starts, d, 0)
  {
    forall v | v in starts ensures HasWalk(g, starts, v, 0) {
      assert Walk(g, [v]) && [v][0] in starts && [v][|[v]| - 1] == v && |[v]| == 0 + 1;
    }
    forall v, n | v in d && HasWalk(g, starts, v, n) && n <= 0 ensures n <= d[v] { HasWalkNat(g, starts, v, n); }
  }

  /** A change in a late round reveals a walk too long for a graph without a cycle ahead. */
  lemma LateChangeMeansCycle(g: Graph, starts: set<NodeId>, d: Distances, e: Distances, r: int)
    requires d.Keys == g.Keys == e.Keys && Honest(g, starts, e) && Grown(d, e) && Settled(g, starts, d, r)
    requires Honest(g, starts, d) && e != d
    ensures r + 1 < |g| || CycleAhead(g, starts)
  {
    hide CycleAhead, HasWalk;
    var v :| v in d && d[v] != e[v];
    assert d[v] < e[v];
    if d[v] != -1 { HasWalkNat(g, starts, v, d[v]); }
    assert HasWalk(g, starts, v, e[v]);
    if !CycleAhead(g, starts) { WalksAreShort(g, starts, v, e[v]); }
  }

  lemma FixpointIsLongest(g: Graph, starts: set<NodeId>, d: Distances)
    requires Honest(g, starts, d) && forall v :: v in g ==> Relaxed(g, d, d, v)
    ensures Longest(g, starts, d) && !CycleAhead(g, starts)
  {
    hide Relaxed, HasWalk;
    forall v, n | HasWalk(g, starts, v, n) ensures v in d && n <= d[v] { FixpointSettles(g, starts, d, v, n); }
    if CycleAhead(g, starts) {
      var a, v :| a in starts && Reaches(g, a, v) && OnCycle(g, v);
      var k := WalksAreUnbounded(g, starts, a, v, if v in d && d[v] >= 0 then d[v] + 1 else 0);
    }
  }

  /** What the loop needs to know of its round number `n`. */
  lemma NextRound(g: Graph, ids: seq<NodeId>, starts: set<NodeId>, n: nat)
    requires DistinctElements(ids) && g.Keys == Elements(ids) && starts <= g.Keys && ids != []
    ensures Honest(g, starts, Rounds(g, ids, starts, n))
    ensures Rounds(g, ids, starts, n + 1) == Turns(g, ids, Rounds(g, ids, starts, n), |ids|)
    // a change in the round before the last allowed one gives the cycle away
    ensures n == |ids| && Rounds(g, ids, starts, n) != Rounds(g, ids, starts, n - 1) ==> CycleAhead(g, starts)
  {
    hide CycleAhead, Turns, Honest;
    RoundsSettle(g, ids, starts, n);
    DistinctCardinality(ids);
    assert |g| == |g.Keys| == |ids|;
    if n == |ids| && !CycleAhead(g, starts) { SettledIsFixed(g, ids, starts, n - 1); }
  }

  /** What a round without a change means. */
  lemma UnchangedRound(g: Graph, ids: seq<NodeId>, starts: set<NodeId>, n: nat)
    requires DistinctElements(ids) && g.Keys == Elements(ids) && starts <= g.Keys && n < |ids| + 1
    requires Rounds(g, ids, starts, n + 1) == Rounds(g, ids, starts, n)
    ensures Rounds(g, ids, starts, n + 1) == FinalDistances(g, ids, starts)
    ensures Longest(g, starts, FinalDistances(g, ids, starts)) && !CycleAhead(g, starts)
  {
    hide CycleAhead, Longest, Rounds;
    FixedMeansLongest(g, ids, starts, n);
    RoundsStayFixed(g, ids, starts, n, |ids| + 1);
  }

  /** The loop with its round cap: it stops by itself exactly when no cycle lies ahead of a Capture, and then early. */
  method LongestDistances(g: Graph, ids: seq<NodeId>, starts: set<NodeId>)
    returns (d: Distances, changed: bool, iterations: nat)
    requires DistinctElements(ids) && g.Keys == Elements(ids) && starts <= g.Keys && ids != []
    ensures d == FinalDistances(g, ids, starts)
    ensures changed <==> CycleAhead(g, starts)
    ensures !changed ==> Longest(g, starts, d) && iterations <= |ids|
  {
    hide CycleAhead, Longest, Preds, Turns, Honest, Rounds, Elements, DistinctElements;
    var parents := ReverseEdges(g, ids);
    d := map id | id in g :: if id in starts then 0 else -1;
    assert d == Rounds(g, ids, starts, 0) by { NoRoundYet(g, ids, starts); }
    changed, iterations := true, 0;
    var maxIterations := |ids| + 1;
    while changed && iterations < maxIterations
      invariant iterations <= maxIterations && d == Rounds(g, ids, starts, iterations)
      invariant iterations > 0 ==> (changed <==> d != Rounds(g, ids, starts, iterations - 1))
      invariant !changed ==> iterations > 0
      invariant iterations == maxIterations ==> CycleAhead(g, starts)
      decreases maxIterations - iterations
    {
      NextRound(g, ids, starts, iterations);
      d, changed := RelaxRound(g, parents, ids, starts, d);
      iterations := iterations + 1;
    }
    if !changed { UnchangedRound(g, ids, starts, iterations - 1); }
  }

  lemma NoRoundYet(g: Graph, ids: seq<NodeId>, starts: set<NodeId>)
    requires g.Keys == Elements(ids)
    ensures Rounds(g, ids, starts, 0) == map id | id in g :: if id in starts then 0 else -1
  {
  }

  // ------------------------------------------------------------ the order of the Pairing nodes

  function Distance(d: Distances, n: Node): int { if n.id in d then d[n.id] else -1 }

  function NearerOrAsFar(d: Distances): (Node, Node) -> bool { (a: Node, b: Node) => Distance(d, a) <= Distance(d, b) }

  /** The distances that decide the order: those of the capped relaxation over the nodes in definition order. */
  function PipelineDistances(p: PipelineConfig): Distances
    requires p.Valid()
  {
    NodeIdsOf(p);
    FinalDistances(p.Outputs(), NodeIds(p.nodes), Elements(CaptureIds(p)))
  }

  /** The Pairing nodes sorted by distance; nodes equally far away keep their definition order. */
  function ProcessingOrder(p: PipelineConfig): seq<Node>
    requires p.Valid()
  {
    Sort(p.pairingNodes, NearerOrAsFar(PipelineDistances(p)))
  }

  method FindPairingNodesInTopologicalOrder(p: PipelineConfig) returns (order: seq<Node>)
    requires p.Valid()
    ensures order == ProcessingOrder(p)
  {
    hide Longest, CycleAhead, Honest, Categorize, Rounds, Elements;
    if p.pairingNodes == [] { return []; }
    var ids := NodeIds(p.nodes);
    NodeIdsOf(p);
    PairingNodesExist(p);
    assert p.pairingNodes[0] in p.nodes;
    var starts := Elements(CaptureIds(p));
    var distances, changed, iterations := LongestDistances(p.Outputs(), ids, starts);
    order := Sort(p.pairingNodes, NearerOrAsFar(distances));
  }

  lemma PairingNodesExist(p: PipelineConfig)
    requires p.Valid()
    ensures forall n :: n in p.pairingNodes ==> n in p.nodes && n.Pairing?
  {
  }

  /** Without a cycle ahead of a Capture the distances are the longest walks. */
  lemma PipelineDistancesAreLongest(p: PipelineConfig)
    requires p.Valid() && !CycleAhead(p.Outputs(), Elements(CaptureIds(p)))
    ensures Longest(p.Outputs(), Elements(CaptureIds(p)), PipelineDistances(p))
  {
    hide CycleAhead, Longest, FinalDistances;
    NodeIdsOf(p);
    FinalDistancesAreLongest(p.Outputs(), NodeIds(p.nodes), Elements(CaptureIds(p)));
  }

  /** What the order is: the Pairing nodes rearranged, nearest first. */
  lemma ProcessingOrderMeans(p: PipelineConfig)
    requires p.Valid()
    ensures multiset(ProcessingOrder(p)) == multiset(p.pairingNodes)
    ensures Sorted(ProcessingOrder(p), NearerOrAsFar(PipelineDistances(p)))
  {
    hide PipelineDistances;
    var d := PipelineDistances(p);
    SortIsPermutation(p.pairingNodes, NearerOrAsFar(d));
    DistanceOrders(d);
    SortSorts(p.pairingNodes, NearerOrAsFar(d));
  }

  lemma NodeIdsOf(p: PipelineConfig)
    requires p.Valid()
    ensures DistinctElements(NodeIds(p.nodes))
    ensures Elements(NodeIds(p.nodes)) == p.Outputs().Keys
    ensures Elements(CaptureIds(p)) <= p.Outputs().Keys
  {
    var ids := NodeIds(p.nodes);
    forall id | id in p.Ids() ensures id in ids {
      var n :| n in p.nodes && n.id == id;
      var k :| 0 <= k < |p.nodes| && p.nodes[k] == n;
      assert ids[k] == id;
    }
    forall id | id in ids ensures id in p.Ids() {
      var k :| 0 <= k < |ids| && ids[k] == id;
      assert p.nodes[k] in p.nodes;
    }
    forall a | a in CaptureIds(p) ensures a in p.Outputs() { KindIdsExist(p, a); }
  }

  /** Without a cycle ahead, a Capture-reachable Pairing node stands strictly before every other it leads to. */
  lemma OrderIsTopological(p: PipelineConfig, i: nat, j: nat)
    requires p.Valid() && !CycleAhead(p.Outputs(), Elements(CaptureIds(p)))
    requires var order := ProcessingOrder(p);
             && i < |order| && j < |order| && order[i].id != order[j].id
             && ReachedFromAny(p.Outputs(), CaptureIds(p), order[i].id)
             && Reaches(p.Outputs(), order[i].id, order[j].id)
    ensures i < j
  {
    hide Longest, HasWalk, Reaches, Categorize, CycleAhead, PipelineDistances, ProcessingOrder;
    var g, starts, order, d := p.Outputs(), Elements(CaptureIds(p)), ProcessingOrder(p), PipelineDistances(p);
    ProcessingOrderMeans(p);
    PipelineDistancesAreLongest(p);
    assert j < i ==> NearerOrAsFar(d)(order[j], order[i]);
    var a :| a in CaptureIds(p) && Reaches(g, a, order[i].id);
    LongestGrows(g, starts, d, a, order[i].id, order[j].id);
    assert Distance(d, order[i]) < Distance(d, order[j]);
  }

  /** Whatever a reachable vertex leads to lies farther away. */
  lemma LongestGrows(g: Graph, starts: set<NodeId>, d: Distances, a: NodeId, u: NodeId, v: NodeId)
    requires Longest(g, starts, d) && a in starts && Reaches(g, a, u) && Reaches(g, u, v) && u != v
    ensures u in d && v in d && 0 <= d[u] < d[v]
  {
    var w0 :| WalkFrom(g, a, u, w0);
    assert HasWalk(g, starts, u, |w0| - 1);
    var w :| Walk(g, w) && w[0] in starts && w[|w| - 1] == u && |w| == d[u] + 1;
    var w2 :| WalkFrom(g, u, v, w2);
    Concat(g, w, w2);
    var w3 := w + w2[1..];
    assert Walk(g, w3) && w3[0] in starts && w3[|w3| - 1] == v && |w3| == (|w3| - 1) + 1;
    assert HasWalk(g, starts, v, |w3| - 1);
  }

  lemma DistanceOrders(d: Distances)
    ensures TotalPreorder(NearerOrAsFar(d))
  {
  }
}
