/** Kahn's algorithm stated on graphs: what a maximal topological order says about cycles. */
module TopologicalOrders {
  import opened Walks

  function Elements(s: seq<NodeId>): set<NodeId> { set x | x in s }

  ghost predicate DistinctElements(s: seq<NodeId>) { forall i, j :: 0 <= i < j < |s| ==> s[i] != s[j] }

  /** No repeats, and every predecessor of a listed vertex is listed before it. */
  ghost predicate Topological(g: Graph, order: seq<NodeId>) {
    && DistinctElements(order)
    && (forall v :: v in order ==> v in g)
    && (forall j, u :: 0 <= j < |order| && Edge(g, u, order[j]) ==> u in order[..j])
  }

  /** Nothing more can be listed: every vertex left out has a predecessor left out. */
  ghost predicate Maximal(g: Graph, order: seq<NodeId>) {
    forall v {:trigger HeldBack(g, order, v)} :: v in g && v !in order ==> HeldBack(g, order, v)
  }

  ghost predicate HeldBack(g: Graph, order: seq<NodeId>, v: NodeId) { exists u :: u !in order && Edge(g, u, v) }

  ghost predicate FedByCycle(g: Graph, v: NodeId) { exists c :: OnCycle(g, c) && Reaches(g, c, v) }

  lemma {:induction false} LeftOutChain(g: Graph, order: seq<NodeId>, v: NodeId, n: nat) returns (w: seq<NodeId>)
    requires Maximal(g, order) && v in g && v !in order
    ensures Walk(g, w) && |w| == n + 1 && w[n] == v
    ensures forall i :: 0 <= i <= n ==> w[i] !in order
    decreases n
  {
    if n == 0 {
      w := [v];
    } else {
      assert HeldBack(g, order, v);
      var u :| u !in order && Edge(g, u, v);
      var rest := LeftOutChain(g, order, u, n - 1);
      assert Walk(g, [u, v]);
      Concat(g, rest, [u, v]);
      w := rest + [u, v][1..];
    }
  }

  lemma LeftOutIsFedByCycle(g: Graph, order: seq<NodeId>, v: NodeId)
    requires Maximal(g, order) && v in g && v !in order
    ensures FedByCycle(g, v)
  {
    var w := LeftOutChain(g, order, v, |g|);
    var i, j := LongWalkHasCycle(g, w);
    Slice(g, w, i, |w|);
    assert WalkFrom(g, w[i], v, w[i..]);
    assert OnCycle(g, w[i]);
  }

  /** Positions strictly increase along a walk that ends at a listed vertex. */
  lemma {:induction false} ListedWalkIncreases(g: Graph, order: seq<NodeId>, w: seq<NodeId>, j: nat) returns (i: nat)
    requires Topological(g, order) && Walk(g, w)
    requires j < |order| && order[j] == w[|w| - 1]
    ensures i < |order| && order[i] == w[0] && i + |w| - 1 <= j
  {
    if |w| == 1 {
      i := j;
    } else {
      var k := |w| - 2;
      assert Edge(g, w[k], w[k + 1]);
      assert w[k] in order[..j];
      var j' :| 0 <= j' < j && order[j'] == w[k];
      Slice(g, w, 0, |w| - 1);
      i := ListedWalkIncreases(g, order, w[..|w| - 1], j');
    }
  }

  lemma ListedIsNotFedByCycle(g: Graph, order: seq<NodeId>, v: NodeId)
    requires Topological(g, order) && v in order
    ensures !FedByCycle(g, v)
  {
    if FedByCycle(g, v) {
      var c :| OnCycle(g, c) && Reaches(g, c, v);
      var w :| WalkFrom(g, c, v, w);
      var loop :| Closed(g, loop) && loop[0] == c;
      var j :| 0 <= j < |order| && order[j] == v;
      var i := ListedWalkIncreases(g, order, w, j);
      var i' := ListedWalkIncreases(g, order, loop, i);
    }
  }

  /** The vertices a maximal topological order leaves out are exactly those some cycle leads to. */
  lemma LeftOutExactly(g: Graph, order: seq<NodeId>)
    requires Topological(g, order) && Maximal(g, order)
    ensures forall v {:trigger FedByCycle(g, v)} :: v in g ==> (v !in order <==> FedByCycle(g, v))
    ensures (forall v :: v in g ==> v in order) <==> Acyclic(g)
  {
    forall v | v in g ensures v !in order <==> FedByCycle(g, v) {
      if v in order { ListedIsNotFedByCycle(g, order, v); } else { LeftOutIsFedByCycle(g, order, v); }
    }
    if !Acyclic(g) {
      var w :| Closed(g, w);
      ReachesSelf(g, w[0]);
      assert OnCycle(g, w[0]) && FedByCycle(g, w[0]);
    }
    if v :| v in g && v !in order {
      assert FedByCycle(g, v);
    }
  }

  lemma AddedElement(r: seq<NodeId>, last: NodeId)
    requires last !in r
    ensures Elements(r + [last]) == Elements(r) + {last} && last !in Elements(r)
  {
    assert forall v :: v in r + [last] <==> v in r || v == last;
  }

  lemma {:induction false} DistinctCardinality(s: seq<NodeId>)
    requires DistinctElements(s)
    ensures |Elements(s)| == |s|
  {
    if s != [] {
      var r, last := s[..|s| - 1], s[|s| - 1];
      DistinctCardinality(r);
      assert s == r + [last];
      assert last !in r;
      AddedElement(r, last);
    }
  }

  lemma SubsetSize(a: set<NodeId>, b: set<NodeId>)
    requires a <= b
    ensures |a| <= |b|
  {
    assert |b - a| == |b| - |a|;
  }

  lemma SameSizeSubset(a: set<NodeId>, b: set<NodeId>)
    requires a <= b && |a| == |b|
    ensures a == b
  {
    assert |b - a| == |b| - |a|;
  }
}

/** The class PipelineGraph: adjacency lists, topological sort, depth-first reachability. */
module PipelineGraphs {
  import opened Walks
  import opened Pipelines
  import opened TopologicalOrders

  /** How often `v` occurs among the first `n` elements. */
  ghost function Occurs(s: seq<NodeId>, n: nat, v: NodeId): nat
    requires n <= |s|
  {
    if n == 0 then 0 else Occurs(s, n - 1, v) + if s[n - 1] == v then 1 else 0
  }

  ghost function Total(s: seq<NodeId>, v: NodeId): nat { Occurs(s, |s|, v) }

  lemma {:induction false} OccursMonotone(s: seq<NodeId>, m: nat, n: nat, v: NodeId)
    requires m <= n <= |s|
    ensures Occurs(s, m, v) <= Occurs(s, n, v)
    decreases n
  {
    if m < n { OccursMonotone(s, m, n - 1, v); }
  }

  lemma {:induction false} OccursPositive(s: seq<NodeId>, n: nat, v: NodeId)
    requires n <= |s|
    ensures Occurs(s, n, v) > 0 <==> v in s[..n]
  {
    if n > 0 {
      OccursPositive(s, n - 1, v);
      assert s[..n] == s[..n - 1] + [s[n - 1]];
    }
  }

  lemma TotalPositive(s: seq<NodeId>, v: NodeId)
    ensures Total(s, v) > 0 <==> v in s
  {
    OccursPositive(s, |s|, v);
    assert s[..|s|] == s;
  }

  lemma {:induction false} OccursInPrefix(s: seq<NodeId>, t: seq<NodeId>, n: nat, v: NodeId)
    requires n <= |s| && s <= t
    ensures Occurs(t, n, v) == Occurs(s, n, v)
  {
    if n > 0 { OccursInPrefix(s, t, n - 1, v); }
  }

  lemma TotalAppend(s: seq<NodeId>, x: NodeId, v: NodeId)
    ensures Total(s + [x], v) == Total(s, v) + if x == v then 1 else 0
  {
    OccursInPrefix(s, s + [x], |s|, v);
  }

  /** The first `n` outputs, without those that name no existing node. */
  function Keep(output: seq<NodeId>, n: nat, ids: set<NodeId>): seq<NodeId>
    requires n <= |output|
  {
    if n == 0 then []
    else
      var r := Keep(output, n - 1, ids);
      if output[n - 1] in ids then r + [output[n - 1]] else r
  }

  lemma {:induction false} KeepTotal(output: seq<NodeId>, n: nat, ids: set<NodeId>, v: NodeId)
    requires n <= |output|
    ensures Total(Keep(output, n, ids), v) == if v in ids then Occurs(output, n, v) else 0
  {
    if n > 0 {
      KeepTotal(output, n - 1, ids, v);
      TotalAppend(Keep(output, n - 1, ids), output[n - 1], v);
    }
  }

  lemma KeepMember(output: seq<NodeId>, ids: set<NodeId>, v: NodeId)
    ensures v in Keep(output, |output|, ids) <==> v in output && v in ids
  {
    KeepTotal(output, |output|, ids, v);
    TotalPositive(output, v);
    TotalPositive(Keep(output, |output|, ids), v);
  }

  // ------------------------------------------------------------ counting pending edges

  /** The edges into `v` whose tail is among the first `n` of `ids` and not in `done`, with multiplicity. */
  ghost function Pending(g: Graph, ids: seq<NodeId>, n: nat, done: set<NodeId>, v: NodeId): nat
    requires n <= |ids| && forall k :: 0 <= k < |ids| ==> ids[k] in g
  {
    if n == 0 then 0
    else Pending(g, ids, n - 1, done, v) + if ids[n - 1] in done then 0 else Total(g[ids[n - 1]], v)
  }

  /** The output entries of all nodes that name `v`, counted with multiplicity. */
  ghost function Entries(nodes: seq<Node>, v: NodeId): nat {
    if nodes == [] then 0 else Entries(nodes[..|nodes| - 1], v) + Total(nodes[|nodes| - 1].output, v)
  }

  lemma {:induction false} PendingIsEntries(g: Graph, nodes: seq<Node>, n: nat, v: NodeId)
    requires n <= |nodes| && forall k :: 0 <= k < |nodes| ==> nodes[k].id in g && g[nodes[k].id] == nodes[k].output
    ensures Pending(g, NodeIds(nodes), n, {}, v) == Entries(nodes[..n], v)
  {
    if n > 0 {
      PendingIsEntries(g, nodes, n - 1, v);
      assert nodes[..n][..n - 1] == nodes[..n - 1];
    }
  }

  lemma {:induction false} PendingPositive(g: Graph, ids: seq<NodeId>, n: nat, done: set<NodeId>, v: NodeId)
    requires n <= |ids| && forall k :: 0 <= k < |ids| ==> ids[k] in g
    ensures Pending(g, ids, n, done, v) > 0 <==> exists k :: 0 <= k < n && ids[k] !in done && v in g[ids[k]]
  {
    if n > 0 {
      PendingPositive(g, ids, n - 1, done, v);
      TotalPositive(g[ids[n - 1]], v);
    }
  }

  lemma {:induction false} PendingDone(g: Graph, ids: seq<NodeId>, n: nat, done: set<NodeId>, i: nat, v: NodeId)
    requires n <= |ids| && forall k :: 0 <= k < |ids| ==> ids[k] in g
    requires DistinctElements(ids) && i < |ids| && ids[i] !in done
    ensures Pending(g, ids, n, done, v) ==
            Pending(g, ids, n, done + {ids[i]}, v) + if i < n then Total(g[ids[i]], v) else 0
  {
    if n > 0 { PendingDone(g, ids, n - 1, done, i, v); }
  }

  // ------------------------------------------------------------ the two adjacency maps

  /** The two adjacency maps count every edge alike. */
  ghost predicate Balanced(children: Graph, parents: Graph) {
    && children.Keys == parents.Keys
    && (forall v, u :: v in parents && u in parents[v] ==> u in parents)
    && forall u, v :: u in children && v in children ==> Total(parents[v], u) == Total(children[u], v)
  }

  lemma BalancedStep(children: Graph, parents: Graph, u: NodeId, v: NodeId)
    requires Balanced(children, parents) && u in children && v in children
    ensures Balanced(children[u := children[u] + [v]], parents[v := parents[v] + [u]])
  {
    forall x { TotalAppend(children[u], v, x); }
    forall x { TotalAppend(parents[v], u, x); }
  }

  lemma BalancedReverses(children: Graph, parents: Graph)
    requires Balanced(children, parents)
    ensures Reverse(children, parents)
  {
    forall u, v ensures Edge(children, u, v) <==> Edge(parents, v, u) {
      if u in children && v in children {
        TotalPositive(children[u], v);
        TotalPositive(parents[v], u);
      }
    }
  }

  function NodeIds(nodes: seq<Node>): (ids: seq<NodeId>)
    ensures |ids| == |nodes| && forall i :: 0 <= i < |ids| ==> ids[i] == nodes[i].id
  {
    seq(|nodes|, i requires 0 <= i < |nodes| => nodes[i].id)
  }

  // ------------------------------------------------------------ Kahn's loop

  /** Kahn's loop state: in-degrees count the edges still pending, and zero in-degree means listed or queued. */
  ghost predicate Kahn(g: Graph, ids: seq<NodeId>, inDegree: map<NodeId, int>, order: seq<NodeId>, queue: seq<NodeId>) {
    && DistinctElements(ids) && inDegree.Keys == g.Keys == Elements(ids)
    && Counts(g, ids, inDegree, Elements(order))
    && Frontier(inDegree, order, queue)
  }

  ghost predicate Counts(g: Graph, ids: seq<NodeId>, inDegree: map<NodeId, int>, done: set<NodeId>) {
    && (forall k :: 0 <= k < |ids| ==> ids[k] in g)
    && (forall v :: v in inDegree ==> inDegree[v] == Pending(g, ids, |ids|, done, v))
  }

  ghost predicate Frontier(inDegree: map<NodeId, int>, order: seq<NodeId>, queue: seq<NodeId>) {
    && DistinctElements(order) && DistinctElements(queue) && (forall v :: v in order ==> v !in queue)
    && (forall v :: v in order || v in queue ==> v in inDegree)
    && (forall v :: v in inDegree ==> (inDegree[v] == 0 <==> v in order || v in queue))
  }

  /** The in-degrees once `current` is listed but its children are not yet released. */
  ghost predicate Releasing(g: Graph, ids: seq<NodeId>, inDegree: map<NodeId, int>, done: set<NodeId>, current: NodeId)
    requires current in g
  {
    && (forall k :: 0 <= k < |ids| ==> ids[k] in g)
    && (forall v :: v in inDegree ==> inDegree[v] == Pending(g, ids, |ids|, done, v) + Total(g[current], v))
  }

  /** Moving the queue's head to the order: its predecessors are all listed, its own edges cease to be pending. */
  lemma KahnTake(g: Graph, ids: seq<NodeId>, inDegree: map<NodeId, int>, order: seq<NodeId>, queue: seq<NodeId>)
    requires Kahn(g, ids, inDegree, order, queue) && queue != [] && Topological(g, order)
    ensures Topological(g, order + [queue[0]])
    ensures Frontier(inDegree, order + [queue[0]], queue[1..])
    ensures queue[0] in g && Releasing(g, ids, inDegree, Elements(order + [queue[0]]), queue[0])
  {
    var current, order' := queue[0], order + [queue[0]];
    var done := Elements(order);
    assert current in queue;
    PendingPositive(g, ids, |ids|, done, current);
    forall j, u | 0 <= j < |order'| && Edge(g, u, order'[j]) ensures u in order'[..j] {
      if j == |order| {
        assert u in Elements(ids);
        var k :| 0 <= k < |ids| && ids[k] == u;
        assert order'[..j] == order;
      } else {
        assert order'[..j] == order[..j];
      }
    }
    assert current in Elements(ids);
    var i :| 0 <= i < |ids| && ids[i] == current;
    assert Elements(order') == done + {current};
    forall v | v in inDegree
      ensures inDegree[v] == Pending(g, ids, |ids|, Elements(order'), v) + Total(g[current], v)
    {
      PendingDone(g, ids, |ids|, done, i, v);
    }
  }

  lemma KahnRoom(g: Graph, ids: seq<NodeId>, inDegree: map<NodeId, int>, order: seq<NodeId>, queue: seq<NodeId>)
    requires Kahn(g, ids, inDegree, order, queue)
    ensures |order| <= |ids|
  {
    DistinctCardinality(order);
    DistinctCardinality(ids);
    SubsetSize(Elements(order), Elements(ids));
  }

  /** An empty queue means nothing more can be listed. */
  lemma KahnDone(g: Graph, ids: seq<NodeId>, inDegree: map<NodeId, int>, order: seq<NodeId>)
    requires Kahn(g, ids, inDegree, order, []) && Topological(g, order)
    ensures |order| != |ids| <==> !Acyclic(g)
    ensures forall v {:trigger FedByCycle(g, v)} :: v in g ==> (v !in order <==> FedByCycle(g, v))
  {
    var done := Elements(order);
    forall v | v in g && v !in order ensures HeldBack(g, order, v) {
      PendingPositive(g, ids, |ids|, done, v);
      var k :| 0 <= k < |ids| && ids[k] !in done && v in g[ids[k]];
      assert Edge(g, ids[k], v);
    }
    LeftOutExactly(g, order);
    DistinctCardinality(order);
    DistinctCardinality(ids);
    if |order| == |ids| { SameSizeSubset(done, g.Keys); }
    if forall v :: v in g ==> v in order { assert done == g.Keys; }
  }

  lemma FrontierStep(inDegree: map<NodeId, int>, order: seq<NodeId>, queue: seq<NodeId>, child: NodeId)
    requires Frontier(inDegree, order, queue) && child in inDegree && inDegree[child] > 0
    ensures var lower := inDegree[child := inDegree[child] - 1];
            Frontier(lower, order, if lower[child] == 0 then queue + [child] else queue)
  {
  }

  /** Kahn's inner loop: each child loses one pending edge and joins the queue when none is left. */
  method ReleaseChildren(kids: seq<NodeId>, before: map<NodeId, int>, order: seq<NodeId>, waiting: seq<NodeId>)
    returns (inDegree: map<NodeId, int>, queue: seq<NodeId>)
    requires Frontier(before, order, waiting)
    requires forall k :: 0 <= k < |kids| ==> kids[k] in before
    requires forall v :: v in before ==> before[v] >= Total(kids, v)
    ensures inDegree.Keys == before.Keys
    ensures forall v :: v in before ==> inDegree[v] == before[v] - Total(kids, v)
    ensures Frontier(inDegree, order, queue)
  {
    hide Frontier;
    inDegree, queue := before, waiting;
    for i := 0 to |kids|
      invariant inDegree.Keys == before.Keys
      invariant forall v :: v in before ==> inDegree[v] == before[v] - Occurs(kids, i, v)
      invariant Frontier(inDegree, order, queue)
    {
      var child := kids[i];
      OccursMonotone(kids, i + 1, |kids|, child);
      FrontierStep(inDegree, order, queue, child);
      inDegree := inDegree[child := inDegree[child] - 1];
      if inDegree[child] == 0 { queue := queue + [child]; }
    }
  }

  /** Counts, for every id, the output entries that name it. */
  method InDegrees(g: Graph, ids: seq<NodeId>) returns (inDegree: map<NodeId, int>)
    requires g.Keys == Elements(ids)
    ensures inDegree.Keys == g.Keys && Counts(g, ids, inDegree, {})
  {
    inDegree := map id | id in g.Keys :: 0;
    assert forall k :: 0 <= k < |ids| ==> ids[k] in Elements(ids);
    for i := 0 to |ids|
      invariant inDegree.Keys == g.Keys
      invariant forall v :: v in inDegree ==> inDegree[v] == Pending(g, ids, i, {}, v)
    {
      inDegree := CountOutputs(inDegree, g[ids[i]]);
    }
  }

  method CountOutputs(before: map<NodeId, int>, output: seq<NodeId>) returns (inDegree: map<NodeId, int>)
    ensures inDegree.Keys == before.Keys
    ensures forall v :: v in before ==> inDegree[v] == before[v] + Total(output, v)
  {
    inDegree := before;
    for j := 0 to |output|
      invariant inDegree.Keys == before.Keys
      invariant forall v :: v in before ==> inDegree[v] == before[v] + Occurs(output, j, v)
    {
      if output[j] in inDegree { inDegree := inDegree[output[j] := inDegree[output[j]] + 1]; }
    }
  }

  /** The ids with in-degree zero, in definition order. */
  method Sources(inDegree: map<NodeId, int>, ids: seq<NodeId>) returns (queue: seq<NodeId>)
    requires DistinctElements(ids) && inDegree.Keys == Elements(ids)
    ensures Frontier(inDegree, [], queue)
  {
    queue := [];
    assert forall k :: 0 <= k < |ids| ==> ids[k] in Elements(ids);
    for i := 0 to |ids|
      invariant DistinctElements(queue)
      invariant forall v :: v in queue <==> v in ids[..i] && inDegree[v] == 0
    {
      assert ids[..i + 1] == ids[..i] + [ids[i]];
      assert ids[i] !in ids[..i];
      if inDegree[ids[i]] == 0 { queue := queue + [ids[i]]; }
    }
    assert ids[..|ids|] == ids;
  }

  /** Kahn's algorithm over the filtered children `kids` of the graph `g`, whose ids in definition order are `ids`. */
  method KahnSort(g: Graph, kids: Graph, ids: seq<NodeId>) returns (order: seq<NodeId>)
    requires DistinctElements(ids) && g.Keys == Elements(ids) && kids == KeptOutputs(g)
    ensures Topological(g, order)
    ensures |order| != |ids| <==> !Acyclic(g)
    ensures forall v {:trigger FedByCycle(g, v)} :: v in g ==> (v !in order <==> FedByCycle(g, v))
  {
    var inDegree := InDegrees(g, ids);
    var queue := Sources(inDegree, ids);
    order := [];
    assert Elements(order) == {};
    while queue != []
      invariant Kahn(g, ids, inDegree, order, queue)
      invariant Topological(g, order)
      decreases |ids| - |order|
    {
      var current := queue[0];
      KahnTake(g, ids, inDegree, order, queue);
      ReleasingChildren(g, kids, ids, inDegree, Elements(order + [current]), current);
      ghost var before := inDegree;
      queue, order := queue[1..], order + [current];
      inDegree, queue := ReleaseChildren(kids[current], inDegree, order, queue);
      Released(g, kids, ids, before, inDegree, Elements(order), current);
      KahnRoom(g, ids, inDegree, order, queue);
    }
    KahnDone(g, ids, inDegree, order);
  }

  lemma ReleasingChildren(g: Graph, kids: Graph, ids: seq<NodeId>, before: map<NodeId, int>, done: set<NodeId>,
                          current: NodeId)
    requires current in g && kids == KeptOutputs(g) && before.Keys == g.Keys
    requires Releasing(g, ids, before, done, current)
    ensures forall k :: 0 <= k < |kids[current]| ==> kids[current][k] in before
    ensures forall v :: v in before ==> before[v] >= Total(kids[current], v)
  {
    forall k | 0 <= k < |kids[current]| ensures kids[current][k] in before {
      KeepMember(g[current], g.Keys, kids[current][k]);
    }
    forall v | v in before ensures before[v] >= Total(kids[current], v) {
      KeepTotal(g[current], |g[current]|, g.Keys, v);
    }
  }

  lemma Released(g: Graph, kids: Graph, ids: seq<NodeId>, before: map<NodeId, int>, after: map<NodeId, int>,
                 done: set<NodeId>, current: NodeId)
    requires current in g && kids == KeptOutputs(g) && before.Keys == g.Keys == after.Keys
    requires Releasing(g, ids, before, done, current)
    requires forall v :: v in before ==> after[v] == before[v] - Total(kids[current], v)
    ensures Counts(g, ids, after, done)
  {
    forall v | v in after ensures after[v] == Pending(g, ids, |ids|, done, v) {
      KeepTotal(g[current], |g[current]|, g.Keys, v);
    }
  }

  /** Every output list without its dangling entries. */
  function KeptOutputs(g: Graph): Graph { map id | id in g :: Keep(g[id], |g[id]|, g.Keys) }

  lemma KeptOutputsKeepEdges(g: Graph)
    ensures forall u, v :: Edge(KeptOutputs(g), u, v) <==> Edge(g, u, v)
    ensures forall u, v :: u in g && v in KeptOutputs(g)[u] ==> v in g
  {
    forall u, v ensures Edge(KeptOutputs(g), u, v) <==> Edge(g, u, v) {
      if u in g { KeepMember(g[u], g.Keys, v); }
    }
    forall u, v | u in g && v in KeptOutputs(g)[u] ensures v in g { KeepMember(g[u], g.Keys, v); }
  }

  class PipelineGraph {
    const config: PipelineConfig
    var children: Graph
    var parents: Graph

    /** Both adjacency maps agree with the node definitions, edge by edge and with multiplicity. */
    ghost predicate Valid()
      reads this
    {
      && config.UniqueIds() && children == KeptOutputs(config.Outputs()) && Balanced(children, parents)
      && forall v :: v in parents ==> |parents[v]| == Entries(config.nodes, v)
    }

    constructor (config: PipelineConfig)
      requires config.UniqueIds()
      ensures Valid() && this.config == config
    {
      this.config := config;
      children := map[];
      parents := map[];
      new;
      BuildAdjacencyLists();
    }

    method BuildAdjacencyLists()
      requires config.UniqueIds()
      modifies this`children, this`parents
      ensures Valid()
    {
      hide Balanced, KeptOutputs, PipelineConfig.UniqueIds;
      NodeIdsAreKeys();
      children, parents := BuildLists(config.Outputs(), NodeIds(config.nodes));
      AllEntriesCounted(config, parents);
    }

    lemma NodeIdsAreKeys()
      requires config.UniqueIds()
      ensures DistinctElements(NodeIds(config.nodes))
      ensures Elements(NodeIds(config.nodes)) == config.Ids() == config.Outputs().Keys
      ensures forall k :: 0 <= k < |config.nodes| ==> config.nodes[k].id in config.Ids()
    {
      var ids := NodeIds(config.nodes);
      forall id | id in config.Ids() ensures id in ids {
        var n :| n in config.nodes && n.id == id;
        var k :| 0 <= k < |config.nodes| && config.nodes[k] == n;
        assert ids[k] == id;
      }
    }

    /** Both maps have a list for every node, with its input entries and its outputs to existing nodes. */
    lemma ListsCover(n: Node)
      requires Valid() && n in config.nodes
      ensures n.id in parents && |parents[n.id]| == Entries(config.nodes, n.id)
      ensures n.id in children && children[n.id] == KeptOutputs(config.Outputs())[n.id]
    {
    }

    /** The adjacency maps hold exactly the edges between existing nodes; `parents` is the reverse of `children`. */
    lemma AdjacencyIsTheEdges()
      requires Valid()
      ensures forall u, v :: Edge(children, u, v) <==> Edge(config.Outputs(), u, v)
      ensures Reverse(children, parents)
      ensures forall w {:trigger Walk(children, w)} {:trigger Walk(config.Outputs(), w)} ::
                Walk(children, w) <==> Walk(config.Outputs(), w)
    {
      KeptOutputsKeepEdges(config.Outputs());
      BalancedReverses(children, parents);
      SameEdgesSameWalks(children, config.Outputs());
    }

    lemma ParentsReverseOutputs()
      requires Valid()
      ensures Reverse(config.Outputs(), parents)
      ensures forall v, u :: v in parents && u in parents[v] ==> u in parents
    {
      KeptOutputsKeepEdges(config.Outputs());
      BalancedReverses(children, parents);
    }

    /** Kahn's algorithm, self-loops, duplicate edges and dangling outputs included. */
    method TopologicalSort() returns (order: seq<NodeId>, hasCycle: bool)
      requires Valid()
      ensures Topological(config.Outputs(), order)
      ensures hasCycle <==> !Acyclic(config.Outputs())
      ensures forall v {:trigger FedByCycle(config.Outputs(), v)} ::
                v in config.Ids() ==> (v !in order <==> FedByCycle(config.Outputs(), v))
    {
      NodeIdsAreKeys();
      order := KahnSort(config.Outputs(), children, NodeIds(config.nodes));
      hasCycle := |order| != |config.nodes|;
    }

    /** Worklist search over `children`; start ids that name no node are visited too. */
    method DfsFromNodes(starts: seq<NodeId>) returns (visited: set<NodeId>)
      requires Valid()
      ensures forall v {:trigger Found(config.Outputs(), starts, v)} ::
                v in visited <==> Found(config.Outputs(), starts, v)
    {
      KeptOutputsKeepEdges(config.Outputs());
      visited := Search(children, starts);
      forall v ensures Found(children, starts, v) <==> Found(config.Outputs(), starts, v) {
        AdjacencyIsTheEdges();
        FoundDependsOnEdges(children, config.Outputs(), starts, v);
      }
    }
  }

  lemma AllEntriesCounted(config: PipelineConfig, parents: Graph)
    requires config.UniqueIds()
    requires forall k :: 0 <= k < |config.nodes| ==> NodeIds(config.nodes)[k] in config.Outputs()
    requires EntriesCounted(config.Outputs(), NodeIds(config.nodes), |config.nodes|, parents)
    ensures forall v :: v in parents ==> |parents[v]| == Entries(config.nodes, v)
  {
    var nodes := config.nodes;
    assert forall k :: 0 <= k < |nodes| ==> nodes[k] in nodes;
    forall v | v in parents ensures |parents[v]| == Entries(nodes, v) {
      PendingIsEntries(config.Outputs(), nodes, |nodes|, v);
      assert nodes[..|nodes|] == nodes;
    }
  }

  /** Forward and reverse lists of the graph `g`, whose ids in definition order are `ids`. */
  method BuildLists(g: Graph, ids: seq<NodeId>) returns (children: Graph, parents: Graph)
    requires DistinctElements(ids) && g.Keys == Elements(ids)
    ensures children == KeptOutputs(g) && Balanced(children, parents)
    ensures (forall k :: 0 <= k < |ids| ==> ids[k] in g) && EntriesCounted(g, ids, |ids|, parents)
  {
    hide Balanced, Lengthened, Pending;
    NoEdgesYet(g, ids);
    children := map id | id in g :: [];
    parents := children;
    for i := 0 to |ids|
      invariant children.Keys == g.Keys && Balanced(children, parents)
      invariant ListedUpTo(g, ids, i, children) && EntriesCounted(g, ids, i, parents)
    {
      ListedStep(g, ids, i, children);
      ghost var before := parents;
      children, parents := AddEdges(ids[i], g[ids[i]], children, parents);
      CountedStep(g, ids, i, before, parents);
    }
    ListedAll(g, ids, children);
  }

  /** Every list of `parents` is as long as there are entries for its node among the outputs of the first `n` nodes. */
  ghost predicate EntriesCounted(g: Graph, ids: seq<NodeId>, n: nat, parents: Graph)
    requires n <= |ids| && forall k :: 0 <= k < |ids| ==> ids[k] in g
  {
    forall v :: v in parents ==> |parents[v]| == Pending(g, ids, n, {}, v)
  }

  lemma CountedStep(g: Graph, ids: seq<NodeId>, n: nat, before: Graph, parents: Graph)
    requires n < |ids| && (forall k :: 0 <= k < |ids| ==> ids[k] in g) && EntriesCounted(g, ids, n, before)
    requires Lengthened(before, parents, g[ids[n]], |g[ids[n]]|)
    ensures EntriesCounted(g, ids, n + 1, parents)
  {
  }

  lemma NoEdgesYet(g: Graph, ids: seq<NodeId>)
    requires g.Keys == Elements(ids)
    ensures forall k :: 0 <= k < |ids| ==> ids[k] in g
    ensures var empty: Graph := map id | id in g :: [];
            Balanced(empty, empty) && ListedUpTo(g, ids, 0, empty) && EntriesCounted(g, ids, 0, empty)
  {
    forall k | 0 <= k < |ids| ensures ids[k] in g { assert ids[k] in Elements(ids); }
  }

  ghost predicate ListedUpTo(g: Graph, ids: seq<NodeId>, n: nat, children: Graph)
    requires g.Keys == Elements(ids)
  {
    && children.Keys == g.Keys
    && (forall k :: 0 <= k < |ids| ==> ids[k] in g)
    && (forall k :: 0 <= k < |ids| && k < n ==> children[ids[k]] == KeptOutputs(g)[ids[k]])
    && (forall k :: n <= k < |ids| ==> children[ids[k]] == [])
  }

  lemma ListedStep(g: Graph, ids: seq<NodeId>, n: nat, children: Graph)
    requires DistinctElements(ids) && g.Keys == Elements(ids) && ListedUpTo(g, ids, n, children) && n < |ids|
    ensures ListedUpTo(g, ids, n + 1, children[ids[n] := KeptOutputs(g)[ids[n]]])
  {
  }

  lemma ListedAll(g: Graph, ids: seq<NodeId>, children: Graph)
    requires g.Keys == Elements(ids) && ListedUpTo(g, ids, |ids|, children)
    ensures children == KeptOutputs(g)
  {
    forall id | id in g ensures children[id] == KeptOutputs(g)[id] {
      assert id in Elements(ids);
      var k :| 0 <= k < |ids| && ids[k] == id;
    }
  }

  /** Every list of `parents` is longer than in `before` by the entries among the first `n` outputs that name its
      node. */
  ghost predicate Lengthened(before: Graph, parents: Graph, output: seq<NodeId>, n: nat)
    requires n <= |output|
  {
    parents.Keys == before.Keys && forall v :: v in parents ==> |parents[v]| == |before[v]| + Occurs(output, n, v)
  }

  lemma LengthenedStep(before: Graph, parents: Graph, output: seq<NodeId>, n: nat, from: NodeId)
    requires n < |output| && Lengthened(before, parents, output, n)
    ensures var to := output[n];
            Lengthened(before, if to in parents then parents[to := parents[to] + [from]] else parents, output, n + 1)
  {
  }

  lemma NothingLengthened(before: Graph, output: seq<NodeId>)
    ensures Lengthened(before, before, output, 0)
  {
  }

  /** The inner loop of the build: one node's outputs, skipping those that name no node. */
  method AddEdges(from: NodeId, output: seq<NodeId>, children0: Graph, parents0: Graph)
    returns (children: Graph, parents: Graph)
    requires from in children0 && children0[from] == [] && Balanced(children0, parents0)
    ensures children == children0[from := Keep(output, |output|, children0.Keys)]
    ensures Balanced(children, parents) && Lengthened(parents0, parents, output, |output|)
  {
    hide Lengthened, Occurs, Total;
    children, parents := children0, parents0;
    NothingLengthened(parents0, output);
    for j := 0 to |output|
      invariant children == children0[from := Keep(output, j, children0.Keys)]
      invariant Balanced(children, parents) && Lengthened(parents0, parents, output, j)
    {
      var to := output[j];
      LengthenedStep(parents0, parents, output, j, from);
      if to in children {
        BalancedStep(children, parents, from, to);
        children := children[from := children[from] + [to]];
        parents := parents[to := parents[to] + [from]];
      }
    }
  }

  /** What a worklist search started from `starts` ends up visiting. */
  ghost predicate Found(g: Graph, starts: seq<NodeId>, v: NodeId) { v in starts || ReachedFromAny(g, starts, v) }

  lemma FoundDependsOnEdges(g: Graph, h: Graph, starts: seq<NodeId>, v: NodeId)
    requires forall w :: Walk(g, w) <==> Walk(h, w)
    ensures Found(g, starts, v) <==> Found(h, starts, v)
  {
    if a :| a in starts && Reaches(g, a, v) {
      var w :| WalkFrom(g, a, v, w);
      assert WalkFrom(h, a, v, w);
    }
    if a :| a in starts && Reaches(h, a, v) {
      var w :| WalkFrom(h, a, v, w);
      assert WalkFrom(g, a, v, w);
    }
  }

  lemma FoundIsLeast(g: Graph, starts: seq<NodeId>, s: set<NodeId>, v: NodeId)
    requires forall a :: a in starts ==> a in s
    requires forall x, y :: x in s && Edge(g, x, y) ==> y in s
    requires Found(g, starts, v)
    ensures v in s
  {
    if v !in starts {
      var a :| a in starts && Reaches(g, a, v);
      var w :| WalkFrom(g, a, v, w);
      ClosedSetHoldsWalk(g, s, w);
    }
  }

  lemma FoundStep(g: Graph, starts: seq<NodeId>, u: NodeId, v: NodeId)
    requires Found(g, starts, u) && Edge(g, u, v)
    ensures Found(g, starts, v)
  {
    hide Reaches;
    EdgeReaches(g, u, v);
    if u !in starts {
      var a :| a in starts && Reaches(g, a, u);
      ReachesTransitive(g, a, u, v);
    }
  }

  /** Every edge out of a visited vertex leads to a vertex visited or waiting. */
  ghost predicate Explored(g: Graph, visited: set<NodeId>, stack: seq<NodeId>) {
    forall u, v :: u in visited && Edge(g, u, v) ==> v in visited || v in stack
  }

  /** A stack search under way: what is visited or waiting can be reached, and nothing reachable is forgotten. */
  ghost predicate Exploring(g: Graph, starts: seq<NodeId>, visited: set<NodeId>, stack: seq<NodeId>) {
    && Explored(g, visited, stack)
    && (forall v :: v in visited || v in stack ==> v in Known(g, starts) && Found(g, starts, v))
    && (forall a :: a in starts ==> a in visited || a in stack)
  }

  ghost function Known(g: Graph, starts: seq<NodeId>): set<NodeId> { g.Keys + Elements(starts) }

  lemma ExploringBegins(g: Graph, starts: seq<NodeId>)
    ensures Exploring(g, starts, {}, starts)
  {
  }

  lemma ExploringSkips(g: Graph, starts: seq<NodeId>, visited: set<NodeId>, stack: seq<NodeId>)
    requires Exploring(g, starts, visited, stack) && stack != [] && stack[|stack| - 1] in visited
    ensures Exploring(g, starts, visited, stack[..|stack| - 1])
  {
    hide Found;
    LastAndRest(stack);
  }

  lemma EdgeIsKnown(g: Graph, starts: seq<NodeId>, u: NodeId, v: NodeId)
    requires Edge(g, u, v)
    ensures v in Known(g, starts)
  {
  }

  lemma ExploredStep(g: Graph, visited: set<NodeId>, rest: seq<NodeId>, u: NodeId, stack: seq<NodeId>)
    requires Explored(g, visited, rest + [u])
    requires forall v :: v in rest || Edge(g, u, v) ==> v in stack || v in visited + {u}
    ensures Explored(g, visited + {u}, stack)
  {
    hide Edge;
    forall x, v | x in visited + {u} && Edge(g, x, v) ensures v in visited + {u} || v in stack {
      if x != u { assert v in visited || v in rest + [u]; }
    }
  }

  /** Visiting `u` from the top of the stack: what is pushed are ends of edges out of `u`, all but the visited ones. */
  lemma ExploringVisits(g: Graph, starts: seq<NodeId>, visited: set<NodeId>, rest: seq<NodeId>, u: NodeId,
                        stack: seq<NodeId>)
    requires Exploring(g, starts, visited, rest + [u]) && u !in visited
    requires forall v :: v in stack ==> v in rest || Edge(g, u, v)
    requires forall v :: v in rest || Edge(g, u, v) ==> v in stack || v in visited + {u}
    ensures Exploring(g, starts, visited + {u}, stack)
    ensures |Known(g, starts) - (visited + {u})| < |Known(g, starts) - visited|
  {
    hide Found, Explored, Edge, Known;
    assert u in rest + [u] && forall v :: v in rest ==> v in rest + [u];
    assert forall v :: v in rest + [u] ==> v in rest || v == u;
    ExploredStep(g, visited, rest, u, stack);
    forall v | v in stack ensures v in Known(g, starts) && Found(g, starts, v) {
      if v !in rest { FoundStep(g, starts, u, v); EdgeIsKnown(g, starts, u, v); }
    }
    Shrinks(Known(g, starts), visited, u);
  }

  lemma ExploringEnds(g: Graph, starts: seq<NodeId>, visited: set<NodeId>)
    requires Exploring(g, starts, visited, [])
    ensures forall v {:trigger Found(g, starts, v)} :: v in visited <==> Found(g, starts, v)
  {
    hide Found;
    forall v ensures v in visited <==> Found(g, starts, v) {
      if Found(g, starts, v) { FoundIsLeast(g, starts, visited, v); }
    }
  }

  /** The stack search shared by `dfs_from_nodes` (along children) and `find_dead_ends` (along parents). */
  method Search(g: Graph, starts: seq<NodeId>) returns (visited: set<NodeId>)
    requires forall u, v :: u in g && v in g[u] ==> v in g
    ensures forall v {:trigger Found(g, starts, v)} :: v in visited <==> Found(g, starts, v)
  {
    hide Exploring, Known, Found;
    visited := {};
    var stack := starts;
    ExploringBegins(g, starts);
    while stack != []
      invariant Exploring(g, starts, visited, stack)
      decreases |Known(g, starts) - visited|, |stack|
    {
      var current := stack[|stack| - 1];
      ghost var before := stack;
      stack := stack[..|stack| - 1];
      if current in visited {
        ExploringSkips(g, starts, visited, before);
      } else {
        var kids := if current in g then g[current] else [];
        ghost var rest := stack;
        stack := PushUnvisited(kids, visited + {current}, stack);
        assert rest + [current] == before;
        ExploringVisits(g, starts, visited, rest, current, stack);
        visited := visited + {current};
      }
    }
    ExploringEnds(g, starts, visited);
  }

  lemma LastAndRest(s: seq<NodeId>)
    requires s != []
    ensures forall v :: v in s <==> v == s[|s| - 1] || v in s[..|s| - 1]
    ensures s == s[..|s| - 1] + [s[|s| - 1]]
  {
    assert s == s[..|s| - 1] + [s[|s| - 1]];
  }

  lemma Shrinks(all: set<NodeId>, visited: set<NodeId>, x: NodeId)
    requires x in all && x !in visited
    ensures |all - (visited + {x})| < |all - visited|
  {
    assert all - (visited + {x}) == (all - visited) - {x};
  }

  method PushUnvisited(kids: seq<NodeId>, visited: set<NodeId>, before: seq<NodeId>) returns (stack: seq<NodeId>)
    ensures forall v :: v in stack <==> v in before || (v in kids && v !in visited)
  {
    stack := before;
    for i := 0 to |kids|
      invariant forall v :: v in stack <==> v in before || (v in kids[..i] && v !in visited)
    {
      assert kids[..i + 1] == kids[..i] + [kids[i]];
      if kids[i] !in visited { stack := stack + [kids[i]]; }
    }
    assert kids[..|kids|] == kids;
  }
}
