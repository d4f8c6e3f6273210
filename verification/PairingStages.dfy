/** Any number of Pairing nodes: which of them an enumerated path records, and how it ends. */
module PairingStages {
  import opened Walks
  import opened Pipelines
  import opened Runs
  import opened Merging
  import opened PairingOrder
  import opened EnumerationTheorems
  import opened PairingPieces
  import opened PairingEnumeration

  /** The Pairing nodes a path records. */
  ghost function PairingsOn(s: Path): set<NodeId> { set e | e in s && e.PairingStep? :: e.id }

  /** The first `k` Pairing nodes in processing order. */
  ghost function First(order: seq<Node>, k: nat): set<NodeId>
    requires k <= |order|
  {
    set i | 0 <= i < k :: order[i].id
  }

  lemma PairingsConcat(a: Path, b: Path)
    ensures PairingsOn(a + b) == PairingsOn(a) + PairingsOn(b)
  {
    forall e | e in a || e in b ensures e in a + b {}
  }

  /** Every entry of a run but a truncation marker records a node it emits. */
  lemma RunEntry(nodes: Nodes, m: Mode, start: NodeId, q: Path, i: nat)
    requires Run(nodes, m, start, q) && i < |q| && !q[i].Truncated?
    ensures q[i].id in nodes && Emits(nodes[q[i].id], q[i])
    ensures m.policy == TurnBack ==> !q[i].PairingStep?
  {
    hide Visits;
    if i < |q| - 1 {
      ChainPrefix(nodes, m, start, q[..|q| - 1], i);
      assert q[..|q| - 1][i] == q[i];
    }
  }

  /** A search that turns back at Pairing nodes records none. */
  lemma NoPairingOnRun(nodes: Nodes, m: Mode, start: NodeId, q: Path)
    requires m.policy == TurnBack && Run(nodes, m, start, q)
    ensures forall k :: 0 <= k <= |q| ==> PairingsOn(q[..k]) == {}
    ensures PairingsOn(q) == {}
  {
    hide Run;
    forall i | 0 <= i < |q| ensures !q[i].PairingStep? { if !q[i].Truncated? { RunEntry(nodes, m, start, q, i); } }
  }

  lemma {:induction false} NewsAreOld(s: Path, seen: set<NodeId>)
    ensures forall e :: e in News(s, seen) ==> e in s
  {
    if s != [] { NewsAreOld(s[1..], seen); NewsAreOld(s[1..], seen + if s[0].Truncated? then {} else {s[0].id}); }
  }

  lemma MergePairings(p1: Path, p2: Path, x: set<NodeId>)
    requires PairingsOn(p1) == x && PairingsOn(p2) == x
    ensures PairingsOn(Merge(p1, p2)) == x
  {
    NewsAreOld(p2, Ids(p1));
    PairingsConcat(p1, News(p2, Ids(p1)));
  }

  /** A path for one input of the Pairing node number `k` records exactly the Pairing nodes before it. */
  lemma {:induction false} ArrivesRecords(st: Setting, k: nat, v: NodeId, t: Path)
    requires st.Ok() && k < |st.order| && Arrives(st, k, v, t)
    ensures PairingsOn(t) == First(st.order, k)
    decreases k, 0
  {
    hide Run, Merge, Setting.Inputs, LeftOpen;
    if k == 0 {
      var i :| 0 <= i < |st.captures| && Run(st.nodes, Towards(v), st.captures[i].id, t);
      NoPairingOnRun(st.nodes, Towards(v), st.captures[i].id, t);
    } else {
      var f: Path :| Open(st, k, f) && TakenTo(st.nodes, f, v, t);
      var b, j, q := OpenFrom(st, k, f);
      PairedRecords(st, k - 1, b);
      NoPairingOnRun(st.nodes, AROUND, st.order[k - 1].output[j], q);
      RunIsNotEmpty(st.nodes, AROUND, st.order[k - 1].output[j], q);
      PairingsConcat(b, q);
      if t != f {
        var last := f[|f| - 1].id;
        var q' :| Run(st.nodes, Towards(v), last, q') && t == f[..|f| - 1] + q';
        assert f[..|f| - 1] == b + q[..|q| - 1];
        PairingsConcat(b, q[..|q| - 1]);
        PairingsConcat(f[..|f| - 1], q');
        NoPairingOnRun(st.nodes, Towards(v), last, q');
      }
    }
  }

  /** An open path is a merge made at the Pairing node before, and a run onward from it. */
  lemma OpenFrom(st: Setting, k: nat, f: Path) returns (b: Path, j: nat, q: Path)
    requires st.Ok() && 0 < k < |st.order| && Open(st, k, f)
    ensures Paired(st, k - 1, b) && j < |st.order[k - 1].output|
    ensures Run(st.nodes, AROUND, st.order[k - 1].output[j], q) && f == b + q
  {
    hide Run, Paired, Setting.Inputs, LeftOpen;
    b, j, q := FoundFrom(st, k - 1, f);
  }

  lemma FoundFrom(st: Setting, k: nat, f: Path) returns (b: Path, j: nat, q: Path)
    requires st.Ok() && k < |st.order| && FoundBehind(st, k, f)
    ensures Paired(st, k, b) && j < |st.order[k].output|
    ensures Run(st.nodes, StageMode(st, k), st.order[k].output[j], q) && f == b + q
  {
    hide Run, Paired, Setting.Inputs;
    var x: Path {:trigger Paired(st, k, x)} :|
        Paired(st, k, x) && Onward(st.nodes, StageMode(st, k), x, st.order[k].output, f);
    var i, y: Path :| 0 <= i < |st.order[k].output| && Run(st.nodes, StageMode(st, k), st.order[k].output[i], y) &&
        f == x + y;
    b, j, q := x, i, y;
  }

  lemma RunIsNotEmpty(nodes: Nodes, m: Mode, start: NodeId, q: Path)
    requires Run(nodes, m, start, q)
    ensures q != []
  {
  }

  lemma PairedRecords(st: Setting, k: nat, b: Path)
    requires st.Ok() && k < |st.order| && Paired(st, k, b)
    ensures PairingsOn(b) == First(st.order, k + 1)
    decreases k, 1
  {
    hide Arrives, Merge;
    var pn := st.order[k];
    var p1, p2 {:trigger Merge(p1, p2)} :| Arrives(st, k, st.Inputs(k)[0], p1) && Arrives(st, k, st.Inputs(k)[1], p2)
                   && b == Merge(p1, p2) + [PairingStep(pn.id, pn.pairingType)];
    ArrivesRecords(st, k, st.Inputs(k)[0], p1);
    ArrivesRecords(st, k, st.Inputs(k)[1], p2);
    MergePairings(p1, p2, First(st.order, k));
    PairingsConcat(Merge(p1, p2), [PairingStep(pn.id, pn.pairingType)]);
    assert PairingsOn([PairingStep(pn.id, pn.pairingType)]) == {pn.id};
    assert First(st.order, k + 1) == First(st.order, k) + {pn.id};
  }

  /** `t` records the first `k` Pairing nodes and no other; behind the last of them it starts with a merge made
      there. */
  ghost predicate RecordsFirst(st: Setting, t: Path, k: nat)
    requires st.Ok() && k <= |st.order|
  {
    PairingsOn(t) == First(st.order, k) && (k > 0 ==> StartsPaired(st, k - 1, t))
  }

  ghost predicate StartsPaired(st: Setting, k: nat, t: Path)
    requires st.Ok() && k < |st.order|
  {
    exists b {:trigger Paired(st, k, b)} :: Paired(st, k, b) && b <= t
  }

  lemma PassingRecordsNone(st: Setting, t: Path)
    requires st.Ok() && PassesBy(st.nodes, st.captures, t)
    ensures RecordsFirst(st, t, 0)
  {
    hide Run, Setting.Inputs;
    var i :| 0 <= i < |st.captures| && Run(st.nodes, AROUND, st.captures[i].id, t);
    NoPairingOnRun(st.nodes, AROUND, st.captures[i].id, t);
  }

  lemma LeavesRecords(st: Setting, k: nat, t: Path)
    requires st.Ok() && st.Consistent() && k < |st.order| && Leaves(st, k, t)
    ensures RecordsFirst(st, t, k + 1)
  {
    hide Run, Paired, Setting.Inputs, Setting.Consistent;
    var b, j, q := FoundFrom(st, k, t);
    PairedRecords(st, k, b);
    PairingsConcat(b, q);
    if k + 1 < |st.order| {
      NoPairingOnRun(st.nodes, AROUND, st.order[k].output[j], q);
    } else {
      AllPairingsListed(st, st.order[k].output[j], q);
    }
  }

  lemma AllPairingsListed(st: Setting, start: NodeId, q: Path)
    requires st.Consistent() && Run(st.nodes, ONWARD, start, q)
    ensures PairingsOn(q) <= First(st.order, |st.order|)
  {
    hide Run, Setting.Inputs;
    forall i | 0 <= i < |q| && q[i].PairingStep? ensures q[i].id in First(st.order, |st.order|) {
      RunEntry(st.nodes, ONWARD, start, q, i);
      var k :| 0 <= k < |st.order| && st.order[k].id == q[i].id;
    }
  }

  /** The Pairing nodes on an enumerated path are always an initial segment of the processing order. */
  lemma PairingsFormPrefix(st: Setting, t: Path)
    requires st.Ok() && st.Consistent() && Enumerable(st, t)
    ensures exists k {:trigger RecordsFirst(st, t, k)} :: 0 <= k <= |st.order| && RecordsFirst(st, t, k)
  {
    hide Run, Paired, Setting.Inputs, Setting.Consistent, Leaves, PassesBy, RecordsFirst;
    if PassesBy(st.nodes, st.captures, t) {
      PassingRecordsNone(st, t);
    } else {
      var k: nat :| 0 <= k < |st.order| && Leaves(st, k, t);
      LeavesRecords(st, k, t);
    }
  }

  lemma InFirst(st: Setting, n: nat, k: nat)
    requires st.Consistent() && n < |st.order| && k <= |st.order|
    ensures st.order[n].id in First(st.order, k) <==> n < k
  {
    hide Setting.Inputs;
  }

  /** A Pairing node on a path brings all earlier ones with it. */
  lemma LaterNeedsEarlier(st: Setting, t: Path, i: nat, j: nat)
    requires st.Ok() && st.Consistent() && Enumerable(st, t) && i < j < |st.order|
    requires st.order[j].id in PairingsOn(t)
    ensures st.order[i].id in PairingsOn(t)
  {
    hide Enumerable, Setting.Consistent, Paired;
    PairingsFormPrefix(st, t);
    var k {:trigger RecordsFirst(st, t, k)} :| 0 <= k <= |st.order| && RecordsFirst(st, t, k);
    InFirst(st, i, k);
    InFirst(st, j, k);
  }

  /** On an acyclic pipeline every enumerated path ends at a Termination. */
  lemma AcyclicPathsEnd(st: Setting, t: Path)
    requires st.Ok() && Acyclic(GraphOf(st.nodes)) && Enumerable(st, t)
    ensures Completed(t)
  {
    hide Acyclic, Paired, Setting.Inputs, Chain;
    if PassesBy(st.nodes, st.captures, t) {
      var i :| 0 <= i < |st.captures| && Run(st.nodes, AROUND, st.captures[i].id, t);
      NoTruncation(st.nodes, AROUND, st.captures[i].id, t);
    } else {
      var k :| 0 <= k < |st.order| && Leaves(st, k, t);
      var b, j, q := FoundFrom(st, k, t);
      NoTruncation(st.nodes, StageMode(st, k), st.order[k].output[j], q);
      assert t[|t| - 1] == q[|q| - 1];
    }
  }

  // ------------------------------------------------------------ the pipeline decides which Pairing nodes are reached

  predicate Ordinary(n: Node) { !n.Termination? && !n.Pairing? }

  /** A walk from `a` through ordinary nodes, its last node excepted. */
  ghost predicate Way(nodes: Nodes, a: NodeId, w: seq<NodeId>) {
    Walk(GraphOf(nodes), w) && w[0] == a && forall k :: 0 <= k < |w| - 1 ==> Ordinary(nodes[w[k]])
  }

  /** Where a search towards `v` comes to an end: at any Termination; at `v`, unless that is a Process with several
      methods; and if `v` is a Pairing node, only behind such a Process. */
  predicate Arrived(nodes: Nodes, v: NodeId, n: Node)
    requires v in nodes
  {
    n.Termination? || if nodes[v].Pairing? then n.ManyMethods() && v in n.output else n.id == v && !n.ManyMethods()
  }

  ghost predicate Finds(nodes: Nodes, a: NodeId, v: NodeId)
    requires v in nodes
  {
    exists w :: Way(nodes, a, w) && Arrived(nodes, v, nodes[w[|w| - 1]])
  }

  /** The Pairing node `pn` leaves a path open at `u`. */
  ghost predicate Opens(nodes: Nodes, pn: Node, u: NodeId) {
    exists j, w :: 0 <= j < |pn.output| && Way(nodes, pn.output[j], w) && w[|w| - 1] == u &&
                   Ordinary(nodes[u]) && !nodes[u].ManyMethods()
  }

  /** The input `v` of the Pairing node number `k` is supplied: from a Capture for the first Pairing node, later only
      from what the one before leaves open. */
  ghost predicate Fed(st: Setting, k: nat, v: NodeId)
    requires k < |st.order| && v in st.nodes
  {
    if k == 0 then exists c :: c in st.captures && Finds(st.nodes, c.id, v)
    else exists u :: u in st.Inputs(k) && Opens(st.nodes, st.order[k - 1], u) && (u == v || Finds(st.nodes, u, v))
  }

  ghost predicate StageFed(st: Setting, k: nat)
    requires st.Ok() && k < |st.order|
  {
    Fed(st, k, st.Inputs(k)[0]) && Fed(st, k, st.Inputs(k)[1])
  }

  /** Behind the Pairing node number `k` a Termination can be reached, in front of further Pairing nodes unless it is
      the last. */
  ghost predicate EndsBehind(st: Setting, k: nat)
    requires k < |st.order|
  {
    exists j, w :: 0 <= j < |st.order[k].output| && EndWay(st, k, st.order[k].output[j], w)
  }

  ghost predicate EndWay(st: Setting, k: nat, a: NodeId, w: seq<NodeId>) {
    && Walk(GraphOf(st.nodes), w) && w[0] == a && st.nodes[w[|w| - 1]].Termination?
    && forall i :: 0 <= i < |w| - 1 ==>
        !st.nodes[w[i]].Termination? && (k + 1 < |st.order| ==> !st.nodes[w[i]].Pairing?)
  }

  /** Something is merged at the Pairing node number `k`. */
  ghost predicate Merges(st: Setting, k: nat)
    requires st.Ok() && k < |st.order|
  {
    exists b {:trigger Paired(st, k, b)} :: Paired(st, k, b)
  }

  ghost predicate Supplied(st: Setting, k: nat, v: NodeId)
    requires st.Ok() && k < |st.order|
  {
    exists t {:trigger Arrives(st, k, v, t)} :: Arrives(st, k, v, t)
  }

  /** What a search towards `v` finds is decided by walks. */
  lemma FindsExactly(nodes: Nodes, a: NodeId, v: NodeId)
    requires Keyed(nodes) && Acyclic(GraphOf(nodes)) && v in nodes
    ensures (exists t :: Run(nodes, Towards(v), a, t)) <==> Finds(nodes, a, v)
  {
    hide Acyclic, Run;
    if t :| Run(nodes, Towards(v), a, t) { RunFinds(nodes, a, v, t); }
    if Finds(nodes, a, v) {
      var w :| Way(nodes, a, w) && Arrived(nodes, v, nodes[w[|w| - 1]]);
      var t := WayIsRun(nodes, a, v, w);
    }
  }

  lemma RunFinds(nodes: Nodes, a: NodeId, v: NodeId, t: Path)
    requires Keyed(nodes) && Acyclic(GraphOf(nodes)) && v in nodes && Run(nodes, Towards(v), a, t)
    ensures Finds(nodes, a, v)
  {
    hide Acyclic, Run;
    NoTruncation(nodes, Towards(v), a, t);
    RunIsNotEmpty(nodes, Towards(v), a, t);
    var w := RunIsWalk(nodes, Towards(v), a, t);
    assert Way(nodes, a, w) && Arrived(nodes, v, nodes[w[|w| - 1]]);
  }

  lemma WayIsRun(nodes: Nodes, a: NodeId, v: NodeId, w: seq<NodeId>) returns (t: Path)
    requires Keyed(nodes) && Acyclic(GraphOf(nodes)) && v in nodes
    requires Way(nodes, a, w) && Arrived(nodes, v, nodes[w[|w| - 1]])
    ensures Run(nodes, Towards(v), a, t)
  {
    hide Acyclic, Run;
    var u := w;
    AcyclicWalkDistinct(GraphOf(nodes), w);
    if v in w && !nodes[v].Pairing? && !nodes[v].ManyMethods() {
      var k :| 0 <= k < |w| && w[k] == v;
      Slice(GraphOf(nodes), w, 0, k + 1);
      u := w[..k + 1];
    }
    assert FinishingWalk(nodes, Towards(v), u);
    FinishingWalkIsRun(nodes, Towards(v), u);
    t := Record(nodes, u);
  }

  /** A path is left open only at a node that a way leads to, behind a merge. */
  lemma OpenMeans(st: Setting, k: nat, f: Path)
    requires st.Ok() && Acyclic(GraphOf(st.nodes)) && 0 < k < |st.order| && Open(st, k, f)
    ensures Merges(st, k - 1)
    ensures f != [] && !f[|f| - 1].Truncated? && f[|f| - 1].id in st.Inputs(k)
    ensures Opens(st.nodes, st.order[k - 1], f[|f| - 1].id)
  {
    hide Acyclic, Run, Paired, Setting.Inputs;
    var b, j, q := OpenFrom(st, k, f);
    RunIsNotEmpty(st.nodes, AROUND, st.order[k - 1].output[j], q);
    assert f[|f| - 1] == q[|q| - 1];
    RunEntry(st.nodes, AROUND, st.order[k - 1].output[j], q, |q| - 1);
    var w := RunIsWalk(st.nodes, AROUND, st.order[k - 1].output[j], q);
    assert Way(st.nodes, st.order[k - 1].output[j], w);
  }

  /** And at every such node, behind every merge, one is left open. */
  lemma OpenAlong(st: Setting, k: nat, u: NodeId, b: Path) returns (f: Path)
    requires st.Ok() && st.Consistent() && Acyclic(GraphOf(st.nodes)) && 0 < k < |st.order| && u in st.Inputs(k)
    requires Paired(st, k - 1, b) && Opens(st.nodes, st.order[k - 1], u)
    ensures Open(st, k, f) && f[|f| - 1].id == u
  {
    hide Acyclic, Run, Paired, Setting.Inputs, Way, Ordinary, StopsAmong, Setting.Consistent;
    var out := st.order[k - 1].output;
    var j, w := OpeningWay(st.nodes, st.order[k - 1], u);
    FeedsStops(st, k, u);
    var q := WayIsOpenRun(st.nodes, out[j], u, w);
    f := b + q;
    OpenEnd(b, q, u, st.Inputs(k));
    assert Onward(st.nodes, AROUND, b, out, f);
    assert FoundBehind(st, k - 1, f);
  }

  lemma OpeningWay(nodes: Nodes, pn: Node, u: NodeId) returns (j: nat, w: seq<NodeId>)
    requires Opens(nodes, pn, u)
    ensures u in nodes && Ordinary(nodes[u]) && !nodes[u].ManyMethods() && j < |pn.output|
    ensures Way(nodes, pn.output[j], w) && w != [] && w[|w| - 1] == u
  {
    var i, x :| 0 <= i < |pn.output| && Way(nodes, pn.output[i], x) && x[|x| - 1] == u &&
                Ordinary(nodes[u]) && !nodes[u].ManyMethods();
    j, w := i, x;
  }

  /** At an input of the Pairing node the search without target stops. */
  lemma FeedsStops(st: Setting, k: nat, u: NodeId)
    requires st.Ok() && st.Consistent() && k < |st.order| && u in st.Inputs(k)
    ensures u in st.nodes && StopsAmong(st.nodes, AROUND, false, st.nodes[u].output)
  {
    hide Setting.Inputs;
    assert StopsAt(st.nodes, AROUND, false, st.order[k].id) && st.order[k].id in st.nodes[u].output;
  }

  lemma OpenEnd(b: Path, q: Path, u: NodeId, inputs: seq<NodeId>)
    requires q != [] && !LooksEnded(q) && q[|q| - 1].id == u && u in inputs
    ensures LeftOpen(b + q, inputs) && (b + q)[|b + q| - 1].id == u
  {
    assert (b + q)[|b + q| - 1] == q[|q| - 1];
  }

  lemma WayIsOpenRun(nodes: Nodes, a: NodeId, u: NodeId, w: seq<NodeId>) returns (q: Path)
    requires Keyed(nodes) && Acyclic(GraphOf(nodes)) && Way(nodes, a, w) && w != [] && w[|w| - 1] == u && u in nodes
    requires Ordinary(nodes[u]) && !nodes[u].ManyMethods() && StopsAmong(nodes, AROUND, false, nodes[u].output)
    ensures Run(nodes, AROUND, a, q) && q != [] && !LooksEnded(q) && q[|q| - 1].id == u
  {
    hide Acyclic, Run;
    assert FinishingWalk(nodes, AROUND, w);
    FinishingWalkIsRun(nodes, AROUND, w);
    q := Record(nodes, w);
  }

  /** Something arrives for the input `v` exactly when the Pairing node before has a merge and `v` is fed. */
  lemma ArrivesExactly(st: Setting, k: nat, v: NodeId)
    requires st.Ok() && st.Consistent() && Acyclic(GraphOf(st.nodes)) && k < |st.order| && v in st.nodes
    ensures Supplied(st, k, v) <==> (k > 0 ==> Merges(st, k - 1)) && Fed(st, k, v)
  {
    hide Acyclic, Run, Paired, Opens, Open, Setting.Consistent, Setting.Inputs, Setting.Ok, Finds;
    if k == 0 {
      forall i | 0 <= i < |st.captures|
        ensures (exists t :: Run(st.nodes, Towards(v), st.captures[i].id, t)) <==> Finds(st.nodes, st.captures[i].id, v)
      {
        KeyedSetting(st);
        FindsExactly(st.nodes, st.captures[i].id, v);
      }
      FirstArrives(st, v);
    } else {
      LaterArrives(st, k, v);
    }
  }

  lemma KeyedSetting(st: Setting)
    requires st.Ok()
    ensures Keyed(st.nodes)
  {
  }

  lemma FirstArrives(st: Setting, v: NodeId)
    requires st.Ok() && 0 < |st.order| && v in st.nodes
    requires forall i :: 0 <= i < |st.captures| ==>
               ((exists t :: Run(st.nodes, Towards(v), st.captures[i].id, t)) <==>
                   Finds(st.nodes, st.captures[i].id, v))
    ensures Supplied(st, 0, v) <==> Fed(st, 0, v)
  {
    hide Run, Finds, Setting.Inputs;
    if Supplied(st, 0, v) {
      var t: Path {:trigger Arrives(st, 0, v, t)} :| Arrives(st, 0, v, t);
      var i :| 0 <= i < |st.captures| && Run(st.nodes, Towards(v), st.captures[i].id, t);
      assert st.captures[i] in st.captures;
    }
    if Fed(st, 0, v) {
      var c :| c in st.captures && Finds(st.nodes, c.id, v);
      var i :| 0 <= i < |st.captures| && st.captures[i] == c;
      var t :| Run(st.nodes, Towards(v), st.captures[i].id, t);
      assert Arrives(st, 0, v, t);
    }
  }

  lemma LaterArrives(st: Setting, k: nat, v: NodeId)
    requires st.Ok() && st.Consistent() && Acyclic(GraphOf(st.nodes)) && 0 < k < |st.order| && v in st.nodes
    ensures Supplied(st, k, v) <==> Merges(st, k - 1) && Fed(st, k, v)
  {
    hide Acyclic, Run, Paired, Opens, Open, Setting.Consistent, Setting.Inputs, Finds;
    if Supplied(st, k, v) {
      var t: Path {:trigger Arrives(st, k, v, t)} :| Arrives(st, k, v, t);
      var f: Path :| Open(st, k, f) && TakenTo(st.nodes, f, v, t);
      OpenMeans(st, k, f);
      FindsExactly(st.nodes, f[|f| - 1].id, v);
    }
    if Merges(st, k - 1) && Fed(st, k, v) {
      var b: Path {:trigger Paired(st, k - 1, b)} :| Paired(st, k - 1, b);
      var u :| u in st.Inputs(k) && Opens(st.nodes, st.order[k - 1], u) && (u == v || Finds(st.nodes, u, v));
      var f := OpenAlong(st, k, u, b);
      OpenMeans(st, k, f);
      FindsExactly(st.nodes, u, v);
      if u == v {
        assert TakenTo(st.nodes, f, v, f) && Arrives(st, k, v, f);
      } else {
        var q :| Run(st.nodes, Towards(v), u, q);
        assert TakenTo(st.nodes, f, v, f[..|f| - 1] + q) && Arrives(st, k, v, f[..|f| - 1] + q);
      }
    }
  }

  /** The Pairing node number `k` merges something exactly when it and all earlier ones have both inputs fed. */
  lemma {:induction false} PairedExactly(st: Setting, k: nat)
    requires st.Ok() && st.Consistent() && Acyclic(GraphOf(st.nodes)) && k < |st.order|
    ensures Merges(st, k) <==> forall j :: 0 <= j <= k ==> StageFed(st, j)
  {
    hide Acyclic, Fed, Setting.Consistent, Setting.Inputs, Paired;
    if k > 0 { PairedExactly(st, k - 1); }
    ArrivesExactly(st, k, st.Inputs(k)[0]);
    ArrivesExactly(st, k, st.Inputs(k)[1]);
    PairedNeedsBoth(st, k);
    assert Merges(st, k) <==> (k > 0 ==> Merges(st, k - 1)) && StageFed(st, k);
  }

  lemma PairedNeedsBoth(st: Setting, k: nat)
    requires st.Ok() && k < |st.order|
    ensures Merges(st, k) <==> Supplied(st, k, st.Inputs(k)[0]) && Supplied(st, k, st.Inputs(k)[1])
  {
    hide Arrives, Setting.Inputs, Merge;
    var pn, v1, v2 := st.order[k], st.Inputs(k)[0], st.Inputs(k)[1];
    if Merges(st, k) {
      var b: Path {:trigger Paired(st, k, b)} :| Paired(st, k, b);
      var p1, p2 {:trigger Merge(p1, p2)} :| Arrives(st, k, v1, p1) && Arrives(st, k, v2, p2)
                     && b == Merge(p1, p2) + [PairingStep(pn.id, pn.pairingType)];
    }
    if Supplied(st, k, v1) && Supplied(st, k, v2) {
      var p1: Path {:trigger Arrives(st, k, v1, p1)} :| Arrives(st, k, v1, p1);
      var p2: Path {:trigger Arrives(st, k, v2, p2)} :| Arrives(st, k, v2, p2);
      assert Paired(st, k, Merge(p1, p2) + [PairingStep(pn.id, pn.pairingType)]);
    }
  }

  /** A finished path leaves from the Pairing node number `k` exactly when it merges something and leads to an end. */
  lemma LeavesExactly(st: Setting, k: nat)
    requires st.Ok() && Acyclic(GraphOf(st.nodes)) && k < |st.order|
    ensures (exists t :: Leaves(st, k, t)) <==> Merges(st, k) && EndsBehind(st, k)
  {
    hide Acyclic, Run, Paired, Setting.Inputs, EndWay;
    if t: Path :| Leaves(st, k, t) {
      var b, j, q := FoundFrom(st, k, t);
      EndRunIsWay(st, k, st.order[k].output[j], b, q);
    }
    if Merges(st, k) && EndsBehind(st, k) {
      var b: Path {:trigger Paired(st, k, b)} :| Paired(st, k, b);
      var j, w :| 0 <= j < |st.order[k].output| && EndWay(st, k, st.order[k].output[j], w);
      var q := EndWayIsRun(st, k, st.order[k].output[j], w);
      assert Onward(st.nodes, StageMode(st, k), b, st.order[k].output, b + q);
      assert (b + q)[|b + q| - 1] == q[|q| - 1];
      assert Leaves(st, k, b + q);
    }
  }

  lemma EndRunIsWay(st: Setting, k: nat, a: NodeId, b: Path, q: Path)
    requires Keyed(st.nodes) && Acyclic(GraphOf(st.nodes)) && k < |st.order|
    requires Run(st.nodes, StageMode(st, k), a, q) && (k + 1 < |st.order| ==> LooksEnded(b + q))
    ensures exists w :: EndWay(st, k, a, w)
  {
    hide Acyclic, Run, Setting.Inputs;
    NoTruncation(st.nodes, StageMode(st, k), a, q);
    RunIsNotEmpty(st.nodes, StageMode(st, k), a, q);
    RunEntry(st.nodes, StageMode(st, k), a, q, |q| - 1);
    assert (b + q)[|b + q| - 1] == q[|q| - 1];
    var w := RunIsWalk(st.nodes, StageMode(st, k), a, q);
    assert EndWay(st, k, a, w);
  }

  lemma EndWayIsRun(st: Setting, k: nat, a: NodeId, w: seq<NodeId>) returns (q: Path)
    requires Keyed(st.nodes) && Acyclic(GraphOf(st.nodes)) && k < |st.order| && EndWay(st, k, a, w)
    ensures Run(st.nodes, StageMode(st, k), a, q) && q != [] && Completed(q)
  {
    hide Acyclic, Run;
    FinishingWalkIsRun(st.nodes, StageMode(st, k), w);
    q := Record(st.nodes, w);
  }

  /** Exactly when a Pairing node of an acyclic pipeline is on an enumerated path: some Pairing node from it onwards
      leads to an end, and that one and all before it, related to it or not, have both inputs fed by their
      predecessor. */
  lemma PairingRecordedExactly(st: Setting, n: nat)
    requires st.Ok() && st.Consistent() && Acyclic(GraphOf(st.nodes)) && n < |st.order|
    ensures (exists t :: Enumerable(st, t) && st.order[n].id in PairingsOn(t)) <==>
            exists k :: n <= k < |st.order| && EndsBehind(st, k) && forall j :: 0 <= j <= k ==> StageFed(st, j)
  {
    hide Acyclic, Leaves, PassesBy, Paired, Setting.Inputs, Setting.Consistent, StageFed, EndsBehind, PairingsOn;
    InFirst(st, n, 0);
    if t: Path :| Enumerable(st, t) && st.order[n].id in PairingsOn(t) {
      if PassesBy(st.nodes, st.captures, t) {
        PassingRecordsNone(st, t);
      } else {
        var k: nat :| 0 <= k < |st.order| && Leaves(st, k, t);
        LeavesRecords(st, k, t);
        InFirst(st, n, k + 1);
        LeavesExactly(st, k);
        PairedExactly(st, k);
      }
    }
    if k: nat :| n <= k < |st.order| && EndsBehind(st, k) && forall j :: 0 <= j <= k ==> StageFed(st, j) {
      PairedExactly(st, k);
      LeavesExactly(st, k);
      var t :| Leaves(st, k, t);
      LeavesRecords(st, k, t);
      InFirst(st, n, k + 1);
      assert Enumerable(st, t);
    }
  }

  /** Without any assumption on cycles: a Pairing node on a path is reached from each one processed before it. */
  lemma PairingsAreChained(st: Setting, t: Path, n: nat, k: nat)
    requires st.Ok() && st.Consistent() && Enumerable(st, t) && 0 < k <= n < |st.order|
    requires st.order[n].id in PairingsOn(t)
    ensures Reaches(GraphOf(st.nodes), st.order[k - 1].id, st.order[k].id)
  {
    hide Enumerable, Setting.Consistent, Setting.Inputs, Paired, Reaches;
    PairingsFormPrefix(st, t);
    var m {:trigger RecordsFirst(st, t, m)} :| 0 <= m <= |st.order| && RecordsFirst(st, t, m);
    InFirst(st, n, m);
    var b {:trigger Paired(st, m - 1, b)} :| Paired(st, m - 1, b) && b <= t;
    PairedIsChained(st, k, m - 1, b);
  }

  lemma {:induction false} PairedIsChained(st: Setting, k: nat, n: nat, b: Path)
    requires st.Ok() && st.Consistent() && 0 < k <= n < |st.order| && Paired(st, n, b)
    ensures Reaches(GraphOf(st.nodes), st.order[k - 1].id, st.order[k].id)
    decreases n
  {
    hide Merge, Run, TakenTo, Setting.Consistent, Setting.Inputs, Reaches, Open;
    var p1, p2 {:trigger Merge(p1, p2)} :| Arrives(st, n, st.Inputs(n)[0], p1) && Arrives(st, n, st.Inputs(n)[1], p2)
                   && b == Merge(p1, p2) + [PairingStep(st.order[n].id, st.order[n].pairingType)];
    var f: Path :| Open(st, n, f) && TakenTo(st.nodes, f, st.Inputs(n)[0], p1);
    if k == n {
      OpenReaches(st, n, f);
    } else {
      var b', j, q := OpenFrom(st, n, f);
      PairedIsChained(st, k, n - 1, b');
    }
  }

  lemma OpenReaches(st: Setting, k: nat, f: Path)
    requires st.Ok() && st.Consistent() && 0 < k < |st.order| && Open(st, k, f)
    ensures Reaches(GraphOf(st.nodes), st.order[k - 1].id, st.order[k].id)
  {
    hide Run, Paired, Setting.Inputs, Walk, FinishingWalk;
    var g, pn := GraphOf(st.nodes), st.order[k - 1];
    var b, j, q := OpenFrom(st, k, f);
    RunIsNotEmpty(st.nodes, AROUND, pn.output[j], q);
    assert f[|f| - 1] == q[|q| - 1];
    var w := RunIsWalk(st.nodes, AROUND, pn.output[j], q);
    assert Walk(g, w) by { FinishingIsWalk(st.nodes, AROUND, w); }
    ReachesAlong(g, w, |w| - 1);
    assert Edge(g, pn.id, w[0]) && Edge(g, w[|w| - 1], st.order[k].id);
    EdgeReaches(g, pn.id, w[0]);
    EdgeReaches(g, w[|w| - 1], st.order[k].id);
    ReachesTransitive(g, pn.id, w[0], w[|w| - 1]);
    ReachesTransitive(g, pn.id, w[|w| - 1], st.order[k].id);
  }

  lemma FinishingIsWalk(nodes: Nodes, m: Mode, w: seq<NodeId>)
    requires FinishingWalk(nodes, m, w)
    ensures Walk(GraphOf(nodes), w)
  {
  }

  // ------------------------------------------------------------ the whole pipeline

  /** The same for a pipeline: when exactly a Pairing node of an acyclic pipeline is on one of its paths. */
  lemma PairingReachedExactly(p: PipelineConfig, n: nat)
    requires p.Valid() && p.pairingNodes != [] && TwoInputsEach(p) && Acyclic(p.Outputs()) && n < |ProcessingOrder(p)|
    ensures SettingOf(p).Ok()
    ensures (exists t :: PathOf(p, t) && ProcessingOrder(p)[n].id in PairingsOn(t)) <==>
            exists k :: n <= k < |ProcessingOrder(p)| && EndsBehind(SettingOf(p), k) &&
                        forall j :: 0 <= j <= k ==> StageFed(SettingOf(p), j)
  {
    hide Acyclic, Enumerable, ProcessingOrder, PairingsOn, TwoInputsEach;
    hide EndsBehind, StageFed, Setting.Ok, Setting.Consistent;
    SettingIsOk(p);
    SettingIsConsistent(p);
    GraphsAgree(p);
    PairingRecordedExactly(SettingOf(p), n);
  }

  /** From the pipeline to its paths: processed nearest first, each path records an initial segment of the Pairing
      nodes, each reached from the one before, and on an acyclic pipeline ends at a Termination. */
  lemma PathsOfPipeline(p: PipelineConfig, t: Path)
    requires p.Valid() && p.pairingNodes != [] && PathOf(p, t)
    ensures var order := ProcessingOrder(p);
            && multiset(order) == multiset(p.pairingNodes)
            && (exists k :: 0 <= k <= |order| && PairingsOn(t) == First(order, k) &&
                  forall i :: 0 < i < k ==> Reaches(p.Outputs(), order[i - 1].id, order[i].id))
            && (Acyclic(p.Outputs()) ==> Completed(t))
  {
    hide Acyclic, Enumerable, Setting.Consistent, ProcessingOrder, Reaches, Paired;
    var st, order := SettingOf(p), ProcessingOrder(p);
    ProcessingOrderMeans(p);
    SettingIsOk(p);
    SettingIsConsistent(p);
    GraphsAgree(p);
    PairingsFormPrefix(st, t);
    var k {:trigger RecordsFirst(st, t, k)} :| 0 <= k <= |order| && RecordsFirst(st, t, k);
    forall i | 0 < i < k ensures Reaches(p.Outputs(), order[i - 1].id, order[i].id) {
      InFirst(st, i, k);
      PairingsAreChained(st, t, i, i);
    }
    if Acyclic(p.Outputs()) { AcyclicPathsEnd(st, t); }
  }
}
