/** What holds of the enumeration as a whole: halting, path length, truncation, coverage. */
module EnumerationTheorems {
  import opened Walks
  import opened Pipelines
  import opened StructureValidators
  import opened Runs
  import opened SearchSteps
  import opened Enumeration

  function GraphOf(nodes: Nodes): Graph { map id | id in nodes :: nodes[id].output }

  function StepIds(s: Path): (r: seq<NodeId>)
    requires forall i :: 0 <= i < |s| ==> !s[i].Truncated?
    ensures |r| == |s| && forall i :: 0 <= i < |s| ==> r[i] == s[i].id
  {
    seq(|s|, i requires 0 <= i < |s| => s[i].id)
  }

  // ------------------------------------------------------------ chains are walks

  lemma ChainIsWalk(nodes: Nodes, m: Mode, start: NodeId, s: Path)
    requires Keyed(nodes) && Chain(nodes, m, start, s)
    ensures forall i :: 0 <= i < |s| ==> !s[i].Truncated? && s[i].id in nodes && Passes(m, nodes[s[i].id])
    ensures s != [] ==> Walk(GraphOf(nodes), StepIds(s)) && s[0].id == start
  {
    ChainReadStepwise(nodes, m, start, s);
    if s != [] {
      var w := StepIds(s);
      forall i | 0 <= i < |w| - 1 ensures Edge(GraphOf(nodes), w[i], w[i + 1]) {
        assert Follows(nodes, s[i], s[i + 1]);
      }
    }
  }

  lemma {:induction false} VisitedIsRecorded(s: Path, x: NodeId) returns (i: nat)
    requires Visits(s, x) > 0
    ensures i < |s| && !s[i].Truncated? && s[i].id == x
  {
    var e := s[|s| - 1];
    if Counted(e) && e.id == x {
      i := |s| - 1;
    } else {
      i := VisitedIsRecorded(s[..|s| - 1], x);
    }
  }

  /** On an acyclic graph no run is cut short. */
  lemma NoTruncation(nodes: Nodes, m: Mode, start: NodeId, t: Path)
    requires Keyed(nodes) && Acyclic(GraphOf(nodes)) && Run(nodes, m, start, t)
    ensures !t[|t| - 1].Truncated?
  {
    if t[|t| - 1].Truncated? {
      var s := t[..|t| - 1];
      var x :| CutAt(nodes, start, s, x);
      var i := VisitedIsRecorded(s, x);
      ChainIsWalk(nodes, m, start, s);
      var w := StepIds(s);
      assert Edge(GraphOf(nodes), w[|w| - 1], x);
      Slice(GraphOf(nodes), w, i, |w|);
      Concat(GraphOf(nodes), w[i..], [w[|w| - 1], x]);
      assert Closed(GraphOf(nodes), w[i..] + [w[|w| - 1], x][1..]);
    }
  }

  /** The steps a walk through passable nodes is recorded as, taking each Process's first method. */
  function Record(nodes: Nodes, w: seq<NodeId>): (s: Path)
    requires forall i :: 0 <= i < |w| ==> w[i] in nodes
    ensures |s| == |w| && forall i :: 0 <= i < |w| ==> Emits(nodes[w[i]], s[i]) && !s[i].Truncated?
  {
    seq(|w|, i requires 0 <= i < |w| => FirstRecord(nodes[w[i]]))
  }

  function FirstRecord(n: Node): (e: Entry)
    ensures Emits(n, e) && !e.Truncated?
  {
    if n.ManyMethods() then ProcessStep(n.id, n.methodIds[0]) else NodeInfo(n)
  }

  lemma RecordIds(nodes: Nodes, w: seq<NodeId>)
    requires Keyed(nodes) && forall i :: 0 <= i < |w| ==> w[i] in nodes
    ensures forall i :: 0 <= i < |w| ==> Record(nodes, w)[i].id == w[i]
  {
    hide Emits;
    forall i | 0 <= i < |w| ensures Record(nodes, w)[i].id == w[i] { EmittedIds(nodes[w[i]], Record(nodes, w)[i]); }
  }

  /** The last step of a walk through passable nodes may follow the steps before it. */
  lemma LastStepFollows(nodes: Nodes, m: Mode, w: seq<NodeId>)
    requires Keyed(nodes) && Acyclic(GraphOf(nodes)) && Walk(GraphOf(nodes), w)
    ensures var s, n := Record(nodes, w), |w| - 1;
            Next(nodes, w[0], s[..n], s[n].id) && Room(nodes, s[..n], s[n].id)
  {
    hide Acyclic, Emits, Visits;
    RecordIds(nodes, w);
    NotVisitedBefore(nodes, w);
    if |w| > 1 { assert Edge(GraphOf(nodes), w[|w| - 2], w[|w| - 1]); }
  }

  lemma {:induction false} WalkMakesChain(nodes: Nodes, m: Mode, w: seq<NodeId>)
    requires Keyed(nodes) && Acyclic(GraphOf(nodes)) && Walk(GraphOf(nodes), w)
    requires forall i :: 0 <= i < |w| ==> Passes(m, nodes[w[i]])
    ensures Chain(nodes, m, w[0], Record(nodes, w))
  {
    hide Acyclic, Passes, Emits, Chain, Next, Room;
    var s, r := Record(nodes, w), w[..|w| - 1];
    RecordIds(nodes, w);
    LastStepFollows(nodes, m, w);
    if |w| == 1 {
      EmptyChain(nodes, m, w[0]);
      assert s[..0] == [];
    } else {
      Slice(GraphOf(nodes), w, 0, |w| - 1);
      WalkMakesChain(nodes, m, r);
      assert s[..|s| - 1] == Record(nodes, r);
    }
    assert s == s[..|s| - 1] + [s[|s| - 1]];
    ChainAppend(nodes, m, w[0], s[..|s| - 1], s[|s| - 1]);
  }

  lemma NotVisitedBefore(nodes: Nodes, w: seq<NodeId>)
    requires Keyed(nodes) && Acyclic(GraphOf(nodes)) && Walk(GraphOf(nodes), w)
    ensures Visits(Record(nodes, w)[..|w| - 1], w[|w| - 1]) == 0
  {
    hide Visits, Emits;
    var s, x := Record(nodes, w)[..|w| - 1], w[|w| - 1];
    if Visits(s, x) > 0 {
      var i := VisitedIsRecorded(s, x);
      assert w[i] == x;
      RepeatCloses(GraphOf(nodes), w, i, |w| - 1);
    }
  }

  // ------------------------------------------------------------ coverage

  ghost predicate Mentions(t: Path, v: NodeId) { exists i :: 0 <= i < |t| && !t[i].Truncated? && t[i].id == v }

  /** A path that ends at a Termination, not at a truncation marker. */
  predicate Completed(t: Path) { t != [] && t[|t| - 1].EndStep? }

  /** Some complete path from a Capture records a visit to `v`. */
  ghost predicate Covered(p: PipelineConfig, v: NodeId)
    requires p.UniqueIds()
  {
    exists t :: FromCapture(p.Lookup(), ALL, p.captureNodes, t) && Completed(t) && Mentions(t, v)
  }

  /** A walk that meets a Termination at its end at most. */
  ghost predicate Unended(nodes: Nodes, w: seq<NodeId>) {
    forall i :: 0 <= i < |w| - 1 ==> w[i] in nodes && !nodes[w[i]].Termination?
  }

  ghost predicate ReachedUnended(p: PipelineConfig, v: NodeId)
    requires p.UniqueIds()
  {
    exists a, w :: a in CaptureIds(p) && WalkFrom(p.Outputs(), a, v, w) && Unended(p.Lookup(), w)
  }

  lemma GraphsAgree(p: PipelineConfig)
    requires p.UniqueIds()
    ensures GraphOf(p.Lookup()) == p.Outputs()
  {
    forall id | id in p.Lookup() ensures GraphOf(p.Lookup())[id] == p.Outputs()[id] {
      assert p.Lookup()[id] in p.nodes;
    }
  }

  lemma SubgraphIsAcyclic(nodes: Nodes, m: Mode)
    requires Acyclic(GraphOf(nodes))
    ensures Acyclic(FreeGraph(nodes, m))
  {
    forall w ensures !Closed(FreeGraph(nodes, m), w) {
      if Closed(FreeGraph(nodes, m), w) {
        forall i | 0 <= i < |w| - 1 ensures Edge(GraphOf(nodes), w[i], w[i + 1]) {
          assert Edge(FreeGraph(nodes, m), w[i], w[i + 1]);
        }
        assert Closed(GraphOf(nodes), w);
      }
    }
  }

  /** The part of a walk up to its first Termination. */
  lemma {:induction false} FirstTermination(nodes: Nodes, w: seq<NodeId>) returns (k: nat)
    requires Walk(GraphOf(nodes), w) && nodes[w[|w| - 1]].Termination?
    ensures k < |w| && nodes[w[k]].Termination? && Unended(nodes, w[..k + 1])
  {
    if nodes[w[0]].Termination? {
      k := 0;
    } else {
      Slice(GraphOf(nodes), w, 1, |w|);
      var k' := FirstTermination(nodes, w[1..]);
      k := k' + 1;
      forall i | 0 <= i < k ensures !nodes[w[i]].Termination? {
        if i > 0 { assert w[i] == w[1..][..k' + 1][i - 1]; }
      }
    }
  }

  lemma CaptureIdIsCapture(p: PipelineConfig, a: NodeId) returns (i: nat)
    requires p.Valid() && a in CaptureIds(p)
    ensures i < |p.captureNodes| && p.captureNodes[i].id == a && a in p.Lookup() && p.Lookup()[a].Capture?
  {
    i :| 0 <= i < |p.captureNodes| && CaptureIds(p)[i] == a;
    assert p.captureNodes[i] in p.captureNodes;
  }

  lemma TerminationIdIsTermination(p: PipelineConfig, e: NodeId)
    requires p.Valid() && e in TerminationIds(p)
    ensures e in p.Lookup() && p.Lookup()[e].Termination?
  {
    var i :| 0 <= i < |p.terminationNodes| && TerminationIds(p)[i] == e;
    assert p.terminationNodes[i] in p.terminationNodes;
  }

  lemma NoPairingAnywhere(p: PipelineConfig, id: NodeId)
    requires p.Valid() && p.pairingNodes == [] && id in p.Lookup()
    ensures !p.Lookup()[id].Pairing?
  {
    assert p.Lookup()[id] !in p.pairingNodes;
  }

  /** A walk from a Capture to its first Termination is enumerated. */
  lemma WalkToEndIsRun(p: PipelineConfig, a: NodeId, w: seq<NodeId>)
    requires p.Valid() && p.pairingNodes == [] && Acyclic(p.Outputs())
    requires a in CaptureIds(p) && Walk(p.Outputs(), w) && w[0] == a
    requires Unended(p.Lookup(), w) && p.Lookup()[w[|w| - 1]].Termination?
    ensures FromCapture(p.Lookup(), ALL, p.captureNodes, Record(p.Lookup(), w))
  {
    hide Acyclic, Categorize;
    var i := CaptureIdIsCapture(p, a);
    GraphsAgree(p);
    forall k | 0 <= k < |w| ensures !p.Lookup()[w[k]].Pairing? { NoPairingAnywhere(p, w[k]); }
    FinishingWalkIsRun(p.Lookup(), ALL, w);
  }

  /** A walk a search in mode `m` would take from its first node to its last, and finish there. */
  ghost predicate FinishingWalk(nodes: Nodes, m: Mode, w: seq<NodeId>) {
    && Walk(GraphOf(nodes), w)
    && (forall k :: 0 <= k < |w| - 1 ==> Passes(m, nodes[w[k]]))
    && (Ends(m, nodes[w[|w| - 1]]) || StopsBeforePairing(nodes, m, nodes[w[|w| - 1]]))
  }

  /** On an acyclic pipeline the visit limit never bites: what a search finds is what finishing walks there are. */
  lemma FinishingWalkIsRun(nodes: Nodes, m: Mode, w: seq<NodeId>)
    requires Keyed(nodes) && Acyclic(GraphOf(nodes)) && FinishingWalk(nodes, m, w)
    ensures Run(nodes, m, w[0], Record(nodes, w))
  {
    hide Acyclic, Chain, Passes, Ends, StopsBeforePairing, Emits, Next, Room, Edge;
    var r, t := w[..|w| - 1], Record(nodes, w);
    assert t[..|t| - 1] == Record(nodes, r);
    RecordIds(nodes, w);
    LastStepFollows(nodes, m, w);
    if r == [] {
      EmptyChain(nodes, m, w[0]);
      assert Record(nodes, r) == [];
    } else {
      Slice(GraphOf(nodes), w, 0, |w| - 1);
      WalkMakesChain(nodes, m, r);
    }
  }

  /** The ids a run visits, its last entry included, make a finishing walk. */
  lemma RunIsWalk(nodes: Nodes, m: Mode, c: NodeId, t: Path) returns (w: seq<NodeId>)
    requires Keyed(nodes) && Run(nodes, m, c, t) && !t[|t| - 1].Truncated?
    ensures FinishingWalk(nodes, m, w) && |w| == |t| && w[0] == c && w[|t| - 1] == t[|t| - 1].id
    ensures forall k :: 0 <= k < |t| ==> !t[k].Truncated? && t[k].id == w[k] && w[k] in nodes
  {
    hide Chain, Visits, Passes, Ends, StopsBeforePairing;
    var s, e := t[..|t| - 1], t[|t| - 1];
    ChainIsWalk(nodes, m, c, s);
    w := [e.id];
    if s != [] {
      assert Edge(GraphOf(nodes), StepIds(s)[|s| - 1], e.id);
      Concat(GraphOf(nodes), StepIds(s), [StepIds(s)[|s| - 1], e.id]);
      w := StepIds(s) + [StepIds(s)[|s| - 1], e.id][1..];
    }
  }

  lemma RunPrefixIsWalk(p: PipelineConfig, start: NodeId, t: Path, k: nat)
    requires p.UniqueIds() && Run(p.Lookup(), ALL, start, t) && k < |t| && !t[k].Truncated?
    ensures exists w :: WalkFrom(p.Outputs(), start, t[k].id, w) && Unended(p.Lookup(), w)
  {
    hide Run, PipelineConfig.UniqueIds;
    GraphsAgree(p);
    var w := WalkToStep(p.Lookup(), start, t, k);
    assert WalkFrom(p.Outputs(), start, t[k].id, w);
  }

  lemma WalkToStep(nodes: Nodes, start: NodeId, t: Path, k: nat) returns (w: seq<NodeId>)
    requires Keyed(nodes) && Run(nodes, ALL, start, t) && k < |t| && !t[k].Truncated?
    ensures WalkFrom(GraphOf(nodes), start, t[k].id, w) && Unended(nodes, w)
  {
    hide Chain, Visits;
    var s := t[..|t| - 1];
    ChainIsWalk(nodes, ALL, start, s);
    if k < |s| {
      Slice(GraphOf(nodes), StepIds(s), 0, k + 1);
      w := StepIds(s)[..k + 1];
    } else if s == [] {
      w := [start];
    } else {
      var last := StepIds(s)[|s| - 1];
      assert Edge(GraphOf(nodes), last, t[k].id);
      Concat(GraphOf(nodes), StepIds(s), [last, t[k].id]);
      w := StepIds(s) + [last, t[k].id][1..];
    }
  }

  /** Exactly which nodes occur on enumerated paths: those reached without passing through a Termination. */
  lemma CoverageExactly(p: PipelineConfig, v: NodeId)
    requires p.Valid() && p.pairingNodes == [] && Acyclic(p.Outputs())
    requires v in p.Ids() && LeadsToAny(p.Outputs(), v, TerminationIds(p))
    ensures Covered(p, v) <==> ReachedUnended(p, v)
  {
    hide Acyclic, LeadsToAny, Covered, ReachedUnended, Categorize;
    if Covered(p, v) { CoveredIsReached(p, v); }
    if ReachedUnended(p, v) { ReachedIsCovered(p, v); }
  }

  lemma CoveredIsReached(p: PipelineConfig, v: NodeId)
    requires p.UniqueIds() && Covered(p, v)
    ensures ReachedUnended(p, v)
  {
    hide Run;
    var t: Path :| FromCapture(p.Lookup(), ALL, p.captureNodes, t) && Completed(t) && Mentions(t, v);
    var i :| 0 <= i < |p.captureNodes| && Run(p.Lookup(), ALL, p.captureNodes[i].id, t);
    var k :| 0 <= k < |t| && !t[k].Truncated? && t[k].id == v;
    RunPrefixIsWalk(p, p.captureNodes[i].id, t, k);
    assert CaptureIds(p)[i] in CaptureIds(p);
  }

  lemma ReachedIsCovered(p: PipelineConfig, v: NodeId)
    requires p.Valid() && p.pairingNodes == [] && Acyclic(p.Outputs())
    requires LeadsToAny(p.Outputs(), v, TerminationIds(p)) && ReachedUnended(p, v)
    ensures Covered(p, v)
  {
    hide Acyclic, Categorize, PipelineConfig.UniqueIds, Unended, Covered;
    var a, w :| a in CaptureIds(p) && WalkFrom(p.Outputs(), a, v, w) && Unended(p.Lookup(), w);
    var e :| e in TerminationIds(p) && Reaches(p.Outputs(), v, e);
    var w2 :| WalkFrom(p.Outputs(), v, e, w2);
    TerminationIdIsTermination(p, e);
    WalksMeetOnRun(p, a, w, w2);
  }

  lemma WalksMeetOnRun(p: PipelineConfig, a: NodeId, w: seq<NodeId>, w2: seq<NodeId>)
    requires p.Valid() && p.pairingNodes == [] && Acyclic(p.Outputs()) && a in CaptureIds(p)
    requires Walk(p.Outputs(), w) && w[0] == a && Unended(p.Lookup(), w)
    requires Walk(p.Outputs(), w2) && w2[0] == w[|w| - 1] && p.Lookup()[w2[|w2| - 1]].Termination?
    ensures Covered(p, w[|w| - 1])
  {
    hide Acyclic, Categorize, PipelineConfig.UniqueIds, FromCapture;
    var nodes := p.Lookup();
    GraphsAgree(p);
    var u := ToFirstEnd(nodes, w, w2);
    WalkToEndIsRun(p, a, u);
    var t := Record(nodes, u);
    assert t[|w| - 1].id == w[|w| - 1];
    assert Completed(t) && Mentions(t, w[|w| - 1]);
  }

  /** Extending an unended walk up to the next Termination on another walk. */
  lemma ToFirstEnd(nodes: Nodes, w: seq<NodeId>, w2: seq<NodeId>) returns (u: seq<NodeId>)
    requires Walk(GraphOf(nodes), w) && Unended(nodes, w)
    requires Walk(GraphOf(nodes), w2) && w2[0] == w[|w| - 1] && nodes[w2[|w2| - 1]].Termination?
    ensures Walk(GraphOf(nodes), u) && Unended(nodes, u) && nodes[u[|u| - 1]].Termination?
    ensures w <= u
  {
    var k := FirstTermination(nodes, w2);
    var rest := w2[..k + 1];
    Slice(GraphOf(nodes), w2, 0, k + 1);
    Concat(GraphOf(nodes), w, rest);
    u := w + rest[1..];
    forall i | 0 <= i < |u| - 1 ensures u[i] in nodes && !nodes[u[i]].Termination? {
      if i >= |w| - 1 { assert u[i] == rest[i - |w| + 1]; }
    }
  }

  /** With nothing after a Termination, every walk is unended. */
  lemma {:induction false} FinalTerminations(p: PipelineConfig, w: seq<NodeId>)
    requires p.UniqueIds() && Walk(p.Outputs(), w)
    requires forall n :: n in p.terminationNodes ==> n.output == []
    requires p.Valid()
    ensures Unended(p.Lookup(), w)
  {
    forall i | 0 <= i < |w| - 1 ensures !p.Lookup()[w[i]].Termination? {
      assert Edge(p.Outputs(), w[i], w[i + 1]);
      assert p.Lookup()[w[i]] in p.nodes;
    }
  }

  /** A pipeline the structure checker passes is enumerated without truncation, and every node is on some path. */
  lemma CleanPipelineIsFullyEnumerated(p: PipelineConfig)
    requires p.Valid() && p.pairingNodes == []
    requires forall n :: n in p.terminationNodes ==> n.output == []
    requires CycleReport(p) + OrphanReport(p) + DeadEndReport(p) == []
    ensures Acyclic(FreeGraph(p.Lookup(), ALL))
    ensures forall t :: FromCapture(p.Lookup(), ALL, p.captureNodes, t) ==> Completed(t)
    ensures forall v {:trigger Covered(p, v)} :: v in p.Ids() ==> Covered(p, v)
  {
    hide CycleReport, OrphanReport, DeadEndReport, FreeGraph, Acyclic, ReachedFromAny, LeadsToAny, Covered, Run;
    CleanGraph(p);
    GraphsAgree(p);
    SubgraphIsAcyclic(p.Lookup(), ALL);
    forall t | FromCapture(p.Lookup(), ALL, p.captureNodes, t) ensures Completed(t) {
      var i :| 0 <= i < |p.captureNodes| && Run(p.Lookup(), ALL, p.captureNodes[i].id, t);
      CleanRunEnds(p, p.captureNodes[i].id, t);
    }
    forall v | v in p.Ids() ensures Covered(p, v) { CleanNodeIsCovered(p, v); }
  }

  lemma CleanRunEnds(p: PipelineConfig, start: NodeId, t: Path)
    requires p.Valid() && p.pairingNodes == [] && Acyclic(p.Outputs()) && Run(p.Lookup(), ALL, start, t)
    ensures Completed(t)
  {
    hide Acyclic, Categorize, Chain, Next, Visits, PipelineConfig.UniqueIds;
    GraphsAgree(p);
    NoTruncation(p.Lookup(), ALL, start, t);
    NoPairingAnywhere(p, t[|t| - 1].id);
  }

  lemma CleanNodeIsCovered(p: PipelineConfig, v: NodeId)
    requires p.Valid() && p.pairingNodes == [] && Acyclic(p.Outputs()) && v in p.Ids()
    requires forall n :: n in p.terminationNodes ==> n.output == []
    requires ReachedFromAny(p.Outputs(), CaptureIds(p), v) && LeadsToAny(p.Outputs(), v, TerminationIds(p))
    ensures Covered(p, v)
  {
    var a :| a in CaptureIds(p) && Reaches(p.Outputs(), a, v);
    var w :| WalkFrom(p.Outputs(), a, v, w);
    FinalTerminations(p, w);
    assert ReachedUnended(p, v);
    CoverageExactly(p, v);
  }

  // ------------------------------------------------------------ halting and path length

  /** Chains from `start` never get longer than `bound`: the search below `start` has finite depth. */
  ghost predicate DepthBounded(nodes: Nodes, m: Mode, start: NodeId, bound: nat) {
    forall s :: Chain(nodes, m, start, s) ==> |s| <= bound
  }

  lemma {:induction false} ChainLength(nodes: Nodes, m: Mode, start: NodeId, s: Path)
    requires Keyed(nodes) && Acyclic(FreeGraph(nodes, m)) && Chain(nodes, m, start, s)
    ensures |s| <= Spent(nodes, s) * (|FreeGraph(nodes, m)| + 1) + |TrailingFree(s)|
  {
    hide Acyclic, FreeGraph, VisitsIn, Visits;
    if s == [] {
      EmptyChainSpends(nodes, m, start);
    } else {
      var r, e := s[..|s| - 1], s[|s| - 1];
      ChainLength(nodes, m, start, r);
      MeasureIsNatural(nodes, m, start, r);
      assert r + [e] == s;
      MeasureDrops(nodes, m, start, r, e);
      if Counted(e) { OneMore(Spent(nodes, r), |FreeGraph(nodes, m)| + 1); }
    }
  }

  lemma OneMore(a: int, b: int)
    ensures (a + 1) * b == a * b + b
  {
  }

  /** Going round a closed walk as often as needed. */
  lemma {:induction false} Lasso(g: Graph, loop: seq<NodeId>, n: nat) returns (w: seq<NodeId>)
    requires Closed(g, loop)
    ensures Walk(g, w) && w[0] == loop[0] == w[|w| - 1] && |w| > n
  {
    if n == 0 {
      w := loop;
    } else {
      var v := Lasso(g, loop, n - 1);
      Concat(g, v, loop);
      w := v + loop[1..];
    }
  }

  /** A walk through uncounted nodes is a chain, whatever it repeats. */
  lemma {:induction false} FreeWalkIsChain(nodes: Nodes, m: Mode, w: seq<NodeId>)
    requires Keyed(nodes) && Walk(FreeGraph(nodes, m), w)
    ensures forall i :: 0 <= i < |w| ==> w[i] in nodes
    ensures Chain(nodes, m, w[0], Record(nodes, w))
  {
    hide Emits;
    var s := Record(nodes, w);
    assert w[|w| - 1] in FreeGraph(nodes, m);
    assert Visit(nodes, m, s[|s| - 1]) && Room(nodes, s[..|s| - 1], s[|s| - 1].id);
    if |w| == 1 {
      assert s == [] + [s[0]];
      ChainAppend(nodes, m, w[0], [], s[0]);
    } else {
      Slice(FreeGraph(nodes, m), w, 0, |w| - 1);
      FreeWalkIsChain(nodes, m, w[..|w| - 1]);
      assert s[..|s| - 1] == Record(nodes, w[..|w| - 1]);
      assert Edge(FreeGraph(nodes, m), w[|w| - 2], w[|w| - 1]);
    }
  }

  lemma AcyclicIsBounded(nodes: Nodes, m: Mode, start: NodeId) returns (bound: nat)
    requires Keyed(nodes) && Acyclic(FreeGraph(nodes, m))
    ensures DepthBounded(nodes, m, start, bound)
  {
    hide Acyclic, Chain, Spent, Budget;
    var f := |FreeGraph(nodes, m)|;
    EmptyChainSpends(nodes, m, start);
    SpentWithinBudget(nodes, m, start, []);
    bound := Budget(nodes) * (f + 1) + f;
    forall s | Chain(nodes, m, start, s) ensures |s| <= bound {
      ChainLength(nodes, m, start, s);
      SpentWithinBudget(nodes, m, start, s);
      assert Spent(nodes, s) * (f + 1) <= Budget(nodes) * (f + 1);
    }
  }

  lemma EmptyChainSpends(nodes: Nodes, m: Mode, start: NodeId)
    ensures Chain(nodes, m, start, []) && Spent(nodes, []) == 0
  {
  }

  lemma SpentWithinBudget(nodes: Nodes, m: Mode, start: NodeId, s: Path)
    requires Keyed(nodes) && Acyclic(FreeGraph(nodes, m)) && Chain(nodes, m, start, s)
    ensures Spent(nodes, s) <= Budget(nodes) && |TrailingFree(s)| <= |FreeGraph(nodes, m)|
  {
    MeasureIsNatural(nodes, m, start, s);
  }

  lemma CycleIsUnbounded(nodes: Nodes, m: Mode, loop: seq<NodeId>, bound: nat)
    requires Keyed(nodes) && Closed(FreeGraph(nodes, m), loop)
    ensures !DepthBounded(nodes, m, loop[0], bound)
  {
    var w := Lasso(FreeGraph(nodes, m), loop, bound);
    FreeWalkIsChain(nodes, m, w);
  }

  /** The enumeration has finite depth from every Capture exactly when no cycle consists of Captures only. */
  lemma HaltsExactly(nodes: Nodes)
    requires Keyed(nodes)
    ensures (forall c :: c in nodes && nodes[c].Capture? ==> exists bound :: DepthBounded(nodes, ALL, c, bound))
            <==> Acyclic(FreeGraph(nodes, ALL))
  {
    hide DepthBounded;
    if Acyclic(FreeGraph(nodes, ALL)) {
      forall c | c in nodes ensures exists bound :: DepthBounded(nodes, ALL, c, bound) {
        var bound := AcyclicIsBounded(nodes, ALL, c);
      }
    } else {
      var loop :| Closed(FreeGraph(nodes, ALL), loop);
      assert nodes[loop[0]].Capture?;
      forall bound: nat ensures !DepthBounded(nodes, ALL, loop[0], bound) { CycleIsUnbounded(nodes, ALL, loop, bound); }
    }
  }

  ghost predicate NothingLeadsToACapture(nodes: Nodes) {
    forall u, v :: Edge(GraphOf(nodes), u, v) ==> !nodes[v].Capture?
  }

  lemma {:induction false} OnlyTheFirstStepIsUncounted(nodes: Nodes, start: NodeId, s: Path)
    requires Keyed(nodes) && NothingLeadsToACapture(nodes) && Chain(nodes, ALL, start, s)
    ensures |s| <= Spent(nodes, s) + 1
  {
    if |s| > 1 {
      var r, e := s[..|s| - 1], s[|s| - 1];
      OnlyTheFirstStepIsUncounted(nodes, start, r);
      assert r + [e] == s;
      ChainIsWalk(nodes, ALL, start, s);
      assert Edge(GraphOf(nodes), StepIds(s)[|s| - 2], StepIds(s)[|s| - 1]);
      assert e.id in LimitedIds(nodes);
    }
  }

  /** With no edge into a Capture: the enumeration halts, and a path has at most 5 L + 2 entries. */
  lemma PathLengthBound(nodes: Nodes, start: NodeId, t: Path)
    requires Keyed(nodes) && NothingLeadsToACapture(nodes)
    ensures Acyclic(FreeGraph(nodes, ALL))
    ensures Run(nodes, ALL, start, t) ==> |t| <= MAX_ITERATIONS * |LimitedIds(nodes)| + 2
  {
    forall w ensures !Closed(FreeGraph(nodes, ALL), w) {
      if Closed(FreeGraph(nodes, ALL), w) {
        assert Edge(FreeGraph(nodes, ALL), w[0], w[1]);
        assert Edge(GraphOf(nodes), w[0], w[1]);
      }
    }
    if Run(nodes, ALL, start, t) {
      OnlyTheFirstStepIsUncounted(nodes, start, t[..|t| - 1]);
      MeasureIsNatural(nodes, ALL, start, t[..|t| - 1]);
    }
  }
}
