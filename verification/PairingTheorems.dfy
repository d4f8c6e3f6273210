/** The Pairing enumeration on acyclic pipelines whose every way to a Termination leads through the Pairing node. */
module PairingTheorems {
  import opened Sorting
  import opened Walks
  import opened Pipelines
  import opened StructureValidators
  import opened PairingOrder
  import opened Runs
  import opened Merging
  import opened Enumeration
  import opened EnumerationTheorems
  import opened PairingPieces
  import opened PairingEnumeration
  import opened PairingStages

  /** Every walk from a Capture to a Termination visits `v`. */
  ghost predicate NoWayAround(p: PipelineConfig, v: NodeId)
    requires p.UniqueIds()
  {
    forall w {:trigger Walk(p.Outputs(), w)} ::
      Walk(p.Outputs(), w) && w[0] in CaptureIds(p) && p.Lookup()[w[|w| - 1]].Termination? ==> v in w
  }

  /** A run from the Capture `c` to `v`: no Termination and no Pairing node on it, one method per Process visit. */
  ghost predicate ReachRun(nodes: Nodes, c: NodeId, v: NodeId, t: Path) {
    t != [] && Chain(nodes, AROUND, c, t) && t[|t| - 1].id == v
  }

  ghost predicate ReachedBy(nodes: Nodes, captures: seq<Node>, v: NodeId, t: Path) {
    exists i :: 0 <= i < |captures| && ReachRun(nodes, captures[i].id, v, t)
  }

  /** Only the nodes' passability depends on the mode of a chain. */
  lemma {:induction false} ChainInOtherMode(nodes: Nodes, m: Mode, m': Mode, start: NodeId, s: Path)
    requires Chain(nodes, m, start, s)
    requires forall i :: 0 <= i < |s| && !s[i].Truncated? && s[i].id in nodes ==> Passes(m', nodes[s[i].id])
    ensures Chain(nodes, m', start, s)
  {
    if s != [] {
      ChainInOtherMode(nodes, m, m', start, s[..|s| - 1]);
      assert s[|s| - 1].id in nodes;
    }
  }

  /** A chain that turned back at Pairing nodes cannot go on to a Termination. */
  lemma NoEndBeforePairing(p: PipelineConfig, pn: Node, c: NodeId, m: Mode, t: Path)
    requires p.Valid() && p.pairingNodes == [pn] && NoWayAround(p, pn.id)
    requires c in CaptureIds(p) && m.policy == TurnBack && Run(p.Lookup(), m, c, t) && !t[|t| - 1].Truncated?
    ensures !p.Lookup()[t[|t| - 1].id].Termination?
  {
    hide Run, Categorize;
    var w := RunIsWalk(p.Lookup(), m, c, t);
    GraphsAgree(p);
    PairingIsPairing(p, pn);
  }

  lemma PairingIsPairing(p: PipelineConfig, pn: Node)
    requires p.Valid() && p.pairingNodes == [pn]
    ensures pn.Pairing? && pn.id in p.Lookup() && p.Lookup()[pn.id] == pn
    ensures forall id :: id in p.Lookup() && p.Lookup()[id].Pairing? ==> id == pn.id
  {
    assert pn in p.pairingNodes;
    forall id | id in p.Lookup() && p.Lookup()[id].Pairing? ensures id == pn.id {
      assert p.Lookup()[id] in p.pairingNodes;
    }
  }

  /** What the search towards one input finds: nothing if it is a Process with several methods, else every run to it. */
  lemma TowardsExactly(p: PipelineConfig, pn: Node, i: nat, v: NodeId, t: Path)
    requires p.Valid() && p.pairingNodes == [pn] && Acyclic(p.Outputs()) && NoWayAround(p, pn.id)
    requires i < |p.captureNodes| && v in p.Lookup() && !p.Lookup()[v].Pairing?
    ensures Run(p.Lookup(), Towards(v), p.captureNodes[i].id, t) <==>
            !p.Lookup()[v].ManyMethods() && ReachRun(p.Lookup(), p.captureNodes[i].id, v, t)
  {
    hide NoWayAround, Acyclic, Categorize, Run, ReachRun;
    var nodes, c := p.Lookup(), p.captureNodes[i].id;
    assert CaptureIds(p)[i] in CaptureIds(p);
    GraphsAgree(p);
    if Run(nodes, Towards(v), c, t) {
      NoTruncation(nodes, Towards(v), c, t);
      NoEndBeforePairing(p, pn, c, Towards(v), t);
      RunTowardsReaches(nodes, c, v, t);
    }
    if !nodes[v].ManyMethods() && ReachRun(nodes, c, v, t) { ReachRunIsFound(nodes, c, v, t); }
  }

  lemma RunTowardsReaches(nodes: Nodes, c: NodeId, v: NodeId, t: Path)
    requires Keyed(nodes) && Run(nodes, Towards(v), c, t) && !t[|t| - 1].Truncated?
    requires !nodes[t[|t| - 1].id].Termination? && v in nodes && !nodes[v].Pairing?
    ensures !nodes[v].ManyMethods() && ReachRun(nodes, c, v, t)
  {
    var s, e := t[..|t| - 1], t[|t| - 1];
    ChainIsWalk(nodes, Towards(v), c, s);
    ChainInOtherMode(nodes, Towards(v), AROUND, c, s);
    assert t == s + [e];
    ChainAppend(nodes, AROUND, c, s, e);
  }

  lemma ReachRunIsFound(nodes: Nodes, c: NodeId, v: NodeId, t: Path)
    requires Keyed(nodes) && Acyclic(GraphOf(nodes)) && ReachRun(nodes, c, v, t)
    requires v in nodes && !nodes[v].ManyMethods()
    ensures Run(nodes, Towards(v), c, t)
  {
    var s, e := t[..|t| - 1], t[|t| - 1];
    ChainIsWalk(nodes, AROUND, c, t);
    AcyclicWalkDistinct(GraphOf(nodes), StepIds(t));
    forall k | 0 <= k < |s| ensures Passes(Towards(v), nodes[s[k].id]) {
      assert StepIds(t)[k] != StepIds(t)[|t| - 1];
      assert Passes(AROUND, nodes[t[k].id]);
    }
    ChainInOtherMode(nodes, AROUND, Towards(v), c, s);
    assert Passes(AROUND, nodes[e.id]);
  }

  lemma ReachedExactly(p: PipelineConfig, pn: Node, v: NodeId, t: Path)
    requires p.Valid() && p.pairingNodes == [pn] && Acyclic(p.Outputs()) && NoWayAround(p, pn.id)
    requires v in p.Lookup() && !p.Lookup()[v].Pairing?
    ensures FromCapture(p.Lookup(), Towards(v), p.captureNodes, t) <==>
            !p.Lookup()[v].ManyMethods() && ReachedBy(p.Lookup(), p.captureNodes, v, t)
  {
    hide NoWayAround, Acyclic, Categorize, Run, ReachRun;
    forall i | 0 <= i < |p.captureNodes|
      ensures Run(p.Lookup(), Towards(v), p.captureNodes[i].id, t) <==>
              !p.Lookup()[v].ManyMethods() && ReachRun(p.Lookup(), p.captureNodes[i].id, v, t)
    {
      TowardsExactly(p, pn, i, v, t);
    }
  }

  lemma EndsAtTermination(nodes: Nodes, m: Mode, start: NodeId, t: Path)
    requires Run(nodes, m, start, t) && !t[|t| - 1].Truncated? && LooksEnded(t)
    ensures t[|t| - 1].id in nodes && nodes[t[|t| - 1].id].Termination?
  {
    hide Chain, Next, Visits, Ends, StopsBeforePairing;
  }

  lemma NothingPassesBy(p: PipelineConfig, pn: Node, t: Path)
    requires p.Valid() && p.pairingNodes == [pn] && Acyclic(p.Outputs()) && NoWayAround(p, pn.id)
    ensures !PassesBy(p.Lookup(), p.captureNodes, t)
  {
    hide NoWayAround, Acyclic, Categorize, Run, PipelineConfig.UniqueIds;
    if PassesBy(p.Lookup(), p.captureNodes, t) {
      var i :| 0 <= i < |p.captureNodes| && Run(p.Lookup(), AROUND, p.captureNodes[i].id, t);
      assert CaptureIds(p)[i] in CaptureIds(p);
      GraphsAgree(p);
      NoTruncation(p.Lookup(), AROUND, p.captureNodes[i].id, t);
      EndsAtTermination(p.Lookup(), AROUND, p.captureNodes[i].id, t);
      NoEndBeforePairing(p, pn, p.captureNodes[i].id, AROUND, t);
    }
  }

  /** Beyond the Pairing node every run is complete. */
  lemma OnwardRunsComplete(nodes: Nodes, start: NodeId, q: Path)
    requires Keyed(nodes) && Acyclic(GraphOf(nodes)) && Run(nodes, ONWARD, start, q)
    ensures Completed(q)
  {
    NoTruncation(nodes, ONWARD, start, q);
  }

  /** A Capture-to-input run for each input, merged, the Pairing step, and a run on to a Termination. */
  ghost predicate PairedRun(nodes: Nodes, captures: seq<Node>, in1: NodeId, in2: NodeId, pn: Node, t: Path)
    requires pn.Pairing?
  {
    exists p1, p2 :: ReachedBy(nodes, captures, in1, p1) && ReachedBy(nodes, captures, in2, p2) &&
                     OnToTheEnd(nodes, Merge(p1, p2) + [PairingStep(pn.id, pn.pairingType)], pn.output, t)
  }

  ghost predicate OnToTheEnd(nodes: Nodes, base: Path, ids: seq<NodeId>, t: Path) {
    exists k, q :: 0 <= k < |ids| && Run(nodes, ONWARD, ids[k], q) && Completed(q) && t == base + q
  }

  lemma OnwardIsToTheEnd(nodes: Nodes, base: Path, ids: seq<NodeId>, t: Path)
    requires Keyed(nodes) && Acyclic(GraphOf(nodes))
    ensures Onward(nodes, ONWARD, base, ids, t) <==> OnToTheEnd(nodes, base, ids, t)
  {
    hide Acyclic, Run;
    forall k, q | 0 <= k < |ids| && Run(nodes, ONWARD, ids[k], q) ensures Completed(q) {
      OnwardRunsComplete(nodes, ids[k], q);
    }
  }

  /** With one Pairing node there is one stage, and it starts from the Captures. */
  lemma OneStage(st: Setting, t: Path)
    requires st.Ok() && |st.order| == 1
    ensures Enumerable(st, t) <==>
            PassesBy(st.nodes, st.captures, t) ||
            exists p1, p2 {:trigger Merge(p1, p2)} ::
              && FromCapture(st.nodes, Towards(st.Inputs(0)[0]), st.captures, p1)
              && FromCapture(st.nodes, Towards(st.Inputs(0)[1]), st.captures, p2)
              && Onward(st.nodes, ONWARD, Merge(p1, p2) + [PairingStep(st.order[0].id, st.order[0].pairingType)],
                  st.order[0].output, t)
  {
    hide FromCapture, Onward, Merge, PassesBy, Setting.Inputs;
    var pn := st.order[0];
    if p1, p2 {:trigger Merge(p1, p2)} :|
         && FromCapture(st.nodes, Towards(st.Inputs(0)[0]), st.captures, p1)
         && FromCapture(st.nodes, Towards(st.Inputs(0)[1]), st.captures, p2)
         && Onward(st.nodes, ONWARD, Merge(p1, p2) + [PairingStep(pn.id, pn.pairingType)], pn.output, t)
    {
      assert Arrives(st, 0, st.Inputs(0)[0], p1) && Arrives(st, 0, st.Inputs(0)[1], p2);
      assert Paired(st, 0, Merge(p1, p2) + [PairingStep(pn.id, pn.pairingType)]);
      assert Leaves(st, 0, t);
    }
    if k: nat :| 0 <= k < |st.order| && Leaves(st, k, t) {
      var b :| Paired(st, 0, b) && Onward(st.nodes, ONWARD, b, pn.output, t);
    }
  }

  /** A Pairing node does not feed itself in an acyclic pipeline, so with one Pairing node no input is a Pairing. */
  lemma InputIsNotPairing(p: PipelineConfig, pn: Node, v: NodeId)
    requires p.Valid() && p.pairingNodes == [pn] && Acyclic(p.Outputs()) && v in InputIds(p.nodes, pn.id)
    ensures v in p.Lookup() && !p.Lookup()[v].Pairing?
  {
    hide Categorize, Acyclic, InputIds, PipelineConfig.UniqueIds;
    PairingIsPairing(p, pn);
    InputLeadsThere(p, pn, v);
    if v == pn.id { EdgeBackCloses(p.Outputs(), [v], 0); }
  }

  /** The enumeration consists of the paired runs, all of them; or of nothing when an input is a Process with several
      methods. */
  lemma PairingEnumerationExactly(p: PipelineConfig, pn: Node, t: Path)
    requires p.Valid() && p.pairingNodes == [pn] && pn.Pairing? && TwoInputsEach(p)
    requires Acyclic(p.Outputs()) && NoWayAround(p, pn.id)
    ensures var ins := InputIds(p.nodes, pn.id);
            && |ins| == 2 && ins[0] in p.Lookup() && ins[1] in p.Lookup()
            && (PathOf(p, t) <==>
                && !p.Lookup()[ins[0]].ManyMethods() && !p.Lookup()[ins[1]].ManyMethods()
                && PairedRun(p.Lookup(), p.captureNodes, ins[0], ins[1], pn, t))
  {
    hide NoWayAround, Acyclic, Categorize, FromCapture, ReachedBy, Onward, OnToTheEnd, PassesBy, Merge, Enumerable;
    hide InputIds, PipelineDistances;
    var nodes, captures := p.Lookup(), p.captureNodes;
    SettingIsOk(p);
    var st := SettingOf(p);
    assert st.order == [pn] by { OneIsSorted(pn, NearerOrAsFar(PipelineDistances(p))); }
    assert st.Inputs(0) == InputIds(p.nodes, pn.id) && |st.Inputs(0)| == 2;
    var in1, in2 := st.Inputs(0)[0], st.Inputs(0)[1];
    InputIsNotPairing(p, pn, in1);
    InputIsNotPairing(p, pn, in2);
    OneStage(st, t);
    NothingPassesBy(p, pn, t);
    GraphsAgree(p);
    forall p1 ensures FromCapture(nodes, Towards(in1), captures, p1) <==>
                      !nodes[in1].ManyMethods() && ReachedBy(nodes, captures, in1, p1) {
                        ReachedExactly(p, pn, in1, p1);
                      }
    forall p2 ensures FromCapture(nodes, Towards(in2), captures, p2) <==>
                      !nodes[in2].ManyMethods() && ReachedBy(nodes, captures, in2, p2) {
                        ReachedExactly(p, pn, in2, p2);
                      }
    forall base ensures Onward(nodes, ONWARD, base, pn.output, t) <==> OnToTheEnd(nodes, base, pn.output, t) {
      OnwardIsToTheEnd(nodes, base, pn.output, t);
    }
  }

  lemma OneIsSorted(n: Node, le: (Node, Node) -> bool)
    ensures Sort([n], le) == [n]
  {
    assert [n][1..] == [];
  }

  // ------------------------------------------------------------ which nodes occur, and when there is any path

  /** On a walk from a Capture to an input nothing ends and nothing pairs. */
  lemma WalkToInputPasses(p: PipelineConfig, pn: Node, v: NodeId, w: seq<NodeId>)
    requires p.Valid() && p.pairingNodes == [pn] && Acyclic(p.Outputs()) && NoWayAround(p, pn.id)
    requires Walk(p.Outputs(), w) && w[0] in CaptureIds(p) && w[|w| - 1] == v && v in InputIds(p.nodes, pn.id)
    ensures forall k :: 0 <= k < |w| ==> Passes(AROUND, p.Lookup()[w[k]])
  {
    hide InputIds, Acyclic, Categorize, PipelineConfig.UniqueIds;
    var g := p.Outputs();
    PairingIsPairing(p, pn);
    InputLeadsThere(p, pn, v);
    forall k | 0 <= k < |w| ensures w[k] != pn.id {
      if w[k] == pn.id { EdgeBackCloses(g, w, k); }
    }
    forall k | 0 <= k < |w| ensures !p.Lookup()[w[k]].Termination? {
      Slice(g, w, 0, k + 1);
      assert Walk(g, w[..k + 1]) && w[..k + 1][0] in CaptureIds(p) && pn.id !in w[..k + 1];
    }
  }

  lemma InputLeadsThere(p: PipelineConfig, pn: Node, v: NodeId)
    requires p.Valid() && pn.id in p.Lookup() && v in InputIds(p.nodes, pn.id)
    ensures Edge(p.Outputs(), v, pn.id)
  {
    InputIdsMembers(p.nodes, pn.id);
    InputsExist(p, pn.id, v);
    assert p.Lookup()[v] in p.nodes;
  }

  /** Such a walk is a run to the input, and on a run to the input every node is passed on a walk. */
  lemma WalkToInputIsRun(p: PipelineConfig, pn: Node, v: NodeId, w: seq<NodeId>)
    requires p.Valid() && p.pairingNodes == [pn] && Acyclic(p.Outputs()) && NoWayAround(p, pn.id)
    requires Walk(p.Outputs(), w) && w[0] in CaptureIds(p) && w[|w| - 1] == v && v in InputIds(p.nodes, pn.id)
    ensures forall k :: 0 <= k < |w| ==> w[k] in p.Lookup()
    ensures ReachedBy(p.Lookup(), p.captureNodes, v, Record(p.Lookup(), w))
    ensures forall k :: 0 <= k < |w| ==> Mentions(Record(p.Lookup(), w), w[k])
  {
    hide Acyclic, Categorize, Chain, InputIds, NoWayAround, PipelineConfig.UniqueIds, Mentions, Passes;
    WalkToInputPasses(p, pn, v, w);
    GraphsAgree(p);
    WalkMakesChain(p.Lookup(), AROUND, w);
    var i := CaptureIdIsCapture(p, w[0]);
    assert ReachRun(p.Lookup(), p.captureNodes[i].id, v, Record(p.Lookup(), w));
    RecordMentions(p.Lookup(), w);
    RecordIds(p.Lookup(), w);
  }

  /** `v` lies on a way from a Capture to an input of the Pairing node. */
  ghost predicate BeforePairing(p: PipelineConfig, pn: Node, v: NodeId)
    requires p.UniqueIds()
  {
    ReachedFromAny(p.Outputs(), CaptureIds(p), v) && LeadsToAny(p.Outputs(), v, InputIds(p.nodes, pn.id))
  }

  /** `v` is the Pairing node, or lies on a way from it to the first Termination. */
  ghost predicate BehindPairing(p: PipelineConfig, pn: Node, v: NodeId)
    requires p.UniqueIds()
  {
    && (exists w :: WalkFrom(p.Outputs(), pn.id, v, w) && Unended(p.Lookup(), w))
    && LeadsToAny(p.Outputs(), v, TerminationIds(p))
  }

  /** Both inputs can be reached, and a Termination can be reached from the Pairing node. */
  ghost predicate Passable(p: PipelineConfig, pn: Node)
    requires p.UniqueIds() && |InputIds(p.nodes, pn.id)| == 2
  {
    && ReachedFromAny(p.Outputs(), CaptureIds(p), InputIds(p.nodes, pn.id)[0])
    && ReachedFromAny(p.Outputs(), CaptureIds(p), InputIds(p.nodes, pn.id)[1])
    && LeadsToAny(p.Outputs(), pn.id, TerminationIds(p))
  }

  lemma ReachRunIsWalk(p: PipelineConfig, i: nat, v: NodeId, t: Path) returns (w: seq<NodeId>)
    requires p.Valid() && i < |p.captureNodes| && ReachRun(p.Lookup(), p.captureNodes[i].id, v, t)
    ensures Walk(p.Outputs(), w) && w[0] in CaptureIds(p) && w[|w| - 1] == v && |w| == |t|
    ensures forall k :: 0 <= k < |t| ==> !t[k].Truncated? && t[k].id == w[k]
  {
    hide Categorize, Chain;
    GraphsAgree(p);
    ChainIsWalk(p.Lookup(), AROUND, p.captureNodes[i].id, t);
    w := StepIds(t);
    assert CaptureIds(p)[i] in CaptureIds(p);
  }

  /** What a run to an input visits lies between a Capture and the input. */
  lemma ReachedByVisits(p: PipelineConfig, v: NodeId, t: Path, x: NodeId)
    requires p.Valid() && ReachedBy(p.Lookup(), p.captureNodes, v, t)
    ensures ReachedFromAny(p.Outputs(), CaptureIds(p), v)
    ensures Mentions(t, x) ==> ReachedFromAny(p.Outputs(), CaptureIds(p), x) && Reaches(p.Outputs(), x, v)
  {
    hide Categorize, ReachRun, Walk, WalkFrom, Reaches, PipelineConfig.UniqueIds;
    var i :| 0 <= i < |p.captureNodes| && ReachRun(p.Lookup(), p.captureNodes[i].id, v, t);
    var w := ReachRunIsWalk(p, i, v, t);
    assert w != [] by { WalkIsNotEmpty(p.Outputs(), w); }
    ReachesAlong(p.Outputs(), w, |w| - 1);
    if Mentions(t, x) {
      var k :| 0 <= k < |t| && !t[k].Truncated? && t[k].id == x;
      ReachesAlong(p.Outputs(), w, k);
    }
  }

  lemma WalkIsNotEmpty(g: Graph, w: seq<NodeId>)
    requires Walk(g, w)
    ensures w != []
  {
  }

  /** A run from an output of the Pairing node to a Termination. */
  ghost predicate EndRun(p: PipelineConfig, pn: Node, q: Path)
    requires p.UniqueIds()
  {
    exists k :: 0 <= k < |pn.output| && Run(p.Lookup(), ONWARD, pn.output[k], q) && Completed(q)
  }

  /** Such a run is a walk from the Pairing node to its first Termination. */
  lemma EndRunIsWalk(p: PipelineConfig, pn: Node, q: Path) returns (u: seq<NodeId>)
    requires p.Valid() && p.pairingNodes == [pn] && EndRun(p, pn, q)
    ensures Walk(p.Outputs(), u) && u[0] == pn.id && Unended(p.Lookup(), u) && u[|u| - 1] in TerminationIds(p)
    ensures |u| == |q| + 1 && forall j :: 0 <= j < |q| ==> !q[j].Truncated? && q[j].id == u[j + 1]
  {
    hide Categorize, Run, Passes, Ends, StopsBeforePairing, PipelineConfig.UniqueIds;
    var k :| 0 <= k < |pn.output| && Run(p.Lookup(), ONWARD, pn.output[k], q) && Completed(q);
    PairingIsPairing(p, pn);
    GraphsAgree(p);
    var w := RunIsWalk(p.Lookup(), ONWARD, pn.output[k], q);
    EndIsTermination(p, pn.output[k], q);
    assert Edge(GraphOf(p.Lookup()), pn.id, w[0]);
    u := [pn.id] + w;
    Concat(p.Outputs(), [pn.id, w[0]], w);
    assert u == [pn.id, w[0]] + w[1..];
    OnwardUnended(p.Lookup(), pn.id, w);
  }

  lemma EndRunVisits(p: PipelineConfig, pn: Node, q: Path, x: NodeId)
    requires p.Valid() && p.pairingNodes == [pn] && EndRun(p, pn, q)
    ensures BehindPairing(p, pn, pn.id)
    ensures Mentions(q, x) ==> BehindPairing(p, pn, x)
  {
    hide Categorize, EndRun, BehindPairing, PipelineConfig.UniqueIds;
    var u := EndRunIsWalk(p, pn, q);
    BehindOnWalk(p, pn, u, 0);
    if Mentions(q, x) {
      var j :| 0 <= j < |q| && !q[j].Truncated? && q[j].id == x;
      BehindOnWalk(p, pn, u, j + 1);
    }
  }

  lemma BehindOnWalk(p: PipelineConfig, pn: Node, u: seq<NodeId>, j: nat)
    requires p.UniqueIds() && Walk(p.Outputs(), u) && u[0] == pn.id && Unended(p.Lookup(), u)
    requires u[|u| - 1] in TerminationIds(p) && j < |u|
    ensures BehindPairing(p, pn, u[j])
  {
    hide PipelineConfig.UniqueIds, Walk;
    ReachesAlong(p.Outputs(), u, j);
    Slice(p.Outputs(), u, 0, j + 1);
    assert WalkFrom(p.Outputs(), pn.id, u[j], u[..j + 1]) && Unended(p.Lookup(), u[..j + 1]);
  }

  lemma OnwardUnended(nodes: Nodes, a: NodeId, w: seq<NodeId>)
    requires a in nodes && !nodes[a].Termination? && FinishingWalk(nodes, ONWARD, w)
    ensures Unended(nodes, [a] + w)
  {
    hide Ends, StopsBeforePairing, Edge;
    forall i | 0 <= i < |w| ensures ([a] + w)[i] in nodes && !nodes[([a] + w)[i]].Termination? {
      if i > 0 { assert ([a] + w)[i] == w[i - 1] && Passes(ONWARD, nodes[w[i - 1]]); }
    }
  }

  lemma EndIsTermination(p: PipelineConfig, start: NodeId, q: Path)
    requires p.Valid() && Run(p.Lookup(), ONWARD, start, q) && Completed(q)
    ensures q[|q| - 1].id in TerminationIds(p)
  {
    hide Chain;
    var n := p.Lookup()[q[|q| - 1].id];
    assert n in p.nodes && n in p.terminationNodes;
    var i :| 0 <= i < |p.terminationNodes| && p.terminationNodes[i] == n;
    assert TerminationIds(p)[i] == n.id;
  }

  /** Behind its first node, a walk to a first Termination is one that the search onward takes. */
  lemma TailFinishes(nodes: Nodes, u: seq<NodeId>)
    requires Walk(GraphOf(nodes), u) && |u| > 1 && Unended(nodes, u) && nodes[u[|u| - 1]].Termination?
    ensures FinishingWalk(nodes, ONWARD, u[1..]) && u[1] in nodes[u[0]].output
  {
    Slice(GraphOf(nodes), u, 1, |u|);
    var r := u[1..];
    assert Edge(GraphOf(nodes), u[0], u[1]);
    forall i | 0 <= i < |r| - 1 ensures Passes(ONWARD, nodes[r[i]]) { assert r[i] == u[i + 1]; }
  }

  lemma RecordMentions(nodes: Nodes, w: seq<NodeId>)
    requires Keyed(nodes) && forall i :: 0 <= i < |w| ==> w[i] in nodes
    ensures forall i :: 0 <= i < |w| ==> Mentions(Record(nodes, w), w[i])
    ensures w != [] && nodes[w[|w| - 1]].Termination? ==> Completed(Record(nodes, w))
  {
    RecordIds(nodes, w);
    if w != [] { assert Emits(nodes[w[|w| - 1]], Record(nodes, w)[|w| - 1]); }
  }

  /** A walk from the Pairing node to its first Termination is a run. */
  lemma WalkIsEndRun(p: PipelineConfig, pn: Node, u: seq<NodeId>) returns (q: Path)
    requires p.Valid() && p.pairingNodes == [pn] && Acyclic(p.Outputs())
    requires Walk(p.Outputs(), u) && u[0] == pn.id && Unended(p.Lookup(), u) && p.Lookup()[u[|u| - 1]].Termination?
    ensures EndRun(p, pn, q) && forall j :: 1 <= j < |u| ==> Mentions(q, u[j])
  {
    hide Acyclic, Categorize, Run, Mentions, Unended, Completed, PipelineConfig.UniqueIds;
    var nodes := p.Lookup();
    GraphsAgree(p);
    PairingIsPairing(p, pn);
    assert |u| > 1;
    TailFinishes(nodes, u);
    var r := u[1..];
    RecordMentions(nodes, r);
    var k :| 0 <= k < |pn.output| && pn.output[k] == u[1];
    FinishingWalkIsRun(nodes, ONWARD, r);
    q := Record(nodes, r);
    assert Run(nodes, ONWARD, pn.output[k], q);
    forall j | 1 <= j < |u| ensures Mentions(q, u[j]) { assert r[j - 1] == u[j]; }
  }

  /** A node behind the Pairing node lies on a run from there to a Termination. */
  lemma BehindIsVisited(p: PipelineConfig, pn: Node, x: NodeId) returns (q: Path)
    requires p.Valid() && p.pairingNodes == [pn] && Acyclic(p.Outputs()) && BehindPairing(p, pn, x)
    ensures EndRun(p, pn, q) && (x == pn.id || Mentions(q, x))
  {
    hide Acyclic, Categorize, EndRun, Mentions;
    var nodes := p.Lookup();
    GraphsAgree(p);
    var w :| WalkFrom(p.Outputs(), pn.id, x, w) && Unended(nodes, w);
    var e :| e in TerminationIds(p) && Reaches(p.Outputs(), x, e);
    var w2 :| WalkFrom(p.Outputs(), x, e, w2);
    TerminationIdIsTermination(p, e);
    var u := ToFirstEnd(nodes, w, w2);
    assert u[0] == pn.id && u[|w| - 1] == x;
    q := WalkIsEndRun(p, pn, u);
  }

  /** The three parts of an enumerated path, and what it visits. */
  lemma PairedRunParts(p: PipelineConfig, pn: Node, in1: NodeId, in2: NodeId, t: Path)
    returns (p1: Path, p2: Path, q: Path)
    requires p.Valid() && pn.Pairing? && PairedRun(p.Lookup(), p.captureNodes, in1, in2, pn, t)
    ensures ReachedBy(p.Lookup(), p.captureNodes, in1, p1) && ReachedBy(p.Lookup(), p.captureNodes, in2, p2)
    ensures EndRun(p, pn, q) && q != [] && t != [] && t[|t| - 1] == q[|q| - 1]
    ensures forall x :: Mentions(t, x) <==> Mentions(p1, x) || Mentions(p2, x) || x == pn.id || Mentions(q, x)
  {
    hide ReachedBy, Run, Merge;
    var a, b :| ReachedBy(p.Lookup(), p.captureNodes, in1, a) && ReachedBy(p.Lookup(), p.captureNodes, in2, b) &&
                OnToTheEnd(p.Lookup(), Merge(a, b) + [PairingStep(pn.id, pn.pairingType)], pn.output, t);
    var base := Merge(a, b) + [PairingStep(pn.id, pn.pairingType)];
    var k, c :| 0 <= k < |pn.output| && Run(p.Lookup(), ONWARD, pn.output[k], c) && Completed(c) && t == base + c;
    p1, p2, q := a, b, c;
    VisitsOfParts(a, b, PairingStep(pn.id, pn.pairingType), c);
  }

  lemma VisitsOfParts(p1: Path, p2: Path, e: Entry, q: Path)
    requires !e.Truncated?
    ensures forall x :: Mentions(Merge(p1, p2) + [e] + q, x) <==>
                        Mentions(p1, x) || Mentions(p2, x) || x == e.id || Mentions(q, x)
  {
    hide Merge;
    var t := Merge(p1, p2) + [e] + q;
    MergeIsUnion(p1, p2);
    assert forall s: Path, x {:trigger Mentions(s, x)} :: Mentions(s, x) <==> x in IdSet(s);
    assert forall y :: y in t <==> y in Merge(p1, p2) || y == e || y in q;
    assert IdSet(t) == IdSet(Merge(p1, p2)) + {e.id} + IdSet(q);
  }

  lemma PartsMakePairedRun(p: PipelineConfig, pn: Node, in1: NodeId, in2: NodeId, p1: Path, p2: Path, q: Path)
    returns (t: Path)
    requires p.Valid() && pn.Pairing? && EndRun(p, pn, q)
    requires ReachedBy(p.Lookup(), p.captureNodes, in1, p1) && ReachedBy(p.Lookup(), p.captureNodes, in2, p2)
    ensures PairedRun(p.Lookup(), p.captureNodes, in1, in2, pn, t)
    ensures forall x :: Mentions(t, x) <==> Mentions(p1, x) || Mentions(p2, x) || x == pn.id || Mentions(q, x)
  {
    hide ReachedBy, Run, Merge;
    var k :| 0 <= k < |pn.output| && Run(p.Lookup(), ONWARD, pn.output[k], q) && Completed(q);
    var base := Merge(p1, p2) + [PairingStep(pn.id, pn.pairingType)];
    t := base + q;
    assert OnToTheEnd(p.Lookup(), base, pn.output, t);
    VisitsOfParts(p1, p2, PairingStep(pn.id, pn.pairingType), q);
  }

  /** A run to an input that visits `x`. */
  lemma RunToInputVia(p: PipelineConfig, pn: Node, x: NodeId, v: NodeId) returns (t: Path)
    requires p.Valid() && p.pairingNodes == [pn] && Acyclic(p.Outputs()) && NoWayAround(p, pn.id)
    requires ReachedFromAny(p.Outputs(), CaptureIds(p), x) && Reaches(p.Outputs(), x, v) &&
              v in InputIds(p.nodes, pn.id)
    ensures ReachedBy(p.Lookup(), p.captureNodes, v, t) && Mentions(t, x)
  {
    hide Acyclic, Categorize, NoWayAround, InputIds, ReachedBy;
    var a :| a in CaptureIds(p) && Reaches(p.Outputs(), a, x);
    var w :| WalkFrom(p.Outputs(), a, x, w);
    var w2 :| WalkFrom(p.Outputs(), x, v, w2);
    Concat(p.Outputs(), w, w2);
    var u := w + w2[1..];
    assert u[|w| - 1] == x;
    WalkToInputIsRun(p, pn, v, u);
    t := Record(p.Lookup(), u);
  }

  /** No input of the Pairing node is a Process with several methods. */
  predicate SingleMethodInputs(p: PipelineConfig, pn: Node)
    requires p.UniqueIds()
  {
    forall v :: v in InputIds(p.nodes, pn.id) ==> v in p.Lookup() && !p.Lookup()[v].ManyMethods()
  }

  /** Exactly when there is any path, judged by the pipeline: no input is a Process with several methods, both can be
      reached from a Capture, and the Pairing node leads to a Termination. */
  lemma PairingPathExists(p: PipelineConfig, pn: Node)
    requires p.Valid() && p.pairingNodes == [pn] && pn.Pairing? && TwoInputsEach(p)
    requires Acyclic(p.Outputs()) && NoWayAround(p, pn.id)
    ensures |InputIds(p.nodes, pn.id)| == 2
    ensures (exists t :: PathOf(p, t)) <==> SingleMethodInputs(p, pn) && Passable(p, pn)
  {
    hide Acyclic, Categorize, NoWayAround, InputIds, PathOf, ReachedBy, EndRun, Mentions, PipelineConfig.UniqueIds;
    hide ReachedFromAny, LeadsToAny, SingleMethodInputs;
    assert pn in p.pairingNodes;
    if t: Path :| PathOf(p, t) {
      var p1, p2, q := PathHasParts(p, pn, t);
      var ins := InputIds(p.nodes, pn.id);
      ReachedByVisits(p, ins[0], p1, ins[0]);
      ReachedByVisits(p, ins[1], p2, ins[1]);
      EndRunVisits(p, pn, q, pn.id);
    }
    if SingleMethodInputs(p, pn) && Passable(p, pn) {
      var p1, p2, q := PassableParts(p, pn);
      var t := PartsMakePath(p, pn, p1, p2, q);
    }
  }

  lemma PassableParts(p: PipelineConfig, pn: Node) returns (p1: Path, p2: Path, q: Path)
    requires p.Valid() && p.pairingNodes == [pn] && Acyclic(p.Outputs()) && NoWayAround(p, pn.id)
    requires |InputIds(p.nodes, pn.id)| == 2 && Passable(p, pn)
    ensures ReachedBy(p.Lookup(), p.captureNodes, InputIds(p.nodes, pn.id)[0], p1)
    ensures ReachedBy(p.Lookup(), p.captureNodes, InputIds(p.nodes, pn.id)[1], p2)
    ensures EndRun(p, pn, q)
  {
    hide Acyclic, Categorize, NoWayAround, InputIds, ReachedBy, EndRun, PipelineConfig.UniqueIds, ReachedFromAny;
    hide LeadsToAny;
    hide BehindPairing, Mentions;
    var ins := InputIds(p.nodes, pn.id);
    PairingIsPairing(p, pn);
    p1 := RunToInput(p, pn, ins[0]);
    p2 := RunToInput(p, pn, ins[1]);
    PairingIsBehind(p, pn);
    q := BehindIsVisited(p, pn, pn.id);
  }

  lemma RunToInput(p: PipelineConfig, pn: Node, v: NodeId) returns (t: Path)
    requires p.Valid() && p.pairingNodes == [pn] && Acyclic(p.Outputs()) && NoWayAround(p, pn.id) && pn.id in p.Lookup()
    requires ReachedFromAny(p.Outputs(), CaptureIds(p), v) && v in InputIds(p.nodes, pn.id)
    ensures ReachedBy(p.Lookup(), p.captureNodes, v, t)
  {
    hide Acyclic, Categorize, NoWayAround, InputIds, ReachedBy, PipelineConfig.UniqueIds, ReachedFromAny, Mentions;
    InputLeadsThere(p, pn, v);
    ReachesSelf(p.Outputs(), v);
    t := RunToInputVia(p, pn, v, v);
  }

  lemma PairingIsBehind(p: PipelineConfig, pn: Node)
    requires p.UniqueIds() && pn.id in p.Lookup() && LeadsToAny(p.Outputs(), pn.id, TerminationIds(p))
    ensures BehindPairing(p, pn, pn.id)
  {
    hide LeadsToAny, PipelineConfig.UniqueIds;
    assert WalkFrom(p.Outputs(), pn.id, pn.id, [pn.id]);
    assert Unended(p.Lookup(), [pn.id]);
  }

  /** Any three parts make a path, as soon as no input is a Process with several methods. */
  lemma PartsMakePath(p: PipelineConfig, pn: Node, p1: Path, p2: Path, q: Path) returns (t: Path)
    requires p.Valid() && p.pairingNodes == [pn] && pn.Pairing? && TwoInputsEach(p)
    requires Acyclic(p.Outputs()) && NoWayAround(p, pn.id) && SingleMethodInputs(p, pn)
    requires ReachedBy(p.Lookup(), p.captureNodes, InputIds(p.nodes, pn.id)[0], p1)
    requires ReachedBy(p.Lookup(), p.captureNodes, InputIds(p.nodes, pn.id)[1], p2)
    requires EndRun(p, pn, q)
    ensures PathOf(p, t)
    ensures forall x :: Mentions(t, x) <==> Mentions(p1, x) || Mentions(p2, x) || x == pn.id || Mentions(q, x)
  {
    hide Acyclic, Categorize, NoWayAround, InputIds, PathOf, PairedRun, ReachedBy, EndRun, Mentions;
    hide PipelineConfig.UniqueIds;
    assert pn in p.pairingNodes;
    var ins := InputIds(p.nodes, pn.id);
    t := PartsMakePairedRun(p, pn, ins[0], ins[1], p1, p2, q);
    PairingEnumerationExactly(p, pn, t);
  }

  /** And every path has three such parts. */
  lemma PathHasParts(p: PipelineConfig, pn: Node, t: Path) returns (p1: Path, p2: Path, q: Path)
    requires p.Valid() && p.pairingNodes == [pn] && pn.Pairing? && TwoInputsEach(p)
    requires Acyclic(p.Outputs()) && NoWayAround(p, pn.id) && PathOf(p, t)
    ensures SingleMethodInputs(p, pn) && |InputIds(p.nodes, pn.id)| == 2
    ensures ReachedBy(p.Lookup(), p.captureNodes, InputIds(p.nodes, pn.id)[0], p1)
    ensures ReachedBy(p.Lookup(), p.captureNodes, InputIds(p.nodes, pn.id)[1], p2)
    ensures EndRun(p, pn, q) && q != [] && t != [] && t[|t| - 1] == q[|q| - 1]
    ensures forall x :: Mentions(t, x) <==> Mentions(p1, x) || Mentions(p2, x) || x == pn.id || Mentions(q, x)
  {
    hide Acyclic, Categorize, NoWayAround, InputIds, PathOf, PairedRun, ReachedBy, EndRun, Mentions;
    hide PipelineConfig.UniqueIds;
    hide TwoInputsEach;
    PairingEnumerationExactly(p, pn, t);
    var ins := InputIds(p.nodes, pn.id);
    p1, p2, q := PairedRunParts(p, pn, ins[0], ins[1], t);
  }

  /** Exactly which nodes occur on enumerated paths, as soon as there are any: those on a way from a Capture to an
      input, the Pairing node, and those on a way from it to the first Termination. */
  lemma PairingCoverageExactly(p: PipelineConfig, pn: Node, x: NodeId)
    requires p.Valid() && p.pairingNodes == [pn] && pn.Pairing? && TwoInputsEach(p)
    requires Acyclic(p.Outputs()) && NoWayAround(p, pn.id) && exists t :: PathOf(p, t)
    ensures (exists t :: PathOf(p, t) && Mentions(t, x)) <==> BeforePairing(p, pn, x) || BehindPairing(p, pn, x)
  {
    hide Acyclic, Categorize, NoWayAround, InputIds, PathOf, ReachedBy, EndRun, Mentions, BehindPairing;
    hide PipelineConfig.UniqueIds, ReachedFromAny;
    if t: Path :| PathOf(p, t) && Mentions(t, x) {
      var p1, p2, q := PathHasParts(p, pn, t);
      var ins := InputIds(p.nodes, pn.id);
      ReachedByVisits(p, ins[0], p1, x);
      ReachedByVisits(p, ins[1], p2, x);
      EndRunVisits(p, pn, q, x);
      assert ins[0] in ins && ins[1] in ins;
    }
    if BeforePairing(p, pn, x) || BehindPairing(p, pn, x) { VisitedSomewhere(p, pn, x); }
  }

  lemma VisitedSomewhere(p: PipelineConfig, pn: Node, x: NodeId)
    requires p.Valid() && p.pairingNodes == [pn] && pn.Pairing? && TwoInputsEach(p)
    requires Acyclic(p.Outputs()) && NoWayAround(p, pn.id) && exists t :: PathOf(p, t)
    requires BeforePairing(p, pn, x) || BehindPairing(p, pn, x)
    ensures exists t :: PathOf(p, t) && Mentions(t, x)
  {
    hide Acyclic, Categorize, NoWayAround, InputIds, PathOf, ReachedBy, EndRun, Mentions, BehindPairing;
    hide SingleMethodInputs;
    hide PipelineConfig.UniqueIds, ReachedFromAny, TwoInputsEach, Reaches;
    var ins := InputIds(p.nodes, pn.id);
    var t0: Path :| PathOf(p, t0);
    var p1, p2, q := PathHasParts(p, pn, t0);
    if BehindPairing(p, pn, x) {
      q := BehindIsVisited(p, pn, x);
    } else {
      var v :| v in ins && Reaches(p.Outputs(), x, v);
      if v == ins[0] { p1 := RunToInputVia(p, pn, x, v); } else { p2 := RunToInputVia(p, pn, x, v); }
    }
    var t := PartsMakePath(p, pn, p1, p2, q);
  }

  /** Some path visits `v`. */
  ghost predicate OnSomePath(p: PipelineConfig, v: NodeId)
    requires p.Valid()
  {
    exists t :: PathOf(p, t) && Mentions(t, v)
  }

  /** A pipeline with one Pairing node that the structure checker passes is enumerated without truncation; and every
      node is on some path exactly when no input of the Pairing node is a Process with several methods. */
  lemma CleanPairingPipelineIsFullyEnumerated(p: PipelineConfig, pn: Node)
    requires p.Valid() && p.pairingNodes == [pn] && TwoInputsEach(p) && NoWayAround(p, pn.id)
    requires forall n :: n in p.terminationNodes ==> n.output == []
    requires CycleReport(p) + OrphanReport(p) + DeadEndReport(p) == []
    ensures Acyclic(p.Outputs()) && forall t :: PathOf(p, t) ==> Completed(t)
    ensures (forall v {:trigger OnSomePath(p, v)} :: v in p.Ids() ==> OnSomePath(p, v)) <==> SingleMethodInputs(p, pn)
  {
    hide Acyclic, Categorize, NoWayAround, InputIds, PathOf, Mentions, BeforePairing, BehindPairing, Passable;
    hide ReachedFromAny, LeadsToAny, CycleReport, OrphanReport, DeadEndReport, PipelineConfig.UniqueIds;
    hide SingleMethodInputs;
    CleanGraph(p);
    PairingIsPairing(p, pn);
    forall t | PathOf(p, t) ensures Completed(t) { PathsOfPipeline(p, t); }
    PairingPathExists(p, pn);
    CleanIsPassable(p, pn);
    if SingleMethodInputs(p, pn) {
      forall v | v in p.Ids() ensures OnSomePath(p, v) {
        BeforeOrBehind(p, pn, v);
        PairingCoverageExactly(p, pn, v);
      }
    } else {
      assert !OnSomePath(p, pn.id);
    }
  }

  lemma CleanIsPassable(p: PipelineConfig, pn: Node)
    requires p.Valid() && pn.id in p.Lookup() && |InputIds(p.nodes, pn.id)| == 2
    requires forall v :: v in p.Ids() ==> ReachedFromAny(p.Outputs(), CaptureIds(p), v)
    requires forall v :: v in p.Ids() ==> LeadsToAny(p.Outputs(), v, TerminationIds(p))
    ensures Passable(p, pn)
  {
    hide ReachedFromAny, LeadsToAny, InputIds, Categorize, PipelineConfig.UniqueIds;
    var ins := InputIds(p.nodes, pn.id);
    InputsAreFeeders(p, pn.id);
    assert ins[0] in ins && ins[1] in ins;
  }

  /** When every way to an end comes by the Pairing node, each node on such a way stands in front of it or behind. */
  lemma BeforeOrBehind(p: PipelineConfig, pn: Node, x: NodeId)
    requires p.Valid() && pn.id in p.Lookup() && NoWayAround(p, pn.id)
    requires forall n :: n in p.terminationNodes ==> n.output == []
    requires ReachedFromAny(p.Outputs(), CaptureIds(p), x) && LeadsToAny(p.Outputs(), x, TerminationIds(p))
    ensures BeforePairing(p, pn, x) || BehindPairing(p, pn, x)
  {
    hide Categorize, InputIds, PipelineConfig.UniqueIds, Walk, NoWayAround;
    var g := p.Outputs();
    var a :| a in CaptureIds(p) && Reaches(g, a, x);
    var w :| WalkFrom(g, a, x, w);
    var e :| e in TerminationIds(p) && Reaches(g, x, e);
    var w2 :| WalkFrom(g, x, e, w2);
    var k := PairingOnTheWay(p, pn, w, w2);
    if k < |w| {
      Slice(g, w, k, |w|);
      assert w[k..|w|] == w[k..] && w[k..][|w| - k - 1] == x;
      FinalTerminations(p, w[k..]);
      assert WalkFrom(g, pn.id, x, w[k..]);
    } else {
      WalkToInput(p, pn, w2, k - |w| + 1);
    }
  }

  /** The Pairing node on a walk from a Capture on to a Termination, at its place on the first part or the second. */
  lemma PairingOnTheWay(p: PipelineConfig, pn: Node, w: seq<NodeId>, w2: seq<NodeId>) returns (k: nat)
    requires p.Valid() && NoWayAround(p, pn.id)
    requires Walk(p.Outputs(), w) && Walk(p.Outputs(), w2) && w[0] in CaptureIds(p) && w[|w| - 1] == w2[0]
    requires w2[|w2| - 1] in TerminationIds(p)
    ensures w != [] && w2 != [] && k < |w| + |w2| - 1
    ensures if k < |w| then w[k] == pn.id else w2[k - |w| + 1] == pn.id
  {
    hide Categorize, PipelineConfig.UniqueIds, Edge;
    TerminationIdIsTermination(p, w2[|w2| - 1]);
    Concat(p.Outputs(), w, w2);
    var u := w + w2[1..];
    assert pn.id in u;
    k :| 0 <= k < |u| && u[k] == pn.id;
  }

  /** In front of the Pairing node a walk visits one of its inputs. */
  lemma WalkToInput(p: PipelineConfig, pn: Node, w: seq<NodeId>, j: nat)
    requires p.Valid() && Walk(p.Outputs(), w) && 0 < j < |w| && w[j] == pn.id
    ensures LeadsToAny(p.Outputs(), w[0], InputIds(p.nodes, pn.id))
  {
    hide Categorize, InputIds, PipelineConfig.UniqueIds, Reaches;
    assert Edge(p.Outputs(), w[j - 1], w[j]);
    LookupOutputs(p, w[j - 1]);
    InputsAreFeeders(p, pn.id);
    Slice(p.Outputs(), w, 0, j);
    ReachesAlong(p.Outputs(), w[..j], j - 1);
  }

  lemma LookupOutputs(p: PipelineConfig, v: NodeId)
    requires p.Valid() && v in p.Outputs()
    ensures v in p.Lookup() && p.Lookup()[v].output == p.Outputs()[v]
  {
    hide Categorize;
  }

  /** An acyclic pipeline meets what the enumeration needs to halt. */
  lemma AcyclicPipelineHalts(p: PipelineConfig, m: Mode)
    requires p.UniqueIds() && Acyclic(p.Outputs())
    ensures Acyclic(FreeGraph(p.Lookup(), m))
  {
    GraphsAgree(p);
    SubgraphIsAcyclic(p.Lookup(), m);
  }
}
