/** Runs through a pipeline: what a depth-first search is meant to find, independently of how it searches. */
module Runs {
  import opened Options
  import opened Walks
  import opened Pipelines

  /** One recorded step of a path. Only a truncation marker carries no node id. */
  datatype Entry =
    | CaptureStep(id: NodeId)
    | FileStep(id: NodeId, extension: string)
    | ProcessStep(id: NodeId, methodId: string)
    | BranchStep(id: NodeId, condition: string)
    | PairingStep(id: NodeId, pairingType: string)
    | EndStep(id: NodeId, termType: string)
    | Truncated

  type Path = seq<Entry>
  type Nodes = map<NodeId, Node>

  const MAX_ITERATIONS: nat := 5

  ghost predicate Keyed(nodes: Nodes) { forall id :: id in nodes ==> nodes[id].id == id }

  // ------------------------------------------------------------ single steps

  /** The methods a Process visit chooses from; an empty list stands for "no suffix". */
  function Methods(n: Node): (r: seq<string>)
    requires n.Process?
    ensures r != []
  {
    if n.methodIds == [] then [""] else n.methodIds
  }

  /** `e` is a record of one visit to `n`. */
  predicate Emits(n: Node, e: Entry) {
    match n
    case Capture(id, _) => e == CaptureStep(id)
    case File(id, _, extension) => e == FileStep(id, extension)
    case Process(id, _, _) => e.ProcessStep? && e.id == id && e.methodId in Methods(n)
    case Pairing(id, _, pairingType, _) => e == PairingStep(id, pairingType)
    case Branching(id, _, condition) => e == BranchStep(id, condition)
    case Termination(id, _, terminationType) => e == EndStep(id, terminationType)
  }

  /** What a search does at a Pairing node that is not its target: raise, turn back, or go through. */
  datatype Policy = Raise | TurnBack | GoThrough

  datatype Mode = Mode(target: Option<NodeId>, policy: Policy)

  /** The target is recognised, except when it is a Process with several methods. */
  predicate Hit(m: Mode, n: Node) { m.target == Some(n.id) && !n.ManyMethods() }

  predicate Passes(m: Mode, n: Node) {
    !n.Termination? && !Hit(m, n) && (n.Pairing? ==> m.policy == GoThrough)
  }

  predicate Ends(m: Mode, n: Node) {
    n.Termination? || (n.Pairing? && m.policy == Raise) || (!n.Pairing? && Hit(m, n))
  }

  /** A search that turns back at Pairing nodes takes the path in front of the Pairing node `x` for a result: without a
      target at every ordinary node, aiming at `x` itself only behind a Process with several methods (`many`). */
  predicate StopsAt(nodes: Nodes, m: Mode, many: bool, x: NodeId) {
    x in nodes && nodes[x].Pairing? && m.policy == TurnBack && m.target == if many then Some(x) else None
  }

  predicate StopsAmong(nodes: Nodes, m: Mode, many: bool, ids: seq<NodeId>) {
    exists x :: x in ids && StopsAt(nodes, m, many, x)
  }

  predicate StopsBeforePairing(nodes: Nodes, m: Mode, n: Node) {
    Passes(m, n) && StopsAmong(nodes, m, n.ManyMethods(), n.output)
  }

  // ------------------------------------------------------------ chains and runs

  predicate Counted(e: Entry) { e.FileStep? || e.ProcessStep? || e.BranchStep? }

  /** How often the limited node `x` was visited. */
  ghost function Visits(s: Path, x: NodeId): nat {
    if s == [] then 0
    else
      var e := s[|s| - 1];
      Visits(s[..|s| - 1], x) + if Counted(e) && e.id == x then 1 else 0
  }

  ghost predicate Visit(nodes: Nodes, m: Mode, e: Entry) {
    && !e.Truncated? && e.id in nodes && Emits(nodes[e.id], e) && Passes(m, nodes[e.id])
  }

  /** `id` may come next after the steps `s` of a search that began at `start`. */
  ghost predicate Next(nodes: Nodes, start: NodeId, s: Path, id: NodeId) {
    if s == [] then id == start
    else var e := s[|s| - 1]; !e.Truncated? && e.id in nodes && id in nodes[e.id].output
  }

  /** Steps from `start` along output edges, each continuing the search, no limited node more than five times. */
  ghost predicate Chain(nodes: Nodes, m: Mode, start: NodeId, s: Path)
    decreases |s|
  {
    s == [] || (
      var r, e := s[..|s| - 1], s[|s| - 1];
      && Chain(nodes, m, start, r)
      && Visit(nodes, m, e) && Next(nodes, start, r, e.id)
      && Room(nodes, r, e.id))
  }

  /** Another visit to `x` stays within the limit. */
  ghost predicate Room(nodes: Nodes, s: Path, x: NodeId) {
    x in nodes && (nodes[x].Limited() ==> Visits(s, x) < MAX_ITERATIONS)
  }

  /** A complete result: a chain followed by its last step or by the truncation marker. */
  ghost predicate Run(nodes: Nodes, m: Mode, start: NodeId, t: Path) {
    t != [] && Chain(nodes, m, start, t[..|t| - 1]) && Finish(nodes, m, start, t[..|t| - 1], t[|t| - 1])
  }

  ghost predicate Finish(nodes: Nodes, m: Mode, start: NodeId, s: Path, e: Entry) {
    if e.Truncated? then exists x :: CutAt(nodes, start, s, x)
    else
      && e.id in nodes && Emits(nodes[e.id], e) && Next(nodes, start, s, e.id) && Room(nodes, s, e.id)
      && (Ends(m, nodes[e.id]) || StopsBeforePairing(nodes, m, nodes[e.id]))
  }

  /** The search would step to the limited node `x` a sixth time. */
  ghost predicate CutAt(nodes: Nodes, start: NodeId, s: Path, x: NodeId) {
    x in nodes && !Room(nodes, s, x) && Next(nodes, start, s, x)
  }

  /** `t` is a run that continues the chain `s` through the node `id`. */
  ghost predicate Via(nodes: Nodes, m: Mode, start: NodeId, s: Path, id: NodeId, t: Path) {
    && id in nodes && Run(nodes, m, start, t) && |s| < |t| && t[..|s|] == s
    && if t[|s|].Truncated? then |t| == |s| + 1 && CutAt(nodes, start, s, id) else t[|s|].id == id
  }

  ghost predicate ViaAny(nodes: Nodes, m: Mode, start: NodeId, s: Path, ids: seq<NodeId>, t: Path) {
    exists k :: 0 <= k < |ids| && Via(nodes, m, start, s, ids[k], t)
  }

  // ------------------------------------------------------------ prefixes

  lemma VisitsAppend(s: Path, e: Entry, x: NodeId)
    ensures Visits(s + [e], x) == Visits(s, x) + if Counted(e) && e.id == x then 1 else 0
  {
    assert (s + [e])[..|s|] == s;
  }

  lemma {:induction false} ChainPrefix(nodes: Nodes, m: Mode, start: NodeId, s: Path, k: nat)
    requires Chain(nodes, m, start, s) && k <= |s|
    ensures Chain(nodes, m, start, s[..k])
    ensures k < |s| ==> Visit(nodes, m, s[k]) && Next(nodes, start, s[..k], s[k].id) && Room(nodes, s[..k], s[k].id)
  {
    if k == |s| {
      assert s[..k] == s;
    } else if k < |s| - 1 {
      ChainPrefix(nodes, m, start, s[..|s| - 1], k);
      assert s[..|s| - 1][..k] == s[..k];
    }
  }

  lemma ChainAppend(nodes: Nodes, m: Mode, start: NodeId, s: Path, e: Entry)
    ensures Chain(nodes, m, start, s + [e]) <==>
            Chain(nodes, m, start, s) && Visit(nodes, m, e) && Next(nodes, start, s, e.id) && Room(nodes, s, e.id)
  {
    assert (s + [e])[..|s|] == s;
  }

  /** Inside a run, the next step is one of the outputs of the node just visited. */
  lemma RunContinues(nodes: Nodes, m: Mode, start: NodeId, s: Path, t: Path)
    requires Run(nodes, m, start, t) && s != [] && |s| < |t| && t[..|s|] == s
    ensures Visit(nodes, m, s[|s| - 1])
    ensures ViaAny(nodes, m, start, s, nodes[s[|s| - 1].id].output, t)
  {
    var r, e := t[..|t| - 1], s[|s| - 1];
    ChainPrefix(nodes, m, start, r, |s| - 1);
    assert r[|s| - 1] == e;
    var output := nodes[e.id].output;
    if t[|s|].Truncated? {
      if |s| < |r| { ChainPrefix(nodes, m, start, r, |s|); }
      assert r == s;
      var x :| CutAt(nodes, start, s, x);
      var k :| 0 <= k < |output| && output[k] == x;
      assert Via(nodes, m, start, s, output[k], t);
    } else {
      if |s| < |r| {
        ChainPrefix(nodes, m, start, r, |s|);
        assert r[|s|] == t[|s|] && r[..|s|] == s;
      } else {
        assert r == s;
      }
      var k :| 0 <= k < |output| && output[k] == t[|s|].id;
      assert Via(nodes, m, start, s, output[k], t);
    }
  }

  /** A run through a node records a visit the node emits, and only with room left. */
  lemma ViaVisits(nodes: Nodes, m: Mode, start: NodeId, s: Path, id: NodeId, t: Path)
    requires Via(nodes, m, start, s, id, t) && !t[|s|].Truncated?
    ensures Emits(nodes[id], t[|s|]) && Room(nodes, s, id) && Next(nodes, start, s, id)
  {
    var r := t[..|t| - 1];
    if |s| < |r| {
      ChainPrefix(nodes, m, start, r, |s|);
      assert r[|s|] == t[|s|] && r[..|s|] == s;
    } else {
      assert r == s;
    }
  }

  /** The step of the search: a run through `id` records the visit and either ends there or goes on to an output. */
  lemma StepForward(nodes: Nodes, m: Mode, start: NodeId, s: Path, id: NodeId, t: Path)
    requires Via(nodes, m, start, s, id, t) && Room(nodes, s, id)
    ensures !t[|s|].Truncated? && Emits(nodes[id], t[|s|])
    ensures |t| == |s| + 1 ==> t == s + [t[|s|]] && (Ends(m, nodes[id]) || StopsBeforePairing(nodes, m, nodes[id]))
    ensures |t| > |s| + 1 ==> Passes(m, nodes[id]) && ViaAny(nodes, m, start, s + [t[|s|]], nodes[id].output, t)
  {
    ViaVisits(nodes, m, start, s, id, t);
    if |t| > |s| + 1 {
      assert t[..|s| + 1] == s + [t[|s|]];
      RunContinues(nodes, m, start, s + [t[|s|]], t);
    }
  }

  lemma StepBack(nodes: Nodes, m: Mode, start: NodeId, s: Path, id: NodeId, e: Entry, t: Path)
    requires Keyed(nodes)
    requires Chain(nodes, m, start, s) && id in nodes && Next(nodes, start, s, id) && Room(nodes, s, id) &&
              Emits(nodes[id], e)
    requires (t == s + [e] && (Ends(m, nodes[id]) || StopsBeforePairing(nodes, m, nodes[id])))
             || ViaAny(nodes, m, start, s + [e], nodes[id].output, t)
    ensures Via(nodes, m, start, s, id, t)
  {
    hide Chain, Next, Room, Run, StopsBeforePairing, Ends;
    EmittedIds(nodes[id], e);
    if t == s + [e] {
      EndedHere(nodes, m, start, s, e);
    } else {
      assert t[..|s|] == t[..|s| + 1][..|s|] == s;
      assert t[|s|] == t[..|s| + 1][|s|] == e;
    }
  }

  lemma EmittedIds(n: Node, e: Entry)
    requires Emits(n, e)
    ensures !e.Truncated? && e.id == n.id
  {
  }

  lemma EndedHere(nodes: Nodes, m: Mode, start: NodeId, s: Path, e: Entry)
    requires Chain(nodes, m, start, s) && !e.Truncated? && e.id in nodes && Next(nodes, start, s, e.id)
    requires Room(nodes, s, e.id) && Emits(nodes[e.id], e)
    requires Ends(m, nodes[e.id]) || StopsBeforePairing(nodes, m, nodes[e.id])
    ensures Run(nodes, m, start, s + [e])
  {
    hide Chain, Next, Room, StopsBeforePairing, Ends, Emits;
    assert (s + [e])[..|s|] == s;
  }

  /** All of a run's possible continuations at a node with room, visit by visit. */
  lemma ViaSplits(nodes: Nodes, m: Mode, start: NodeId, s: Path, id: NodeId, t: Path)
    requires Keyed(nodes)
    requires Chain(nodes, m, start, s) && id in nodes && Next(nodes, start, s, id) && Room(nodes, s, id)
    ensures Via(nodes, m, start, s, id, t) <==>
            exists e :: Emits(nodes[id], e) && ViaVisit(nodes, m, start, s, id, e, t)
  {
    if Via(nodes, m, start, s, id, t) {
      StepForward(nodes, m, start, s, id, t);
      assert Emits(nodes[id], t[|s|]) && ViaVisit(nodes, m, start, s, id, t[|s|], t);
    }
    if e :| Emits(nodes[id], e) && ViaVisit(nodes, m, start, s, id, e, t) {
      StepBack(nodes, m, start, s, id, e, t);
    }
  }

  /** `t` continues `s` with the visit `e` of `id`. */
  ghost predicate ViaVisit(nodes: Nodes, m: Mode, start: NodeId, s: Path, id: NodeId, e: Entry, t: Path)
    requires id in nodes
  {
    || (t == s + [e] && (Ends(m, nodes[id]) || StopsBeforePairing(nodes, m, nodes[id])))
    || ViaAny(nodes, m, start, s + [e], nodes[id].output, t)
  }

  /** A node that ends the search is never gone through. */
  lemma EndsGoesNoFurther(nodes: Nodes, m: Mode, start: NodeId, s: Path, id: NodeId, e: Entry, t: Path)
    requires Keyed(nodes) && id in nodes && Emits(nodes[id], e) && !Passes(m, nodes[id])
    ensures !ViaAny(nodes, m, start, s + [e], nodes[id].output, t)
  {
    if k :| 0 <= k < |nodes[id].output| && Via(nodes, m, start, s + [e], nodes[id].output[k], t) {
      RunContinues(nodes, m, start, s + [e], t);
    }
  }

  /** A limited node already visited five times admits only the truncated run. */
  lemma NoRoomMeansCut(nodes: Nodes, m: Mode, start: NodeId, s: Path, id: NodeId, t: Path)
    requires Chain(nodes, m, start, s) && id in nodes && Next(nodes, start, s, id) && !Room(nodes, s, id)
    ensures Via(nodes, m, start, s, id, t) <==> t == s + [Truncated]
  {
    if Via(nodes, m, start, s, id, t) && !t[|s|].Truncated? { ViaVisits(nodes, m, start, s, id, t); }
    if t == s + [Truncated] {
      assert t[..|t| - 1] == s;
      assert CutAt(nodes, start, s, id);
    }
  }

  /** A run is a run through its start node. */
  lemma RunIsViaStart(nodes: Nodes, m: Mode, start: NodeId, t: Path)
    requires Keyed(nodes)
    ensures Run(nodes, m, start, t) <==> Via(nodes, m, start, [], start, t)
  {
    if Run(nodes, m, start, t) {
      if |t| == 1 {
        assert t[..0] == [];
      } else {
        ChainPrefix(nodes, m, start, t[..|t| - 1], 0);
        assert t[..|t| - 1][..0] == [];
      }
    }
  }

  // ------------------------------------------------------------ how long a chain can get

  function LimitedIds(nodes: Nodes): set<NodeId> { set id | id in nodes && nodes[id].Limited() }

  /** Visits to members of `x`, all together. */
  ghost function VisitsIn(s: Path, x: set<NodeId>): nat {
    if s == [] then 0
    else
      var e := s[|s| - 1];
      VisitsIn(s[..|s| - 1], x) + if Counted(e) && e.id in x then 1 else 0
  }

  lemma {:induction false} VisitsInSplit(s: Path, x: set<NodeId>, y: NodeId)
    requires y in x
    ensures VisitsIn(s, x) == VisitsIn(s, x - {y}) + Visits(s, y)
  {
    if s != [] { VisitsInSplit(s[..|s| - 1], x, y); }
  }

  lemma {:induction false} VisitsInBounded(s: Path, x: set<NodeId>)
    requires forall y :: y in x ==> Visits(s, y) <= MAX_ITERATIONS
    ensures VisitsIn(s, x) <= MAX_ITERATIONS * |x|
  {
    if x == {} {
      VisitsInNothing(s);
    } else {
      var y :| y in x;
      VisitsInSplit(s, x, y);
      VisitsInBounded(s, x - {y});
    }
  }

  lemma {:induction false} VisitsInNothing(s: Path)
    ensures VisitsIn(s, {}) == 0
  {
    if s != [] { VisitsInNothing(s[..|s| - 1]); }
  }

  lemma {:induction false} ChainVisitsBounded(nodes: Nodes, m: Mode, start: NodeId, s: Path, x: NodeId)
    requires Keyed(nodes) && Chain(nodes, m, start, s)
    ensures Visits(s, x) <= MAX_ITERATIONS
  {
    if s != [] { ChainVisitsBounded(nodes, m, start, s[..|s| - 1], x); }
  }

  /** The nodes a search passes without counting them: Captures, and Pairing nodes it goes through. */
  function FreeGraph(nodes: Nodes, m: Mode): (g: Graph) {
    map id | id in nodes && !nodes[id].Limited() && Passes(m, nodes[id]) :: nodes[id].output
  }

  /** The ids visited since the last counted step. */
  ghost function TrailingFree(s: Path): seq<NodeId> {
    if s == [] || Counted(s[|s| - 1]) || s[|s| - 1].Truncated? then []
    else TrailingFree(s[..|s| - 1]) + [s[|s| - 1].id]
  }

  lemma {:induction false} TrailingFreeIsWalk(nodes: Nodes, m: Mode, start: NodeId, s: Path)
    requires Keyed(nodes) && Chain(nodes, m, start, s) && TrailingFree(s) != []
    ensures Walk(FreeGraph(nodes, m), TrailingFree(s))
    ensures TrailingFree(s)[|TrailingFree(s)| - 1] == s[|s| - 1].id
  {
    var r, e := s[..|s| - 1], s[|s| - 1];
    var g, w := FreeGraph(nodes, m), TrailingFree(r);
    assert e.id in g;
    if w != [] {
      TrailingFreeIsWalk(nodes, m, start, r);
      assert Edge(g, w[|w| - 1], e.id);
      var w' := w + [e.id];
      forall i | 0 <= i < |w'| - 1 ensures Edge(g, w'[i], w'[i + 1]) {
        if i < |w| - 1 { assert Edge(g, w[i], w[i + 1]); }
      }
    }
  }

  /** Both components of the search's measure are never negative. */
  lemma MeasureIsNatural(nodes: Nodes, m: Mode, start: NodeId, s: Path)
    requires Keyed(nodes) && Chain(nodes, m, start, s) && Acyclic(FreeGraph(nodes, m))
    ensures VisitsIn(s, LimitedIds(nodes)) <= MAX_ITERATIONS * |LimitedIds(nodes)|
    ensures |TrailingFree(s)| <= |FreeGraph(nodes, m)|
  {
    forall y ensures Visits(s, y) <= MAX_ITERATIONS { ChainVisitsBounded(nodes, m, start, s, y); }
    VisitsInBounded(s, LimitedIds(nodes));
    if TrailingFree(s) != [] {
      TrailingFreeIsWalk(nodes, m, start, s);
      AcyclicWalkDistinct(FreeGraph(nodes, m), TrailingFree(s));
    }
  }

  /** One more step makes the measure smaller. */
  lemma MeasureDrops(nodes: Nodes, m: Mode, start: NodeId, s: Path, e: Entry)
    requires Keyed(nodes) && Chain(nodes, m, start, s + [e])
    ensures if Counted(e) then VisitsIn(s + [e], LimitedIds(nodes)) == VisitsIn(s, LimitedIds(nodes)) + 1
            else VisitsIn(s + [e], LimitedIds(nodes)) == VisitsIn(s, LimitedIds(nodes)) &&
                 |TrailingFree(s + [e])| == |TrailingFree(s)| + 1
  {
    assert (s + [e])[..|s|] == s;
    assert e.id in LimitedIds(nodes) <==> Counted(e);
  }

  // ------------------------------------------------------------ chains, read position by position

  /** The same notion of chain without recursion. */
  ghost predicate Stepwise(nodes: Nodes, m: Mode, start: NodeId, s: Path) {
    && (s != [] ==> s[0].Truncated? || s[0].id == start)
    && (forall i :: 0 <= i < |s| ==> Visit(nodes, m, s[i]))
    && (forall i :: 0 <= i < |s| - 1 ==> Follows(nodes, s[i], s[i + 1]))
    && (forall x :: Visits(s, x) <= MAX_ITERATIONS)
  }

  /** `b` is recorded at an output of the node recorded by `a`. */
  ghost predicate Follows(nodes: Nodes, a: Entry, b: Entry) {
    !a.Truncated? && !b.Truncated? && a.id in nodes && b.id in nodes[a.id].output
  }

  lemma StepwiseLast(nodes: Nodes, m: Mode, start: NodeId, r: Path, e: Entry)
    requires Keyed(nodes)
    ensures Stepwise(nodes, m, start, r + [e]) <==>
            Stepwise(nodes, m, start, r) && Visit(nodes, m, e) && Next(nodes, start, r, e.id) && Room(nodes, r, e.id)
  {
    hide Visits;
    var s := r + [e];
    forall x ensures Visits(s, x) == Visits(r, x) + if Counted(e) && e.id == x then 1 else 0 { VisitsAppend(r, e, x); }
    if Stepwise(nodes, m, start, s) {
      assert s[|r|] == e;
      forall i | 0 <= i < |r| ensures Visit(nodes, m, r[i]) { assert s[i] == r[i]; }
      forall i | 0 <= i < |r| - 1 ensures Follows(nodes, r[i], r[i + 1]) { assert Follows(nodes, s[i], s[i + 1]); }
      if r != [] { assert Follows(nodes, s[|r| - 1], s[|r| - 1 + 1]); }
      forall x ensures Visits(r, x) <= MAX_ITERATIONS { assert Visits(s, x) <= MAX_ITERATIONS; }
      assert Visits(s, e.id) <= MAX_ITERATIONS;
    }
    if Stepwise(nodes, m, start, r) && Visit(nodes, m, e) && Next(nodes, start, r, e.id) && Room(nodes, r, e.id) {
      forall i | 0 <= i < |s| - 1 ensures Follows(nodes, s[i], s[i + 1]) {
        if i < |r| - 1 { assert Follows(nodes, r[i], r[i + 1]); }
      }
    }
  }

  lemma {:induction false} ChainReadStepwise(nodes: Nodes, m: Mode, start: NodeId, s: Path)
    requires Keyed(nodes)
    ensures Chain(nodes, m, start, s) <==> Stepwise(nodes, m, start, s)
  {
    hide Stepwise;
    if s == [] {
      NothingStepwise(nodes, m, start);
    } else {
      ChainReadStepwise(nodes, m, start, s[..|s| - 1]);
      StepwiseLast(nodes, m, start, s[..|s| - 1], s[|s| - 1]);
      assert s == s[..|s| - 1] + [s[|s| - 1]];
    }
  }

  lemma NothingStepwise(nodes: Nodes, m: Mode, start: NodeId)
    ensures Stepwise(nodes, m, start, [])
  {
  }
}
