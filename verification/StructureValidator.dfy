/** The two structure checkers: StructureValidator (graph based) and validate_pipeline_structure. */
module StructureValidators {
  import opened Options
  import opened Walks
  import opened Pipelines
  import opened TopologicalOrders
  import opened PipelineGraphs

  datatype ErrorType =
    | HasCycle | NoCapture | OrphanedNodes | NoTermination | DeadEnds
    | MissingExtension | InvalidPairingInputs | InsufficientBranches | MissingTerminationType
    | UnknownMethod
  datatype ValidationError = ValidationError(errorType: ErrorType, nodeIds: set<NodeId>)

  function CaptureIds(config: PipelineConfig): seq<NodeId> { NodeIds(config.captureNodes) }
  function TerminationIds(config: PipelineConfig): seq<NodeId> { NodeIds(config.terminationNodes) }

  // ------------------------------------------------------------ what should be reported

  ghost predicate LeadsToAny(g: Graph, v: NodeId, ends: seq<NodeId>) { exists e :: e in ends && Reaches(g, v, e) }

  ghost function CycleFed(g: Graph): set<NodeId> { set v | v in g && FedByCycle(g, v) }

  ghost function Unreached(g: Graph, starts: seq<NodeId>): set<NodeId> {
    set v | v in g && !ReachedFromAny(g, starts, v)
  }

  ghost function Stuck(g: Graph, ends: seq<NodeId>): set<NodeId> { set v | v in g && !LeadsToAny(g, v, ends) }

  ghost function CycleReport(config: PipelineConfig): seq<ValidationError>
    requires config.UniqueIds()
  {
    var g := config.Outputs();
    if Acyclic(g) then [] else [ValidationError(HasCycle, CycleFed(g))]
  }

  ghost function OrphanReport(config: PipelineConfig): seq<ValidationError>
    requires config.UniqueIds()
  {
    var orphans := Unreached(config.Outputs(), CaptureIds(config));
    if config.captureNodes == [] then [ValidationError(NoCapture, {})]
    else if orphans == {} then []
    else [ValidationError(OrphanedNodes, orphans)]
  }

  ghost function DeadEndReport(config: PipelineConfig): seq<ValidationError>
    requires config.UniqueIds()
  {
    var stuck := Stuck(config.Outputs(), TerminationIds(config));
    if config.terminationNodes == [] then [ValidationError(NoTermination, {})]
    else if stuck == {} then []
    else [ValidationError(DeadEnds, stuck)]
  }

  /** What the node checks find wrong with one node of the pipeline. A Process node's method ids are a list by type. */
  ghost function NodeError(config: PipelineConfig, n: Node): Option<ErrorType>
    requires config.UniqueIds() && n in config.nodes
  {
    if n.File? && n.extension == "" then Some(MissingExtension)
    else if n.Pairing? && Entries(config.nodes, n.id) != 2 then Some(InvalidPairingInputs)
    else if n.Branching? && |KeptOutputs(config.Outputs())[n.id]| < 2 then Some(InsufficientBranches)
    else if n.Termination? && n.terminationType == "" then Some(MissingTerminationType)
    else None
  }

  /** The reports on the first `k` nodes, in order. */
  ghost function NodeReport(config: PipelineConfig, k: nat): seq<ValidationError>
    requires config.UniqueIds() && k <= |config.nodes|
  {
    if k == 0 then []
    else
      var n := config.nodes[k - 1];
      NodeReport(config, k - 1) +
      match NodeError(config, n) case Some(e) => [ValidationError(e, {n.id})] case None => []
  }

  /** The methods a Process node names that are not configured; the empty one always is. */
  function UnknownMethods(n: Node, known: set<string>, k: nat): seq<string>
    requires n.Process? && k <= |n.methodIds|
  {
    if k == 0 then []
    else
      var m := n.methodIds[k - 1];
      UnknownMethods(n, known, k - 1) + if m in known || m == "" then [] else [m]
  }

  /** Each such method with its node, node by node. */
  function Undefined(nodes: seq<Node>, known: set<string>): (r: seq<(NodeId, string)>)
    requires forall n :: n in nodes ==> n.Process?
  {
    if nodes == [] then []
    else
      var rest, n := nodes[..|nodes| - 1], nodes[|nodes| - 1];
      assert nodes == rest + [n];
      var unknown := UnknownMethods(n, known, |n.methodIds|);
      Undefined(rest, known) + seq(|unknown|, i requires 0 <= i < |unknown| => (n.id, unknown[i]))
  }

  /** Without configured methods nothing is checked. */
  function UndefinedMethods(config: PipelineConfig, known: Option<set<string>>): seq<(NodeId, string)>
    requires config.Valid()
  {
    if known.None? then [] else ProcessNodesAre(config); Undefined(config.processNodes, known.value)
  }

  lemma ProcessNodesAre(config: PipelineConfig)
    requires config.Valid()
    ensures forall n :: n in config.processNodes ==> n.Process?
  {
  }

  function MethodReport(config: PipelineConfig, known: Option<set<string>>): seq<ValidationError>
    requires config.Valid()
  {
    var undefined := UndefinedMethods(config, known);
    seq(|undefined|, i requires 0 <= i < |undefined| => ValidationError(UnknownMethod, {undefined[i].0}))
  }

  /** The loops over Process nodes and their methods. */
  method FindUndefinedMethods(nodes: seq<Node>, known: set<string>) returns (found: seq<(NodeId, string)>)
    requires forall n :: n in nodes ==> n.Process?
    ensures found == Undefined(nodes, known)
  {
    found := [];
    for i := 0 to |nodes|
      invariant forall n :: n in nodes[..i] ==> n.Process?
      invariant found == Undefined(nodes[..i], known)
    {
      var n := nodes[i];
      assert n in nodes && nodes[..i + 1] == nodes[..i] + [n] && nodes[..i + 1][..i] == nodes[..i];
      ghost var before := found;
      for j := 0 to |n.methodIds|
        invariant var u := UnknownMethods(n, known, j);
                  found == before + seq(|u|, i requires 0 <= i < |u| => (n.id, u[i]))
      {
        var m := n.methodIds[j];
        if m !in known && m != "" { found := found + [(n.id, m)]; }
      }
    }
    assert nodes[..|nodes|] == nodes;
  }

  /** Everything the graph-based checker reports, in its order. */
  ghost function FullReport(config: PipelineConfig, known: Option<set<string>>): seq<ValidationError>
    requires config.Valid()
  {
    CycleReport(config) + OrphanReport(config) + DeadEndReport(config) +
    NodeReport(config, |config.nodes|) + MethodReport(config, known)
  }

  lemma KindIdsExist(config: PipelineConfig, a: NodeId)
    requires config.Valid() && (a in CaptureIds(config) || a in TerminationIds(config))
    ensures a in config.Outputs()
  {
    var nodes := if a in CaptureIds(config) then config.captureNodes else config.terminationNodes;
    var k :| 0 <= k < |nodes| && NodeIds(nodes)[k] == a;
    assert nodes[k] in nodes;
  }

  lemma FoundFromCaptures(config: PipelineConfig, v: NodeId)
    requires config.Valid()
    ensures Found(config.Outputs(), CaptureIds(config), v) <==> ReachedFromAny(config.Outputs(), CaptureIds(config), v)
  {
    if v in CaptureIds(config) {
      KindIdsExist(config, v);
      ReachesSelf(config.Outputs(), v);
    }
  }

  lemma FoundBackwards(config: PipelineConfig, r: Graph, v: NodeId)
    requires config.Valid() && v in config.Outputs()
    requires Reverse(config.Outputs(), r)
    ensures Found(r, TerminationIds(config), v) <==> LeadsToAny(config.Outputs(), v, TerminationIds(config))
  {
    var g, ends := config.Outputs(), TerminationIds(config);
    if v in ends { ReachesSelf(g, v); }
    if e :| e in ends && Reaches(r, e, v) { ReachesReversed(g, r, v, e); }
    if e :| e in ends && Reaches(g, v, e) { ReachesReversed(g, r, v, e); }
  }

  lemma NotFoundIsUnreached(config: PipelineConfig, left: set<NodeId>)
    requires config.Valid()
    requires forall v {:trigger Found(config.Outputs(), CaptureIds(config), v)} ::
               v in left <==> v in config.Ids() && !Found(config.Outputs(), CaptureIds(config), v)
    ensures left == Unreached(config.Outputs(), CaptureIds(config))
  {
    hide Found, ReachedFromAny;
    forall v ensures v in left <==> v in Unreached(config.Outputs(), CaptureIds(config)) {
      FoundFromCaptures(config, v);
    }
  }

  lemma TerminationsAreFound(r: Graph, ends: seq<NodeId>)
    ensures forall v {:trigger Found(r, ends, v)} :: v in ends ==> Found(r, ends, v)
  {
  }

  lemma NotFoundIsStuck(config: PipelineConfig, r: Graph, left: set<NodeId>)
    requires config.Valid() && Reverse(config.Outputs(), r)
    requires forall v {:trigger Found(r, TerminationIds(config), v)} ::
               v in left <==> v in config.Ids() && !Found(r, TerminationIds(config), v)
    ensures left == Stuck(config.Outputs(), TerminationIds(config))
  {
    hide Found, LeadsToAny;
    forall v ensures v in left <==> v in Stuck(config.Outputs(), TerminationIds(config)) {
      if v in left { assert !Found(r, TerminationIds(config), v); }
      if v in config.Ids() { FoundBackwards(config, r, v); }
    }
  }

  class StructureValidator {
    const graph: PipelineGraph
    const processingMethods: Option<set<string>>
    var errors: seq<ValidationError>

    constructor (graph: PipelineGraph, processingMethods: Option<set<string>>)
      ensures this.graph == graph && this.processingMethods == processingMethods && errors == []
    {
      this.graph, this.processingMethods := graph, processingMethods;
      errors := [];
    }

    ghost predicate Ready()
      reads this, graph
    {
      graph.Valid() && graph.config.Valid()
    }

    method Validate()
      requires Ready()
      modifies this`errors
      ensures errors == FullReport(graph.config, processingMethods)
    {
      hide CycleReport, OrphanReport, DeadEndReport, NodeReport, MethodReport, Categorize, PipelineConfig.UniqueIds;
      hide Balanced;
      errors := [];
      DetectCycles();
      FindOrphanedNodes();
      FindDeadEnds();
      ValidateNodes();
      ValidatePropertyReferences();
    }

    /** One check per kind of node, by its fields and adjacency lists. */
    method ValidateNodes()
      requires Ready()
      modifies this`errors
      ensures errors == old(errors) + NodeReport(graph.config, |graph.config.nodes|)
    {
      hide Entries, PipelineConfig.UniqueIds, NodeError, Categorize, Balanced, KeptOutputs;
      var nodes := graph.config.nodes;
      for i := 0 to |nodes|
        invariant errors == old(errors) + NodeReport(graph.config, i)
      {
        assert nodes[i] in nodes;
        var e := ValidateNode(nodes[i]);
        if e.Some? { errors := errors + [ValidationError(e.value, {nodes[i].id})]; }
      }
    }

    method ValidateNode(n: Node) returns (e: Option<ErrorType>)
      requires Ready() && n in graph.config.nodes
      ensures e == NodeError(graph.config, n)
    {
      hide Entries, PipelineConfig.UniqueIds, Categorize, Balanced, KeptOutputs;
      graph.ListsCover(n);
      e := None;
      match n {
        case Capture(_, _) => {}
        case File(_, _, extension) => if extension == "" { e := Some(MissingExtension); }
        case Process(_, _, _) => {}
        case Pairing(_, _, _, _) => if |graph.parents[n.id]| != 2 { e := Some(InvalidPairingInputs); }
        case Branching(_, _, _) => if |graph.children[n.id]| < 2 { e := Some(InsufficientBranches); }
        case Termination(_, _, terminationType) => if terminationType == "" { e := Some(MissingTerminationType); }
      }
    }

    /** Processing methods that are used but not configured. */
    method ValidatePropertyReferences()
      requires Ready()
      modifies this`errors
      ensures errors == old(errors) + MethodReport(graph.config, processingMethods)
    {
      hide Undefined, Categorize;
      if processingMethods.None? { return; }
      ProcessNodesAre(graph.config);
      var undefined := FindUndefinedMethods(graph.config.processNodes, processingMethods.value);
      for i := 0 to |undefined|
        invariant errors == old(errors) +
                            seq(i, j requires 0 <= j < i => ValidationError(UnknownMethod, {undefined[j].0}))
      {
        errors := errors + [ValidationError(UnknownMethod, {undefined[i].0})];
      }
    }

    /** Reports the nodes Kahn's algorithm could not list: those some cycle leads to. */
    method DetectCycles()
      requires Ready()
      modifies this`errors
      ensures errors == old(errors) + CycleReport(graph.config)
    {
      hide FedByCycle, Acyclic, Topological, Categorize, Balanced, PipelineConfig.UniqueIds, Entries;
      var order, hasCycle := graph.TopologicalSort();
      if hasCycle {
        var cycleNodes := graph.config.Ids() - Elements(order);
        assert cycleNodes == CycleFed(graph.config.Outputs());
        errors := errors + [ValidationError(HasCycle, cycleNodes)];
      }
    }

    /** Reports exactly the nodes no walk from a Capture reaches. */
    method FindOrphanedNodes()
      requires Ready()
      modifies this`errors
      ensures errors == old(errors) + OrphanReport(graph.config)
    {
      hide Found, Unreached, Categorize, Balanced, PipelineConfig.UniqueIds, Entries;
      var captureIds := CaptureIds(graph.config);
      if captureIds == [] {
        errors := errors + [ValidationError(NoCapture, {})];
        return;
      }
      var reachable := graph.DfsFromNodes(captureIds);
      var orphaned := graph.config.Ids() - reachable;
      NotFoundIsUnreached(graph.config, orphaned);
      if orphaned != {} { errors := errors + [ValidationError(OrphanedNodes, orphaned)]; }
    }

    /** Reports exactly the nodes with no walk to a Termination. */
    method FindDeadEnds()
      requires Ready()
      modifies this`errors
      ensures errors == old(errors) + DeadEndReport(graph.config)
    {
      hide Found, Stuck, Edge, Categorize, Balanced, PipelineConfig.UniqueIds, Entries;
      var terminationIds := TerminationIds(graph.config);
      if terminationIds == [] {
        errors := errors + [ValidationError(NoTermination, {})];
        return;
      }
      graph.ParentsReverseOutputs();
      var leading := Search(graph.parents, terminationIds);
      var deadEnds := graph.config.Ids() - leading - Elements(terminationIds);
      TerminationsAreFound(graph.parents, terminationIds);
      NotFoundIsStuck(graph.config, graph.parents, deadEnds);
      if deadEnds != {} { errors := errors + [ValidationError(DeadEnds, deadEnds)]; }
    }
  }

  // ------------------------------------------------------------ validate_pipeline_structure

  datatype StructureError =
    | MissingCapture
    | MissingTermination
    | BadReference(node: NodeId, output: NodeId)
    | UndefinedMethod(node: NodeId, methodId: string)
    | Unreachable(nodes: set<NodeId>)

  /** The graph the second checker explores: ids that name no node count as vertices without outputs. */
  function WithDangling(g: Graph): Graph {
    g + map d | d in Mentioned(g) - g.Keys :: []
  }

  function Mentioned(g: Graph): set<NodeId> { set u, d | u in g && d in g[u] :: d }

  lemma WithDanglingEdges(g: Graph)
    ensures forall u, v :: Edge(WithDangling(g), u, v) <==> u in g && v in g[u]
    ensures forall u :: u in g ==> u in WithDangling(g) && WithDangling(g)[u] == g[u]
  {
    forall u, v | u in g && v in g[u] ensures v in WithDangling(g) {}
  }

  /** A walk that ends at a real node never visits a dangling id. */
  lemma {:induction false} DanglingIsNeverInside(g: Graph, w: seq<NodeId>)
    requires Walk(WithDangling(g), w) && w[|w| - 1] in g
    ensures Walk(g, w)
  {
    WithDanglingEdges(g);
    forall i | 0 <= i < |w| ensures w[i] in g {
      if i < |w| - 1 { assert Edge(WithDangling(g), w[i], w[i + 1]); }
    }
    forall i | 0 <= i < |w| - 1 ensures Edge(g, w[i], w[i + 1]) {
      assert Edge(WithDangling(g), w[i], w[i + 1]);
    }
  }

  lemma DanglingIsIrrelevant(g: Graph, a: NodeId, v: NodeId)
    requires v in g
    ensures Reaches(WithDangling(g), a, v) <==> Reaches(g, a, v)
  {
    WithDanglingEdges(g);
    if Reaches(WithDangling(g), a, v) {
      var w :| WalkFrom(WithDangling(g), a, v, w);
      DanglingIsNeverInside(g, w);
      assert WalkFrom(g, a, v, w);
    }
    if Reaches(g, a, v) {
      var w :| WalkFrom(g, a, v, w);
      forall i | 0 <= i < |w| - 1 ensures Edge(WithDangling(g), w[i], w[i + 1]) { assert Edge(g, w[i], w[i + 1]); }
      assert WalkFrom(WithDangling(g), a, v, w);
    }
  }

  /** The inline reachability loop: every output is pushed, known or not. */
  method ReachableIds(g: Graph, starts: seq<NodeId>) returns (reachable: set<NodeId>)
    ensures forall v {:trigger Found(WithDangling(g), starts, v)} :: v in reachable <==>
              Found(WithDangling(g), starts, v)
  {
    hide Exploring, Known, Found, WithDangling;
    ghost var h := WithDangling(g);
    WithDanglingEdges(g);
    reachable := {};
    var toVisit := starts;
    ExploringBegins(h, starts);
    while toVisit != []
      invariant Exploring(h, starts, reachable, toVisit)
      decreases |Known(h, starts) - reachable|, |toVisit|
    {
      var current := toVisit[|toVisit| - 1];
      ghost var before := toVisit;
      toVisit := toVisit[..|toVisit| - 1];
      if current in reachable {
        ExploringSkips(h, starts, reachable, before);
      } else {
        var output := if current in g then g[current] else [];
        ghost var rest := toVisit;
        toVisit := toVisit + output;
        assert rest + [current] == before;
        ExploringVisits(h, starts, reachable, rest, current, toVisit);
        reachable := reachable + {current};
      }
    }
    ExploringEnds(h, starts, reachable);
  }

  ghost function NotFound(config: PipelineConfig): set<NodeId>
    requires config.UniqueIds()
  {
    set v | v in config.Ids() && !Found(WithDangling(config.Outputs()), CaptureIds(config), v)
  }

  ghost function UnreachableReport(config: PipelineConfig): seq<StructureError>
    requires config.UniqueIds()
  {
    var left := NotFound(config);
    if left == {} then [] else [Unreachable(left)]
  }

  lemma UnreachableReportIs(config: PipelineConfig, reachable: set<NodeId>)
    requires config.UniqueIds()
    requires forall v {:trigger Found(WithDangling(config.Outputs()), CaptureIds(config), v)} ::
               v in config.Ids() ==> (v in reachable <==> Found(WithDangling(config.Outputs()), CaptureIds(config), v))
    ensures config.Ids() - reachable == NotFound(config)
  {
    hide Found;
    forall v ensures v in config.Ids() - reachable <==> v in NotFound(config) {
      var found := Found(WithDangling(config.Outputs()), CaptureIds(config), v);
    }
  }

  /** The dangling output entries of `nodes`, each reported with its node. */
  ghost predicate ListsBadReferences(nodes: seq<Node>, ids: set<NodeId>, errors: seq<StructureError>) {
    forall e :: e in errors <==> e.BadReference? && e.output !in ids && NamedBy(nodes, e.node, e.output)
  }

  ghost predicate NamedBy(nodes: seq<Node>, id: NodeId, output: NodeId) {
    exists n :: n in nodes && n.id == id && output in n.output
  }

  /** Check 3. */
  method BadReferences(nodes: seq<Node>, ids: set<NodeId>) returns (errors: seq<StructureError>)
    ensures ListsBadReferences(nodes, ids, errors)
  {
    errors := [];
    for i := 0 to |nodes|
      invariant ListsBadReferences(nodes[..i], ids, errors)
    {
      var n := nodes[i];
      assert nodes[..i + 1] == nodes[..i] + [n];
      ghost var before := errors;
      for j := 0 to |n.output|
        invariant forall e :: e in errors <==>
          e in before || (e.BadReference? && e.output !in ids && n.id == e.node && e.output in n.output[..j])
      {
        assert n.output[..j + 1] == n.output[..j] + [n.output[j]];
        if n.output[j] !in ids { errors := errors + [BadReference(n.id, n.output[j])]; }
      }
      assert n.output[..|n.output|] == n.output;
    }
    assert nodes[..|nodes|] == nodes;
  }

  function MissingKinds(config: PipelineConfig): seq<StructureError> {
    (if config.captureNodes == [] then [MissingCapture] else []) +
    (if config.terminationNodes == [] then [MissingTermination] else [])
  }

  function UndefinedReport(config: PipelineConfig, known: Option<set<string>>): seq<StructureError>
    requires config.Valid()
  {
    var undefined := UndefinedMethods(config, known);
    seq(|undefined|, i requires 0 <= i < |undefined| => UndefinedMethod(undefined[i].0, undefined[i].1))
  }

  /** Check 4. */
  method CheckMethods(config: PipelineConfig, known: Option<set<string>>) returns (errors: seq<StructureError>)
    requires config.Valid()
    ensures errors == UndefinedReport(config, known)
  {
    hide Undefined, Categorize;
    if known.None? { return []; }
    ProcessNodesAre(config);
    var undefined := FindUndefinedMethods(config.processNodes, known.value);
    errors := seq(|undefined|, i requires 0 <= i < |undefined| => UndefinedMethod(undefined[i].0, undefined[i].1));
  }

  /** The checks of the list-of-messages checker that can report something, in its order. */
  method ValidatePipelineStructure(config: PipelineConfig, known: Option<set<string>>)
    returns (errors: seq<StructureError>)
    requires config.Valid()
    ensures exists bad :: ListsBadReferences(config.nodes, config.Ids(), bad) &&
                          errors == MissingKinds(config) + bad + UndefinedReport(config,
                              known) + UnreachableReport(config)
  {
    hide Found, WithDangling, NotFound, ListsBadReferences, Categorize, Reaches, ReachedFromAny, UndefinedReport;
    errors := [];
    if config.captureNodes == [] { errors := errors + [MissingCapture]; }
    if config.terminationNodes == [] { errors := errors + [MissingTermination]; }
    var bad := BadReferences(config.nodes, config.Ids());
    var undefined := CheckMethods(config, known);
    errors := errors + bad + undefined;
    var reachable := ReachableIds(config.Outputs(), CaptureIds(config));
    var unreachable := config.Ids() - reachable;
    UnreachableReportIs(config, reachable);
    if unreachable != {} { errors := errors + [Unreachable(unreachable)]; }
    assert ListsBadReferences(config.nodes, config.Ids(), bad);
  }

  lemma FoundWithDangling(g: Graph, starts: seq<NodeId>, v: NodeId)
    requires v in g
    ensures Found(WithDangling(g), starts, v) <==> Found(g, starts, v)
  {
    hide Reaches;
    forall a ensures Reaches(WithDangling(g), a, v) <==> Reaches(g, a, v) { DanglingIsIrrelevant(g, a, v); }
  }

  /** With a Capture present the two checkers blame the same nodes, dangling outputs or not. */
  lemma CheckersAgree(config: PipelineConfig, s: set<NodeId>)
    requires config.Valid() && config.captureNodes != []
    ensures ValidationError(OrphanedNodes, s) in OrphanReport(config) <==> Unreachable(s) in UnreachableReport(config)
  {
    hide Found, Unreached;
    forall v ensures v in Unreached(config.Outputs(), CaptureIds(config)) <==> v in NotFound(config) {
      UnreachedIsNotFound(config, v);
    }
    assert Unreached(config.Outputs(), CaptureIds(config)) == NotFound(config);
  }

  lemma UnreachedIsNotFound(config: PipelineConfig, v: NodeId)
    requires config.Valid()
    ensures v in Unreached(config.Outputs(), CaptureIds(config)) <==>
            v in config.Ids() && !Found(WithDangling(config.Outputs()), CaptureIds(config), v)
  {
    hide Found, ReachedFromAny;
    if v in config.Ids() {
      FoundWithDangling(config.Outputs(), CaptureIds(config), v);
      FoundFromCaptures(config, v);
    }
  }

  /** Without a Capture they differ: one names every node, the other none. */
  lemma CheckersDifferWithoutCapture(config: PipelineConfig)
    requires config.UniqueIds() && config.captureNodes == [] && config.nodes != []
    ensures OrphanReport(config) == [ValidationError(NoCapture, {})]
    ensures UnreachableReport(config) == [Unreachable(config.Ids())]
  {
    hide Found, WithDangling, NotFound, Unreached, PipelineConfig.UniqueIds;
    var g := config.Outputs();
    assert CaptureIds(config) == [];
    assert config.nodes[0].id in config.Ids();
    forall v ensures !Found(WithDangling(g), CaptureIds(config), v) { NothingFoundFromNowhere(WithDangling(g), v); }
    UnreachableReportIs(config, {});
    assert config.Ids() - {} == config.Ids();
    assert config.Ids() != {};
  }

  lemma NothingFoundFromNowhere(g: Graph, v: NodeId)
    ensures !Found(g, [], v)
  {
  }

  /** What the graph part of an empty report means. */
  lemma CleanGraph(config: PipelineConfig)
    requires config.Valid()
    ensures CycleReport(config) + OrphanReport(config) + DeadEndReport(config) == [] <==>
            && Acyclic(config.Outputs())
            && config.captureNodes != [] && config.terminationNodes != []
            && (forall v {:trigger ReachedFromAny(config.Outputs(), CaptureIds(config), v)} ::
                  v in config.Ids() ==> ReachedFromAny(config.Outputs(), CaptureIds(config), v))
            && (forall v {:trigger LeadsToAny(config.Outputs(), v, TerminationIds(config))} ::
                  v in config.Ids() ==> LeadsToAny(config.Outputs(), v, TerminationIds(config)))
  {
    hide ReachedFromAny, LeadsToAny, Acyclic;
    var g := config.Outputs();
    assert Unreached(g, CaptureIds(config)) == {} <==> forall v :: v in g ==> v !in Unreached(g, CaptureIds(config));
    assert Stuck(g, TerminationIds(config)) == {} <==> forall v :: v in g ==> v !in Stuck(g, TerminationIds(config));
  }

  lemma {:induction false} CleanNodes(config: PipelineConfig, k: nat)
    requires config.UniqueIds() && k <= |config.nodes|
    ensures NodeReport(config, k) == [] <==> forall i :: 0 <= i < k ==> NodeError(config, config.nodes[i]) == None
  {
    hide NodeError, PipelineConfig.UniqueIds;
    if k > 0 { CleanNodes(config, k - 1); }
  }

  lemma {:induction false} CleanMethods(n: Node, known: set<string>, k: nat)
    requires n.Process? && k <= |n.methodIds|
    ensures UnknownMethods(n, known, k) == [] <==>
              forall i :: 0 <= i < k ==> n.methodIds[i] in known || n.methodIds[i] == ""
  {
    if k > 0 { CleanMethods(n, known, k - 1); }
  }

  ghost predicate MethodsKnown(n: Node, known: set<string>)
    requires n.Process?
  {
    forall m :: m in n.methodIds ==> m in known || m == ""
  }

  lemma {:induction false} AllDefined(nodes: seq<Node>, known: set<string>)
    requires forall n :: n in nodes ==> n.Process?
    ensures Undefined(nodes, known) == [] <==> forall n :: n in nodes ==> MethodsKnown(n, known)
  {
    hide UnknownMethods;
    if nodes != [] {
      var rest, n := nodes[..|nodes| - 1], nodes[|nodes| - 1];
      assert nodes == rest + [n];
      AllDefined(rest, known);
      CleanMethods(n, known, |n.methodIds|);
      assert MethodsKnown(n, known) <==>
          forall i :: 0 <= i < |n.methodIds| ==> n.methodIds[i] in known || n.methodIds[i] == "";
    }
  }

  /** The graph-based checker reports nothing exactly when the graph is clean, no node is wrong by itself, and every
      processing method in use is configured. */
  lemma CleanReport(config: PipelineConfig, known: Option<set<string>>)
    requires config.Valid()
    ensures FullReport(config, known) == [] <==>
            && CycleReport(config) + OrphanReport(config) + DeadEndReport(config) == []
            && (forall i :: 0 <= i < |config.nodes| ==> NodeError(config, config.nodes[i]) == None)
            && (known.Some? ==> forall n :: n in config.processNodes ==> n.Process? && MethodsKnown(n, known.value))
  {
    hide CycleReport, OrphanReport, DeadEndReport, NodeReport, NodeError, Undefined, MethodsKnown, Categorize;
    hide PipelineConfig.UniqueIds;
    CleanNodes(config, |config.nodes|);
    ProcessNodesAre(config);
    if known.Some? { AllDefined(config.processNodes, known.value); }
    assert MethodReport(config, known) == [] <==> |UndefinedMethods(config, known)| == 0;
  }

  /** Every output names a node. */
  ghost predicate NothingDangles(config: PipelineConfig) {
    forall n, o :: n in config.nodes && o in n.output ==> o in config.Ids()
  }

  /** What an empty list of messages means. */
  lemma CleanMessages(config: PipelineConfig, known: Option<set<string>>, bad: seq<StructureError>)
    requires config.Valid() && ListsBadReferences(config.nodes, config.Ids(), bad)
    ensures MissingKinds(config) + bad + UndefinedReport(config, known) + UnreachableReport(config) == [] <==>
            && config.captureNodes != [] && config.terminationNodes != [] && NothingDangles(config)
            && (known.Some? ==> forall n :: n in config.processNodes ==> n.Process? && MethodsKnown(n, known.value))
            && (forall v {:trigger ReachedFromAny(config.Outputs(), CaptureIds(config), v)} ::
                  v in config.Ids() ==> ReachedFromAny(config.Outputs(), CaptureIds(config), v))
  {
    hide Undefined, MethodsKnown, Categorize, PipelineConfig.UniqueIds, ReachedFromAny, NotFound, NothingDangles;
    hide ListsBadReferences;
    NoBadReferences(config, bad);
    ProcessNodesAre(config);
    if known.Some? { AllDefined(config.processNodes, known.value); }
    assert UndefinedReport(config, known) == [] <==> |UndefinedMethods(config, known)| == 0;
    NothingUnreachable(config);
  }

  lemma NoBadReferences(config: PipelineConfig, bad: seq<StructureError>)
    requires ListsBadReferences(config.nodes, config.Ids(), bad)
    ensures bad == [] <==> NothingDangles(config)
  {
    if bad == [] {
      forall n, o | n in config.nodes && o in n.output ensures o in config.Ids() {
        assert NamedBy(config.nodes, n.id, o);
        assert BadReference(n.id, o) !in bad;
      }
    }
    if bad != [] {
      var e := bad[0];
      assert e in bad;
      var n :| n in config.nodes && n.id == e.node && e.output in n.output;
    }
  }

  lemma NothingUnreachable(config: PipelineConfig)
    requires config.Valid()
    ensures UnreachableReport(config) == [] <==>
            forall v {:trigger ReachedFromAny(config.Outputs(), CaptureIds(config), v)} ::
              v in config.Ids() ==> ReachedFromAny(config.Outputs(), CaptureIds(config), v)
  {
    hide Found, ReachedFromAny, Categorize, PipelineConfig.UniqueIds;
    forall v ensures v in NotFound(config) <==>
                     v in config.Ids() && !ReachedFromAny(config.Outputs(), CaptureIds(config), v) {
      UnreachedIsNotFound(config, v);
    }
    assert NotFound(config) == {} <==> forall v :: v !in NotFound(config);
  }

  /** On a pipeline the graph-based checker passes, the other one finds nothing but dangling references. */
  lemma CleanReportCleanMessages(config: PipelineConfig, known: Option<set<string>>, bad: seq<StructureError>)
    requires config.Valid() && ListsBadReferences(config.nodes, config.Ids(), bad) && FullReport(config, known) == []
    ensures MissingKinds(config) + bad + UndefinedReport(config, known) + UnreachableReport(config) == [] <==>
            NothingDangles(config)
  {
    hide FullReport, CycleReport, OrphanReport, DeadEndReport, NodeError, MethodsKnown, Categorize, MissingKinds;
    hide PipelineConfig.UniqueIds, UndefinedReport, UnreachableReport, NothingDangles, ReachedFromAny, LeadsToAny;
    hide Acyclic, ListsBadReferences;
    CleanReport(config, known);
    CleanGraph(config);
    CleanMessages(config, known, bad);
  }
}
