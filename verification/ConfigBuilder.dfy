/** The two ways from a server's node and edge lists to a pipeline configuration: through the database converter
    and the YAML node parser, and directly. */
module ConfigBuilding {
  import opened Options
  import opened Text
  import opened Walks
  import opened Pipelines
  import opened Runs

  // ------------------------------------------------------------ the raw data

  /** A list of method ids, or one that was not wrapped in a list. */
  datatype MethodIds = One(id: string) | Many(ids: seq<string>)

  /** The keys of a node's properties that either route reads. */
  datatype Properties = Properties(
    name: Option<string>,
    extension: Option<string>,
    method_ids: Option<MethodIds>, methodIds: Option<MethodIds>,
    pairing_type: Option<string>, pairingType: Option<string>,
    input_count: Option<int>, inputCount: Option<int>,
    condition_description: Option<string>, conditionDescription: Option<string>,
    termination_type: Option<string>, terminationType: Option<string>,
    classification: Option<string>)

  /** Ids that are missing or empty are all the one blank id, which the functions below are told. */
  datatype RawNode = RawNode(id: NodeId, kind: string, properties: Properties)

  datatype RawEdge = RawEdge(from: NodeId, source: NodeId, to: NodeId, target: NodeId)

  function Get<T>(value: Option<T>, default: T): T { if value.Some? then value.value else default }

  function Lookup<T>(m: map<NodeId, T>, id: NodeId, default: T): T { if id in m then m[id] else default }

  // ------------------------------------------------------------ node types

  function UpperChar(c: char): char { if 'a' <= c <= 'z' then c - ' ' else c }

  /** `str.capitalize` on ASCII. */
  function Capitalize(s: string): string { if s == "" then "" else [UpperChar(s[0])] + Lower(s[1..]) }

  /** Raising and lowering a letter meet at a lower-case one. */
  lemma CharFolds(c: char, k: char)
    requires 'a' <= k <= 'z'
    ensures UpperChar(c) == UpperChar(k) <==> LowerChar(c) == k
    ensures LowerChar(k) == k
  {
  }

  lemma LowerSplits(s: string)
    requires s != ""
    ensures Lower(s) == [LowerChar(s[0])] + Lower(s[1..])
  {
  }

  lemma LowerCaseStays(kind: string)
    requires forall i :: 0 <= i < |kind| ==> 'a' <= kind[i] <= 'z'
    ensures Lower(kind) == kind
  {
  }

  lemma ConsInjective(a: char, s: string, b: char, t: string)
    ensures [a] + s == [b] + t <==> a == b && s == t
  {
    if [a] + s == [b] + t {
      assert ([a] + s)[0] == a && ([a] + s)[1..] == s && ([b] + t)[0] == b && ([b] + t)[1..] == t;
    }
  }

  /** Both spellings of a node type fold the case away. */
  lemma CapitalizeMeetsLower(s: string, kind: string)
    requires kind != "" && forall i :: 0 <= i < |kind| ==> 'a' <= kind[i] <= 'z'
    ensures Capitalize(s) == Capitalize(kind) <==> Lower(s) == kind
    ensures Lower(kind) == kind
  {
    hide Lower, UpperChar, LowerChar;
    LowerCaseStays(kind);
    LowerCaseStays(kind[1..]);
    if s == "" {
      assert |Capitalize(kind)| > 0 && Lower(s) == "" by { LowerCaseStays(""); }
    } else {
      var c, k := s[0], kind[0];
      CharFolds(c, k);
      LowerSplits(s);
      ConsInjective(UpperChar(c), Lower(s[1..]), UpperChar(k), kind[1..]);
      ConsInjective(LowerChar(c), Lower(s[1..]), k, kind[1..]);
      assert kind == [k] + kind[1..];
    }
  }

  const CAPTURE := "capture"
  const FILE := "file"
  const PROCESS := "process"
  const PAIRING := "pairing"
  const BRANCHING := "branching"
  const TERMINATION := "termination"

  lemma KindsFoldAlike(s: string)
    ensures Capitalize(s) == "Capture" <==> Lower(s) == CAPTURE
    ensures Capitalize(s) == "File" <==> Lower(s) == FILE
    ensures Capitalize(s) == "Process" <==> Lower(s) == PROCESS
    ensures Capitalize(s) == "Pairing" <==> Lower(s) == PAIRING
    ensures Capitalize(s) == "Branching" <==> Lower(s) == BRANCHING
    ensures Capitalize(s) == "Termination" <==> Lower(s) == TERMINATION
  {
    hide Lower, Capitalize;
    CapitalizeMeetsLower(s, CAPTURE);
    CapitalizeMeetsLower(s, FILE);
    CapitalizeMeetsLower(s, PROCESS);
    CapitalizeMeetsLower(s, PAIRING);
    CapitalizeMeetsLower(s, BRANCHING);
    CapitalizeMeetsLower(s, TERMINATION);
    CapitalizedKinds();
  }

  lemma CapitalizedKind(kind: string, capitalized: string)
    requires kind != "" && |kind| == |capitalized| && forall i :: 0 <= i < |kind| ==> 'a' <= kind[i] <= 'z'
    requires capitalized[0] == UpperChar(kind[0]) && forall i :: 1 <= i < |kind| ==> capitalized[i] == kind[i]
    ensures Capitalize(kind) == capitalized
  {
    hide Lower, UpperChar;
    LowerCaseStays(kind[1..]);
    assert Capitalize(kind) == [UpperChar(kind[0])] + kind[1..];
  }

  lemma CapitalizedKinds()
    ensures Capitalize(CAPTURE) == "Capture" && Capitalize(FILE) == "File" && Capitalize(PROCESS) == "Process"
    ensures Capitalize(PAIRING) == "Pairing" && Capitalize(BRANCHING) == "Branching"
    ensures Capitalize(TERMINATION) == "Termination"
  {
    hide Capitalize, Lower;
    CapitalizedKind(CAPTURE, "Capture");
    CapitalizedKind(FILE, "File");
    CapitalizedKind(PROCESS, "Process");
    CapitalizedKind(PAIRING, "Pairing");
    CapitalizedKind(BRANCHING, "Branching");
    CapitalizedKind(TERMINATION, "Termination");
  }

  // ------------------------------------------------------------ the route through the database converter

  /** A node with its outputs inline, as a YAML file would spell it. */
  datatype ConfigNode = ConfigNode(
    id: NodeId, kind: string, output: seq<NodeId>,
    extension: Option<string>, methodIds: Option<MethodIds>, pairingType: Option<string>,
    inputCount: Option<int>, condition: Option<string>, terminationType: Option<string>)

  function OutputsInline(edges: seq<RawEdge>, id: NodeId): seq<NodeId> {
    if edges == [] then []
    else
      var e := edges[|edges| - 1];
      OutputsInline(edges[..|edges| - 1], id) + if e.from == id then [e.to] else []
  }

  function InputCount(edges: seq<RawEdge>, id: NodeId): nat {
    if edges == [] then 0
    else InputCount(edges[..|edges| - 1], id) + if edges[|edges| - 1].to == id then 1 else 0
  }

  function Converted(n: RawNode, edges: seq<RawEdge>): ConfigNode {
    var p, kind := n.properties, Lower(n.kind);
    ConfigNode(n.id, Capitalize(n.kind), OutputsInline(edges, n.id), p.extension, p.method_ids, p.pairing_type,
               if kind == PAIRING then Some(Get(p.input_count, InputCount(edges, n.id))) else None,
               if kind == BRANCHING then Some(Get(p.name, "User choice")) else None,
               if p.termination_type.Some? then p.termination_type else p.classification)
  }

  /** The loop over the edges: outputs and input counts per node. */
  method MapEdges(edges: seq<RawEdge>) returns (outputsByNode: map<NodeId, seq<NodeId>>, inputsCount: map<NodeId, nat>)
    ensures forall id {:trigger OutputsInline(edges, id)} :: Lookup(outputsByNode, id, []) == OutputsInline(edges, id)
    ensures forall id {:trigger InputCount(edges, id)} :: Lookup(inputsCount, id, 0) == InputCount(edges, id)
  {
    outputsByNode, inputsCount := map[], map[];
    for i := 0 to |edges|
      invariant forall id {:trigger OutputsInline(edges[..i], id)} ::
                Lookup(outputsByNode, id, []) == OutputsInline(edges[..i], id)
      invariant forall id {:trigger InputCount(edges[..i], id)} ::
                Lookup(inputsCount, id, 0) == InputCount(edges[..i], id)
    {
      var e := edges[i];
      assert edges[..i + 1][..i] == edges[..i];
      if e.from !in outputsByNode { outputsByNode := outputsByNode[e.from := []]; }
      outputsByNode := outputsByNode[e.from := outputsByNode[e.from] + [e.to]];
      ghost var before := inputsCount;
      inputsCount := inputsCount[e.to := Lookup(inputsCount, e.to, 0) + 1];
      forall id ensures Lookup(inputsCount, id, 0) == InputCount(edges[..i + 1], id) {
        assert Lookup(before, id, 0) == InputCount(edges[..i], id);
      }
    }
    assert edges[..|edges|] == edges;
  }

  method ConvertDbPipeline(nodes: seq<RawNode>, edges: seq<RawEdge>) returns (r: seq<ConfigNode>)
    ensures |r| == |nodes| && forall i :: 0 <= i < |nodes| ==> r[i] == Converted(nodes[i], edges)
  {
    hide Lower, Capitalize;
    var outputsByNode, inputsCount := MapEdges(edges);
    r := [];
    for i := 0 to |nodes|
      invariant |r| == i && forall k :: 0 <= k < i ==> r[k] == Converted(nodes[k], edges)
    {
      var n := nodes[i];
      var p := n.properties;
      var c := ConfigNode(n.id, if n.kind != "" then Capitalize(n.kind) else "", Lookup(outputsByNode, n.id, []),
                          None, None, None, None, None, None);
      assert n.kind == "" ==> Capitalize(n.kind) == "" by { CapitalizeNothing(); }
      if p.extension.Some? { c := c.(extension := p.extension); }
      if p.method_ids.Some? { c := c.(methodIds := p.method_ids); }
      if p.pairing_type.Some? { c := c.(pairingType := p.pairing_type); }
      if Lower(n.kind) == BRANCHING { c := c.(condition := Some(Get(p.name, "User choice"))); }
      if p.termination_type.Some? { c := c.(terminationType := p.termination_type); }
      if p.classification.Some? && p.termination_type.None? { c := c.(terminationType := p.classification); }
      if Lower(n.kind) == PAIRING {
        if p.input_count.Some? {
          c := c.(inputCount := p.input_count);
        } else {
          c := c.(inputCount := Some(Lookup(inputsCount, n.id, 0)));
        }
      }
      r := r + [c];
    }
  }

  lemma CapitalizeNothing()
    ensures Capitalize("") == ""
  {
  }

  function Unwrap(m: MethodIds): seq<string> { match m case One(id) => [id] case Many(ids) => ids }

  /** `parse_node_from_yaml`; no value where it raises ValueError. */
  function ParseNode(c: ConfigNode, blank: NodeId): Option<Node> {
    if c.id == blank || c.kind == "" then None
    else if c.kind == "Capture" then Some(Capture(c.id, c.output))
    else if c.kind == "File" then
      (if Get(c.extension, "") == "" then None else Some(File(c.id, c.output, Get(c.extension, ""))))
    else if c.kind == "Process" then Some(Process(c.id, c.output, Unwrap(Get(c.methodIds, Many([])))))
    else if c.kind == "Pairing" then Some(Pairing(c.id, c.output, Get(c.pairingType, ""), Get(c.inputCount, 2)))
    else if c.kind == "Branching" then Some(Branching(c.id, c.output, Get(c.condition, "")))
    else if c.kind == "Termination" then Some(Termination(c.id, c.output, Get(c.terminationType, "")))
    else None
  }

  /** What loading a pipeline by its name comes to: its configuration, or the error raised. */
  datatype Loaded =
    | Loaded(config: PipelineConfig)
    | NoPipelines
    | UnknownPipeline
    | NoNodes
    | BadNode(index: nat)

  /** The node number `i` is the first that does not parse. */
  predicate FirstBad(nodes: seq<ConfigNode>, blank: NodeId, i: nat) {
    i < |nodes| && ParseNode(nodes[i], blank).None? && forall k :: 0 <= k < i ==> ParseNode(nodes[k], blank).Some?
  }

  predicate ParsesAs(nodes: seq<ConfigNode>, blank: NodeId, parsed: seq<Node>) {
    |parsed| == |nodes| && forall i :: 0 <= i < |nodes| ==> ParseNode(nodes[i], blank) == Some(parsed[i])
  }

  /** `load_pipeline_config`: the first thing wrong is the error, and among the nodes the first that does not parse. A
      pipeline without a node list has the empty one. */
  method LoadPipelineConfig(pipelines: Option<map<string, seq<ConfigNode>>>, name: string, blank: NodeId)
    returns (r: Loaded)
    ensures r.NoPipelines? <==> pipelines == None || pipelines.value == map[]
    ensures !r.NoPipelines? ==> (r.UnknownPipeline? <==> name !in pipelines.value)
    ensures !r.NoPipelines? && !r.UnknownPipeline? ==> (r.NoNodes? <==> pipelines.value[name] == [])
    ensures r.BadNode? ==>
              && !r.NoPipelines? && !r.UnknownPipeline? && FirstBad(pipelines.value[name], blank, r.index)
    ensures r.Loaded? ==>
              && !r.NoPipelines? && !r.UnknownPipeline? && r.config == Categorize(r.config.nodes)
              && ParsesAs(pipelines.value[name], blank, r.config.nodes)
  {
    hide ParseNode, Categorize;
    if pipelines == None || pipelines.value == map[] { return NoPipelines; }
    if name !in pipelines.value { return UnknownPipeline; }
    var nodes := pipelines.value[name];
    if nodes == [] { return NoNodes; }
    var parsed: seq<Node> := [];
    for i := 0 to |nodes|
      invariant |parsed| == i && forall k :: 0 <= k < i ==> ParseNode(nodes[k], blank) == Some(parsed[k])
    {
      var n := ParseNode(nodes[i], blank);
      if n.None? { return BadNode(i); }
      parsed := parsed + [n.value];
    }
    var config := CategorizeNodes(parsed);
    r := Loaded(config);
  }

  /** The loop both loaders end with. */
  method CategorizeNodes(nodes: seq<Node>) returns (p: PipelineConfig)
    ensures p == Categorize(nodes) && p.nodes == nodes
  {
    p := PipelineConfig(nodes, [], [], [], [], [], []);
    for i := 0 to |nodes|
      invariant p == Categorize(nodes[..i]).(nodes := nodes)
    {
      var n := nodes[i];
      hide Select;
      CategorizeGrows(nodes, i);
      match n {
        case Capture(_, _) => p := p.(captureNodes := p.captureNodes + [n]);
        case File(_, _, _) => p := p.(fileNodes := p.fileNodes + [n]);
        case Process(_, _, _) => p := p.(processNodes := p.processNodes + [n]);
        case Pairing(_, _, _, _) => p := p.(pairingNodes := p.pairingNodes + [n]);
        case Branching(_, _, _) => p := p.(branchingNodes := p.branchingNodes + [n]);
        case Termination(_, _, _) => p := p.(terminationNodes := p.terminationNodes + [n]);
      }
    }
    assert nodes[..|nodes|] == nodes;
  }

  lemma SelectGrows(nodes: seq<Node>, i: nat, keep: Node -> bool)
    requires i < |nodes|
    ensures Select(nodes[..i + 1], keep) == Select(nodes[..i], keep) + if keep(nodes[i]) then [nodes[i]] else []
  {
    assert nodes[..i + 1][..i] == nodes[..i];
  }

  lemma CategorizeGrows(nodes: seq<Node>, i: nat)
    requires i < |nodes|
    ensures var p, q, n := Categorize(nodes[..i]), Categorize(nodes[..i + 1]), nodes[i];
            && q.captureNodes == p.captureNodes + (if n.Capture? then [n] else [])
            && q.fileNodes == p.fileNodes + (if n.File? then [n] else [])
            && q.processNodes == p.processNodes + (if n.Process? then [n] else [])
            && q.pairingNodes == p.pairingNodes + (if n.Pairing? then [n] else [])
            && q.branchingNodes == p.branchingNodes + (if n.Branching? then [n] else [])
            && q.terminationNodes == p.terminationNodes + (if n.Termination? then [n] else [])
  {
    hide Select;
    SelectGrows(nodes, i, (n: Node) => n.Capture?);
    SelectGrows(nodes, i, (n: Node) => n.File?);
    SelectGrows(nodes, i, (n: Node) => n.Process?);
    SelectGrows(nodes, i, (n: Node) => n.Pairing?);
    SelectGrows(nodes, i, (n: Node) => n.Branching?);
    SelectGrows(nodes, i, (n: Node) => n.Termination?);
  }

  // ------------------------------------------------------------ the direct route

  /** Python's `a or b` on ids. */
  function OrElse(a: NodeId, b: NodeId, blank: NodeId): NodeId { if a != blank then a else b }

  function OutputsDirect(edges: seq<RawEdge>, id: NodeId, blank: NodeId): seq<NodeId> {
    if edges == [] then []
    else
      var e := edges[|edges| - 1];
      var from, to := OrElse(e.from, e.source, blank), OrElse(e.to, e.target, blank);
      OutputsDirect(edges[..|edges| - 1], id, blank) + if from != blank && to != blank && from == id then [to] else []
  }

  /** One node of the direct route; no value where the node is skipped. */
  function DirectNode(n: RawNode, output: seq<NodeId>, blank: NodeId): Option<Node> {
    var p, kind := n.properties, Lower(n.kind);
    if n.id == blank || kind == "" then None
    else if kind == CAPTURE then Some(Capture(n.id, output))
    else if kind == FILE then Some(File(n.id, output, Get(p.extension, "")))
    else if kind == PROCESS then
      var m := Get(p.method_ids, Get(p.methodIds, Many([])));
      Some(Process(n.id, output, if m.Many? then m.ids else if m.id != "" then [m.id] else []))
    else if kind == PAIRING then
      Some(Pairing(n.id, output, Get(p.pairing_type, Get(p.pairingType, "")), Get(p.input_count, Get(p.inputCount, 2))))
    else if kind == BRANCHING then
      Some(Branching(n.id, output, Get(p.condition_description, Get(p.conditionDescription, ""))))
    else if kind == TERMINATION then
      Some(Termination(n.id, output, Get(p.termination_type, Get(p.terminationType, ""))))
    else None
  }

  function DirectNodes(nodes: seq<RawNode>, edges: seq<RawEdge>, blank: NodeId): seq<Node> {
    if nodes == [] then []
    else
      var n := nodes[|nodes| - 1];
      var one := DirectNode(n, OutputsDirect(edges, n.id, blank), blank);
      DirectNodes(nodes[..|nodes| - 1], edges, blank) + if one.Some? then [one.value] else []
  }

  method BuildPipelineConfig(nodes: seq<RawNode>, edges: seq<RawEdge>, blank: NodeId) returns (p: PipelineConfig)
    ensures p == Categorize(DirectNodes(nodes, edges, blank))
  {
    hide Lower, Categorize, DirectNode;
    var outputMap: map<NodeId, seq<NodeId>> := map[];
    for i := 0 to |edges|
      invariant forall id {:trigger OutputsDirect(edges[..i], id, blank)} ::
                  Lookup(outputMap, id, []) == OutputsDirect(edges[..i], id, blank)
    {
      var e := edges[i];
      assert edges[..i + 1][..i] == edges[..i];
      var from, to := OrElse(e.from, e.source, blank), OrElse(e.to, e.target, blank);
      if from != blank && to != blank {
        if from !in outputMap { outputMap := outputMap[from := []]; }
        outputMap := outputMap[from := outputMap[from] + [to]];
      }
    }
    assert edges[..|edges|] == edges;
    var built: seq<Node> := [];
    for i := 0 to |nodes|
      invariant built == DirectNodes(nodes[..i], edges, blank)
    {
      assert nodes[..i + 1][..i] == nodes[..i];
      var one := DirectNode(nodes[i], Lookup(outputMap, nodes[i].id, []), blank);
      if one.Some? { built := built + [one.value]; }
    }
    assert nodes[..|nodes|] == nodes;
    p := CategorizeNodes(built);
  }

  // ------------------------------------------------------------ what agreement means

  /** Same id, kind and outputs, and the same in all that decides runs and file names. */
  predicate SameMeaning(a: Node, b: Node) {
    && a.id == b.id && a.output == b.output
    && match a
       case Capture(_, _) => b.Capture?
       case File(_, _, extension) => b.File? && b.extension == extension
       case Process(_, _, _) => b.Process? && Methods(a) == Methods(b)
       case Pairing(_, _, pairingType, _) => b.Pairing? && b.pairingType == pairingType
       case Branching(_, _, _) => b.Branching?
       case Termination(_, _, terminationType) => b.Termination? && b.terminationType == terminationType
  }

  ghost predicate SameNodes(a: seq<Node>, b: seq<Node>) {
    |a| == |b| && forall i :: 0 <= i < |a| ==> SameMeaning(a[i], b[i])
  }

  /** Both routes read the edges out of `id` alike: an edge that names it under "from" names a node under "to", and an
      edge that names it under "source" alone leads nowhere. */
  predicate PlainEdges(edges: seq<RawEdge>, id: NodeId, blank: NodeId) {
    forall i :: 0 <= i < |edges| ==>
      && (edges[i].from == id ==> edges[i].to != blank)
      && (edges[i].from == blank && edges[i].source == id ==> edges[i].to == blank && edges[i].target == blank)
  }

  /** The methods a list of method ids offers. */
  function Offered(m: Option<MethodIds>): seq<string> {
    var ids := Unwrap(Get(m, Many([])));
    if ids == [] then [""] else ids
  }

  /** What both routes read alike: an id, a known type, a file extension, no key that only one route knows, and its
      edges. */
  predicate Plain(n: RawNode, edges: seq<RawEdge>, blank: NodeId) {
    var p, kind := n.properties, Lower(n.kind);
    && n.id != blank
    && kind in {CAPTURE, FILE, PROCESS, PAIRING, BRANCHING, TERMINATION}
    && (kind == FILE ==> Get(p.extension, "") != "")
    && (kind == PROCESS ==> p.method_ids.Some? || Offered(p.methodIds) == [""])
    && (kind == PAIRING ==> p.pairing_type.Some? || Get(p.pairingType, "") == "")
    && (kind == TERMINATION ==> p.termination_type.Some? || Get(p.classification, "") == Get(p.terminationType, ""))
    && PlainEdges(edges, n.id, blank)
  }

  lemma PlainEdgesSplit(edges: seq<RawEdge>, id: NodeId, blank: NodeId)
    requires edges != []
    ensures var rest, e := edges[..|edges| - 1], edges[|edges| - 1];
            PlainEdges(edges, id, blank) <==> PlainEdges(rest, id, blank) && PlainEdges([e], id, blank)
  {
    assert edges == edges[..|edges| - 1] + [edges[|edges| - 1]];
  }

  /** The blank id is never an output of the direct route, and the inline outputs have it exactly where an edge lacks
      "to". */
  lemma {:induction false} BlankOutputs(edges: seq<RawEdge>, id: NodeId, blank: NodeId)
    ensures blank !in OutputsDirect(edges, id, blank)
    ensures blank in OutputsInline(edges, id) <==> exists e :: e in edges && e.from == id && e.to == blank
  {
    if edges != [] {
      BlankOutputs(edges[..|edges| - 1], id, blank);
      assert edges == edges[..|edges| - 1] + [edges[|edges| - 1]];
    }
  }

  /** Where no edge lacks "to", the direct route finds the inline outputs, and more if an edge is spelled otherwise. */
  lemma {:induction false} DirectFindsMore(edges: seq<RawEdge>, id: NodeId, blank: NodeId)
    requires id != blank && forall e :: e in edges && e.from == id ==> e.to != blank
    ensures |OutputsInline(edges, id)| <= |OutputsDirect(edges, id, blank)|
    ensures PlainEdges(edges, id, blank) <==> |OutputsInline(edges, id)| == |OutputsDirect(edges, id, blank)|
    ensures PlainEdges(edges, id, blank) ==> OutputsInline(edges, id) == OutputsDirect(edges, id, blank)
  {
    if edges != [] {
      var rest, e := edges[..|edges| - 1], edges[|edges| - 1];
      assert edges == rest + [e];
      DirectFindsMore(rest, id, blank);
      PlainEdgesSplit(edges, id, blank);
    }
  }

  /** The outputs of a node come out alike exactly when its edges are plain. */
  lemma OutputsAgreeExactly(edges: seq<RawEdge>, id: NodeId, blank: NodeId)
    requires id != blank
    ensures OutputsInline(edges, id) == OutputsDirect(edges, id, blank) <==> PlainEdges(edges, id, blank)
  {
    BlankOutputs(edges, id, blank);
    if e :| e in edges && e.from == id && e.to == blank {
      var i :| 0 <= i < |edges| && edges[i] == e;
      assert blank in OutputsInline(edges, id);
    } else {
      DirectFindsMore(edges, id, blank);
    }
  }

  /** Node by node: the two routes both produce a node, and the same one, exactly when the node is plain. */
  lemma NodeRoutesAgreeExactly(n: RawNode, edges: seq<RawEdge>, blank: NodeId)
    ensures var a, b := ParseNode(Converted(n, edges), blank), DirectNode(n, OutputsDirect(edges, n.id, blank), blank);
            && (a.Some? ==> b.Some?)
            && (a.Some? && SameMeaning(a.value, b.value) <==> Plain(n, edges, blank))
  {
    hide Lower, Capitalize, OutputsInline, OutputsDirect, InputCount, PlainEdges;
    if n.id != blank { OutputsAgreeExactly(edges, n.id, blank); }
    KindsFoldAlike(n.kind);
    CapitalizeNothing();
  }

  lemma {:induction false} DirectNodesAlign(nodes: seq<RawNode>, edges: seq<RawEdge>, blank: NodeId)
    requires forall i :: 0 <= i < |nodes| ==>
              DirectNode(nodes[i], OutputsDirect(edges, nodes[i].id, blank), blank).Some?
    ensures var built := DirectNodes(nodes, edges, blank);
            |built| == |nodes| && forall i :: 0 <= i < |nodes| ==>
              DirectNode(nodes[i], OutputsDirect(edges, nodes[i].id, blank), blank) == Some(built[i])
  {
    hide DirectNode, OutputsDirect;
    if nodes != [] {
      DirectNodesAlign(nodes[..|nodes| - 1], edges, blank);
      var n := nodes[|nodes| - 1];
      assert DirectNode(n, OutputsDirect(edges, n.id, blank), blank).Some?;
    }
  }

  /** What the first route makes of all nodes, where it raises nothing. */
  ghost predicate Parses(nodes: seq<RawNode>, edges: seq<RawEdge>, blank: NodeId, parsed: seq<Node>) {
    && nodes != [] && |parsed| == |nodes|
    && forall i :: 0 <= i < |nodes| ==> ParseNode(Converted(nodes[i], edges), blank) == Some(parsed[i])
  }

  /** The routes agree on a pipeline exactly when it has nodes and all are plain. */
  lemma RoutesAgreeExactly(nodes: seq<RawNode>, edges: seq<RawEdge>, blank: NodeId)
    ensures (exists parsed ::
              Parses(nodes, edges, blank, parsed) && SameNodes(parsed, DirectNodes(nodes, edges, blank))) <==>
            nodes != [] && forall i :: 0 <= i < |nodes| ==> Plain(nodes[i], edges, blank)
  {
    hide Plain, ParseNode, DirectNode, DirectNodes, Converted, OutputsDirect, SameMeaning;
    var built := DirectNodes(nodes, edges, blank);
    forall i | 0 <= i < |nodes|
      ensures var a := ParseNode(Converted(nodes[i], edges), blank);
              var b := DirectNode(nodes[i], OutputsDirect(edges, nodes[i].id, blank), blank);
              && (a.Some? ==> b.Some?) && (a.Some? && SameMeaning(a.value, b.value) <==> Plain(nodes[i], edges, blank))
    {
      NodeRoutesAgreeExactly(nodes[i], edges, blank);
    }
    if parsed :| Parses(nodes, edges, blank, parsed) && SameNodes(parsed, built) {
      DirectNodesAlign(nodes, edges, blank);
    }
    if nodes != [] && forall i :: 0 <= i < |nodes| ==> Plain(nodes[i], edges, blank) {
      var parsed := seq(|nodes|, i requires 0 <= i < |nodes| && ParseNode(Converted(nodes[i], edges), blank).Some? =>
                                   ParseNode(Converted(nodes[i], edges), blank).value);
      DirectNodesAlign(nodes, edges, blank);
      assert Parses(nodes, edges, blank, parsed) && SameNodes(parsed, built);
    }
  }
}
