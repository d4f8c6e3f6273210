/** Pipeline nodes and configurations. */
module Pipelines {
  import opened Walks

  datatype Node =
    | Capture(id: NodeId, output: seq<NodeId>)
    | File(id: NodeId, output: seq<NodeId>, extension: string)
    | Process(id: NodeId, output: seq<NodeId>, methodIds: seq<string>)
    | Pairing(id: NodeId, output: seq<NodeId>, pairingType: string, inputCount: int)
    | Branching(id: NodeId, output: seq<NodeId>, condition: string)
    | Termination(id: NodeId, output: seq<NodeId>, terminationType: string)
  {
    /** The kinds whose visits on one path are capped. */
    predicate Limited() { File? || Process? || Branching? }

    /** A Process node with several methods, which the searches treat as parallel branches. */
    predicate ManyMethods() { Process? && |methodIds| > 1 }
  }

  function Select(nodes: seq<Node>, keep: Node -> bool): (r: seq<Node>)
    ensures forall n :: n in r <==> n in nodes && keep(n)
  {
    if nodes == [] then []
    else
      var r := Select(nodes[..|nodes| - 1], keep);
      var n := nodes[|nodes| - 1];
      assert nodes == nodes[..|nodes| - 1] + [n];
      if keep(n) then r + [n] else r
  }

  /** The nodes in definition order, and the same nodes sorted into one list per kind. */
  datatype PipelineConfig = PipelineConfig(
    nodes: seq<Node>,
    captureNodes: seq<Node>,
    fileNodes: seq<Node>,
    processNodes: seq<Node>,
    pairingNodes: seq<Node>,
    branchingNodes: seq<Node>,
    terminationNodes: seq<Node>)
  {
    predicate UniqueIds() { forall i, j :: 0 <= i < j < |nodes| ==> nodes[i].id != nodes[j].id }

    /** What the loaders guarantee, and what every dictionary lookup by id relies on. */
    predicate Valid() {
      && UniqueIds()
      && this == Categorize(nodes)
    }

    function Ids(): set<NodeId> { set n | n in nodes :: n.id }

    /** `{node.id: node for node in nodes}`. */
    function Lookup(): (m: map<NodeId, Node>)
      requires UniqueIds()
      ensures m.Keys == Ids()
      ensures forall id :: id in m ==> m[id] in nodes && m[id].id == id
      ensures forall n :: n in nodes ==> n.id in m && m[n.id] == n
    {
      map n | n in nodes :: n.id := n
    }

    /** Output lists as the nodes spell them, dangling references included. */
    function Outputs(): (g: Graph)
      requires UniqueIds()
      ensures g.Keys == Ids()
      ensures forall n :: n in nodes ==> n.id in g && g[n.id] == n.output
    {
      map id | id in Lookup() :: Lookup()[id].output
    }
  }

  function Categorize(nodes: seq<Node>): PipelineConfig {
    PipelineConfig(
      nodes,
      Select(nodes, (n: Node) => n.Capture?),
      Select(nodes, (n: Node) => n.File?),
      Select(nodes, (n: Node) => n.Process?),
      Select(nodes, (n: Node) => n.Pairing?),
      Select(nodes, (n: Node) => n.Branching?),
      Select(nodes, (n: Node) => n.Termination?))
  }
}
