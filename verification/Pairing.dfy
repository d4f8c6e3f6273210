/** dfs_to_target: depth-first search that returns its paths and may aim at one node. */
module TargetSearch {
  import opened Options
  import opened Walks
  import opened Runs
  import opened SearchSteps
  import opened Listings

  /** The paths `found`, each behind the path `base` the search was started on. */
  function Behind(base: Path, found: seq<Path>): (r: seq<Path>)
    ensures |r| == |found| && forall i :: 0 <= i < |r| ==> r[i] == base + found[i]
  {
    seq(|found|, i requires 0 <= i < |found| => base + found[i])
  }

  lemma BehindConcat(base: Path, a: seq<Path>, b: seq<Path>)
    ensures Behind(base, a + b) == Behind(base, a) + Behind(base, b)
  {
  }

  /** A search with a target turns back at Pairing nodes, the target included. */
  predicate Aims(nodes: Nodes, m: Mode) {
    m.policy != Raise && (m.target.Some? ==> m.target.value in nodes && m.policy == TurnBack)
  }

  /** `id` is the Pairing node the search aims at: the path so far is the result. */
  predicate AimedAt(nodes: Nodes, m: Mode, id: NodeId) { id in nodes && nodes[id].Pairing? && m.target == Some(id) }

  /** What a search finds at `id`. */
  ghost function Aimed(nodes: Nodes, m: Mode, start: NodeId, s: Path, id: NodeId): seq<Path>
    requires Keyed(nodes) && Acyclic(FreeGraph(nodes, m)) && Chain(nodes, m, start, s)
    requires id in nodes ==> Next(nodes, start, s, id)
  {
    if AimedAt(nodes, m, id) then [s] else RunsVia(nodes, m, start, s, id)
  }

  /** The paths are `path` continued through `id` by the runs, in their order; the search starts counting afresh behind
      `base`. */
  method DfsToTarget(nodes: Nodes, m: Mode, ghost start: NodeId, ghost base: Path, ghost s: Path,
                     id: NodeId, path: Path, counts: map<NodeId, int>)
    returns (paths: seq<Path>)
    requires Keyed(nodes) && Aims(nodes, m) && Acyclic(FreeGraph(nodes, m))
    requires path == base + s && Chain(nodes, m, start, s) && CountsMatch(nodes, counts, s)
    requires id in nodes ==> Next(nodes, start, s, id)
    ensures paths == Behind(base, Aimed(nodes, m, start, s, id))
    decreases Budget(nodes) - Spent(nodes, s), |FreeGraph(nodes, m)| - |TrailingFree(s)|, 1
  {
    hide Acyclic, FreeGraph, Chain, Next, Visits, Spent, TrailingFree, RunsOnward, RunsByMethod;
    if id !in nodes { return []; }
    var n := nodes[id];
    if n.Limited() && Count(counts, id) >= MAX_ITERATIONS {
      assert path + [Truncated] == base + (s + [Truncated]);
      return [path + [Truncated]];
    }
    var counts' := if n.Limited() then counts[id := Count(counts, id) + 1] else counts;
    if n.ManyMethods() {
      paths := ToTargetByMethod(nodes, m, start, base, s, id, path, counts', counts);
      return;
    }
    var e := NodeInfo(n);
    assert path + [e] == base + (s + [e]);
    if n.Termination? { return [path + [e]]; }
    if n.Pairing? && m.target == Some(id) { return [path]; }
    if n.Pairing? && m.policy == TurnBack { return []; }
    if m.target == Some(id) { return [path + [e]]; }
    SearchHalts(nodes, m, start, s, id, e);
    CountsAppend(nodes, counts, s, id, e);
    paths := ToTargetOnward(nodes, m, start, base, s + [e], path + [e], counts', n.output, false);
  }

  /** The loop over outputs. An ordinary node skips Pairing outputs; a branch for one of many methods enters them. */
  method ToTargetOnward(nodes: Nodes, m: Mode, ghost start: NodeId, ghost base: Path, ghost s: Path,
                        path: Path, counts: map<NodeId, int>, output: seq<NodeId>, many: bool)
    returns (paths: seq<Path>)
    requires Keyed(nodes) && Aims(nodes, m) && Acyclic(FreeGraph(nodes, m))
    requires path == base + s && Chain(nodes, m, start, s) && CountsMatch(nodes, counts, s)
    requires s != [] && Visit(nodes, m, s[|s| - 1]) && nodes[s[|s| - 1].id].output == output
    ensures paths == Behind(base, RunsOnward(nodes, m, start, s, many, |output|))
    decreases Budget(nodes) - Spent(nodes, s), |FreeGraph(nodes, m)| - |TrailingFree(s)|, 2
  {
    hide Acyclic, FreeGraph, Chain, Visits, Spent, TrailingFree, RunsVia, Behind;
    paths := [];
    BehindNone(base);
    for k := 0 to |output|
      invariant paths == Behind(base, RunsOnward(nodes, m, start, s, many, k))
    {
      var next := output[k];
      var more: seq<Path>;
      BehindOne(base, s);
      BehindNone(base);
      if !many && m.policy == TurnBack && next in nodes && nodes[next].Pairing? {
        NothingThrough(nodes, m, start, s, next);
        if m.target == None { more := [path]; } else { more := []; }
      } else {
        more := DfsToTarget(nodes, m, start, base, s, next, path, counts);
      }
      BehindConcat(base, RunsOnward(nodes, m, start, s, many, k),
                   if StopsAt(nodes, m, many, next) then [s] else RunsVia(nodes, m, start, s, next));
      paths := paths + more;
    }
  }

  method ToTargetByMethod(nodes: Nodes, m: Mode, ghost start: NodeId, ghost base: Path, ghost s: Path,
                          id: NodeId, path: Path, counts: map<NodeId, int>, ghost c: map<NodeId, int>)
    returns (paths: seq<Path>)
    requires Keyed(nodes) && Aims(nodes, m) && Acyclic(FreeGraph(nodes, m))
    requires path == base + s && Chain(nodes, m, start, s)
    requires id in nodes && nodes[id].ManyMethods() && Next(nodes, start, s, id) && Room(nodes, s, id)
    requires CountsMatch(nodes, c, s) && counts == Counting(nodes, c, id)
    ensures paths == Behind(base, RunsByMethod(nodes, m, start, s, id, |nodes[id].methodIds|))
    decreases Budget(nodes) - Spent(nodes, s), |FreeGraph(nodes, m)| - |TrailingFree(s)|, 0
  {
    hide Acyclic, FreeGraph, Chain, Next, Visits, Spent, TrailingFree, CountsMatch, Room, RunsOnward, Behind;
    var n := nodes[id];
    paths := [];
    BehindNone(base);
    for j := 0 to |n.methodIds|
      invariant paths == Behind(base, RunsByMethod(nodes, m, start, s, id, j))
    {
      var e := ProcessStep(id, n.methodIds[j]);
      SearchHalts(nodes, m, start, s, id, e);
      CountsAppend(nodes, c, s, id, e);
      assert path + [e] == base + (s + [e]);
      var more := ToTargetOnward(nodes, m, start, base, s + [e], path + [e], counts, n.output, true);
      BehindConcat(base, RunsByMethod(nodes, m, start, s, id, j),
                   RunsOnward(nodes, m, start, s + [e], true, |n.output|));
      paths := paths + more;
    }
  }

  lemma BehindNone(base: Path)
    ensures Behind(base, []) == []
  {
  }

  lemma BehindOne(base: Path, s: Path)
    ensures Behind(base, [s]) == [base + s]
  {
  }

  /** Nothing goes through a Pairing node the search turns back at. */
  lemma NothingThrough(nodes: Nodes, m: Mode, start: NodeId, s: Path, id: NodeId)
    requires Keyed(nodes) && Acyclic(FreeGraph(nodes, m)) && Chain(nodes, m, start, s)
    requires id in nodes && Next(nodes, start, s, id) && nodes[id].Pairing? && m.policy == TurnBack
    ensures RunsVia(nodes, m, start, s, id) == []
  {
    hide Acyclic, FreeGraph, Chain, Next;
  }
}

/** The building blocks of enumerate_paths_with_pairing: inputs, searches from the Captures, merging, going onward. */
module PairingPieces {
  import opened Options
  import opened Walks
  import opened Pipelines
  import opened TopologicalOrders
  import opened PipelineGraphs
  import opened Runs
  import opened Merging
  import opened SearchSteps
  import opened Listings
  import opened Enumeration
  import opened TargetSearch

  /** From a Capture to an input of the Pairing node. */
  function Towards(v: NodeId): Mode { Mode(Some(v), TurnBack) }

  /** From a Capture to a Termination without touching the Pairing node. */
  const AROUND := Mode(None, TurnBack)

  /** From an output of the Pairing node onwards. */
  const ONWARD := Mode(None, GoThrough)

  // ------------------------------------------------------------ the two inputs

  /** The nodes that list `id` as an output, in definition order; listing it twice makes one input. */
  function InputIds(nodes: seq<Node>, id: NodeId): seq<NodeId> {
    NodeIds(Select(nodes, (n: Node) => id in n.output))
  }

  method ValidatePairingNodeInputs(nodes: seq<Node>, id: NodeId) returns (inputs: Option<(NodeId, NodeId)>)
    ensures inputs.Some? <==> |InputIds(nodes, id)| == 2
    ensures inputs.Some? ==> InputIds(nodes, id) == [inputs.value.0, inputs.value.1]
  {
    var inputIds: seq<NodeId> := [];
    for i := 0 to |nodes|
      invariant inputIds == InputIds(nodes[..i], id)
    {
      assert nodes[..i + 1][..i] == nodes[..i];
      if id in nodes[i].output { inputIds := inputIds + [nodes[i].id]; }
    }
    assert nodes[..|nodes|] == nodes;
    inputs := if |inputIds| == 2 then Some((inputIds[0], inputIds[1])) else None;
  }

  ghost predicate Feeds(nodes: seq<Node>, v: NodeId, id: NodeId) {
    exists n :: n in nodes && n.id == v && id in n.output
  }

  /** `a` and `b` are the inputs of `id`, and there is no third. */
  ghost predicate OnlyInputs(nodes: seq<Node>, id: NodeId, a: NodeId, b: NodeId) {
    a != b && forall v :: Feeds(nodes, v, id) <==> v == a || v == b
  }

  lemma InputIdsMembers(nodes: seq<Node>, id: NodeId)
    requires forall i, j :: 0 <= i < j < |nodes| ==> nodes[i].id != nodes[j].id
    ensures forall v :: v in InputIds(nodes, id) <==> Feeds(nodes, v, id)
    ensures forall i, j :: 0 <= i < j < |InputIds(nodes, id)| ==> InputIds(nodes, id)[i] != InputIds(nodes, id)[j]
  {
    var ins := Select(nodes, (n: Node) => id in n.output);
    forall v ensures v in InputIds(nodes, id) <==> Feeds(nodes, v, id) {
      if v in InputIds(nodes, id) {
        var k :| 0 <= k < |ins| && InputIds(nodes, id)[k] == v;
        assert ins[k] in ins;
      }
      if n :| n in nodes && n.id == v && id in n.output {
        assert n in ins;
        var k :| 0 <= k < |ins| && ins[k] == n;
        assert InputIds(nodes, id)[k] == v;
      }
    }
    SelectKeepsIdsApart(nodes, (n: Node) => id in n.output);
  }

  lemma {:induction false} SelectKeepsIdsApart(nodes: seq<Node>, keep: Node -> bool)
    requires forall i, j :: 0 <= i < j < |nodes| ==> nodes[i].id != nodes[j].id
    ensures forall i, j :: 0 <= i < j < |Select(nodes, keep)| ==> Select(nodes, keep)[i].id != Select(nodes, keep)[j].id
  {
    if nodes != [] {
      var rest, n := nodes[..|nodes| - 1], nodes[|nodes| - 1];
      SelectKeepsIdsApart(rest, keep);
      forall x | x in Select(rest, keep) ensures x.id != n.id {
        assert x in rest;
      }
    }
  }

  /** The input check passes exactly when two different nodes, and no third, feed the Pairing node. */
  lemma TwoInputsExactly(nodes: seq<Node>, id: NodeId)
    requires forall i, j :: 0 <= i < j < |nodes| ==> nodes[i].id != nodes[j].id
    ensures |InputIds(nodes, id)| == 2 <==>
            exists a, b :: OnlyInputs(nodes, id, a, b)
  {
    var ins := InputIds(nodes, id);
    InputIdsMembers(nodes, id);
    if |ins| == 2 {
      assert OnlyInputs(nodes, id, ins[0], ins[1]);
    }
    if a, b :| OnlyInputs(nodes, id, a, b) {
      forall v ensures v in ins <==> v == a || v == b { var f := Feeds(nodes, v, id); }
      TwoMembers(ins, a, b);
    }
  }

  lemma TwoMembers(s: seq<NodeId>, a: NodeId, b: NodeId)
    requires forall i, j :: 0 <= i < j < |s| ==> s[i] != s[j]
    requires a != b && forall v :: v in s <==> v == a || v == b
    ensures |s| == 2
  {
    DistinctCardinality(s);
    assert Elements(s) == {a, b};
  }

  /** Counting entries instead of nodes finds more inputs exactly where a node lists the Pairing node repeatedly. */
  lemma {:induction false} EntriesAndInputs(nodes: seq<Node>, id: NodeId)
    ensures |InputIds(nodes, id)| <= Entries(nodes, id)
    ensures |InputIds(nodes, id)| == Entries(nodes, id) <==> forall n :: n in nodes ==> Total(n.output, id) <= 1
  {
    hide Total;
    if nodes != [] {
      var rest, n := nodes[..|nodes| - 1], nodes[|nodes| - 1];
      assert nodes == rest + [n];
      EntriesAndInputs(rest, id);
      TotalPositive(n.output, id);
    }
  }

  /** The structure checker and the enumeration disagree on a Pairing node that one of them accepts exactly when some
      node lists it more than once: the one counts entries, the other nodes. */
  lemma InputChecksDifferExactly(nodes: seq<Node>, id: NodeId)
    requires Entries(nodes, id) == 2 || |InputIds(nodes, id)| == 2
    ensures Entries(nodes, id) != |InputIds(nodes, id)| <==> exists n :: n in nodes && Total(n.output, id) > 1
    ensures (Entries(nodes, id) == 2 && |InputIds(nodes, id)| == 2) <==>
              forall n :: n in nodes ==> Total(n.output, id) <= 1
  {
    hide Total, Entries, InputIds;
    EntriesAndInputs(nodes, id);
  }

  // ------------------------------------------------------------ the pieces of the algorithm

  lemma BehindNothing(found: seq<Path>)
    ensures Behind([], found) == found
  {
    forall i | 0 <= i < |found| ensures Behind([], found)[i] == found[i] {
      assert [] + found[i] == found[i];
    }
  }

  /** A search of its own from `start`, behind `base`: its paths are the runs from there. */
  method FreshSearch(nodes: Nodes, m: Mode, base: Path, start: NodeId) returns (paths: seq<Path>)
    requires Keyed(nodes) && Aims(nodes, m) && Acyclic(FreeGraph(nodes, m)) && !AimedAt(nodes, m, start)
    ensures paths == Behind(base, RunsFrom(nodes, m, start))
  {
    hide Acyclic, FreeGraph, Visits, RunsVia, Behind;
    NoVisitsYet(nodes);
    EmptyChain(nodes, m, start);
    assert base + [] == base;
    paths := DfsToTarget(nodes, m, start, base, [], start, base, map[]);
  }

  /** One search per Capture, all results in one list. */
  method PathsFromCaptures(nodes: Nodes, m: Mode, captures: seq<Node>) returns (paths: seq<Path>)
    requires Keyed(nodes) && Aims(nodes, m) && Acyclic(FreeGraph(nodes, m))
    requires forall c :: c in captures && c.id in nodes ==> !nodes[c.id].Pairing?
    ensures paths == CaptureRuns(nodes, m, captures)
  {
    hide Acyclic, FreeGraph, RunsFrom, Behind;
    paths := [];
    for i := 0 to |captures|
      invariant paths == CaptureRuns(nodes, m, captures[..i])
    {
      var more := FreshSearch(nodes, m, [], captures[i].id);
      BehindNothing(RunsFrom(nodes, m, captures[i].id));
      GatherStep(captures, RunsOf(nodes, m), i);
      paths := paths + more;
    }
    assert captures[..|captures|] == captures;
  }

  ghost function MergeOf(p1: Path): Path -> seq<Path> { p2 => [Merge(p1, p2)] }
  ghost function MergesWith(paths2: seq<Path>): Path -> seq<Path> { p1 => Gather(paths2, MergeOf(p1)) }

  /** Every path of the one list merged with every path of the other. */
  ghost function AllMerges(paths1: seq<Path>, paths2: seq<Path>): seq<Path> { Gather(paths1, MergesWith(paths2)) }

  method MergeAll(paths1: seq<Path>, paths2: seq<Path>) returns (merged: seq<Path>)
    ensures merged == AllMerges(paths1, paths2)
  {
    hide Merge;
    merged := [];
    for i := 0 to |paths1|
      invariant merged == Gather(paths1[..i], MergesWith(paths2))
    {
      ghost var before := merged;
      for j := 0 to |paths2|
        invariant merged == before + Gather(paths2[..j], MergeOf(paths1[i]))
      {
        var t := MergeTwoPaths(paths1[i], paths2[j]);
        GatherStep(paths2, MergeOf(paths1[i]), j);
        merged := merged + [t];
      }
      assert paths2[..|paths2|] == paths2;
      GatherStep(paths1, MergesWith(paths2), i);
    }
    assert paths1[..|paths1|] == paths1;
  }

  lemma MergesExactly(paths1: seq<Path>, paths2: seq<Path>, t: Path)
    ensures t in AllMerges(paths1, paths2) <==>
            exists p1, p2 {:trigger Merge(p1, p2)} :: p1 in paths1 && p2 in paths2 && t == Merge(p1, p2)
  {
    hide Merge;
    GatherMembers(paths1, MergesWith(paths2), t);
    forall i | 0 <= i < |paths1|
      ensures t in MergesWith(paths2)(paths1[i]) <==> exists j :: 0 <= j < |paths2| && t == Merge(paths1[i], paths2[j])
    {
      GatherMembers(paths2, MergeOf(paths1[i]), t);
    }
  }

  /** `t` is `base` followed by a run from one of `ids`. */
  ghost predicate Onward(nodes: Nodes, m: Mode, base: Path, ids: seq<NodeId>, t: Path) {
    exists k, q :: 0 <= k < |ids| && Run(nodes, m, ids[k], q) && t == base + q
  }

  ghost function RunsBehind(nodes: Nodes, m: Mode, base: Path): NodeId -> seq<Path>
    requires Keyed(nodes) && Acyclic(FreeGraph(nodes, m))
  {
    x => Behind(base, RunsFrom(nodes, m, x))
  }

  /** `base` continued by the runs from each of `ids`. */
  ghost function OnwardRuns(nodes: Nodes, m: Mode, base: Path, ids: seq<NodeId>): seq<Path>
    requires Keyed(nodes) && Acyclic(FreeGraph(nodes, m))
  {
    Gather(ids, RunsBehind(nodes, m, base))
  }

  /** Continue one merged path from each output of the Pairing node, with fresh counts. */
  method ContinueOnward(nodes: Nodes, m: Mode, base: Path, ids: seq<NodeId>) returns (paths: seq<Path>)
    requires Keyed(nodes) && m.target == None && m.policy != Raise && Acyclic(FreeGraph(nodes, m))
    ensures paths == OnwardRuns(nodes, m, base, ids)
  {
    hide Acyclic, FreeGraph, RunsFrom, Behind;
    paths := [];
    for k := 0 to |ids|
      invariant paths == Gather(ids[..k], RunsBehind(nodes, m, base))
    {
      var more := FreshSearch(nodes, m, base, ids[k]);
      GatherStep(ids, RunsBehind(nodes, m, base), k);
      paths := paths + more;
    }
    assert ids[..|ids|] == ids;
  }

  lemma OnwardRunsExactly(nodes: Nodes, m: Mode, base: Path, ids: seq<NodeId>, t: Path)
    requires Keyed(nodes) && Acyclic(FreeGraph(nodes, m))
    ensures t in OnwardRuns(nodes, m, base, ids) <==> Onward(nodes, m, base, ids, t)
  {
    hide Run, RunsFrom, Acyclic, FreeGraph;
    GatherMembers(ids, RunsBehind(nodes, m, base), t);
    forall k | 0 <= k < |ids|
      ensures t in RunsBehind(nodes, m, base)(ids[k]) <==> exists q :: Run(nodes, m, ids[k], q) && t == base + q
    {
      BehindRuns(nodes, m, base, ids[k], t);
    }
  }

  /** What one search found, behind its base, are the runs from its start, behind that base. */
  lemma BehindRuns(nodes: Nodes, m: Mode, base: Path, start: NodeId, t: Path)
    requires Keyed(nodes) && Acyclic(FreeGraph(nodes, m))
    ensures t in Behind(base, RunsFrom(nodes, m, start)) <==> exists q :: Run(nodes, m, start, q) && t == base + q
  {
    hide Run, RunsFrom, Acyclic, FreeGraph;
    var found := RunsFrom(nodes, m, start);
    forall q ensures q in found <==> Run(nodes, m, start, q) { RunsFromExactly(nodes, m, start, q); }
    if q :| Run(nodes, m, start, q) && t == base + q {
      var f :| 0 <= f < |found| && found[f] == q;
      assert Behind(base, found)[f] == t;
    }
    if t in Behind(base, found) {
      var f :| 0 <= f < |found| && Behind(base, found)[f] == t;
      assert found[f] in found;
    }
  }

  /** A path whose last entry has type 'Termination': a real end or a truncation marker. */
  predicate LooksEnded(t: Path) { t != [] && (t[|t| - 1].EndStep? || t[|t| - 1].Truncated?) }

  method KeepEnded(paths: seq<Path>) returns (ended: seq<Path>)
    ensures ended == Kept(paths, LooksEnded)
  {
    ended := [];
    for i := 0 to |paths|
      invariant ended == Kept(paths[..i], LooksEnded)
    {
      assert paths[..i + 1][..i] == paths[..i];
      if LooksEnded(paths[i]) { ended := ended + [paths[i]]; }
    }
    assert paths[..|paths|] == paths;
  }

  lemma FewerFreeNodes(nodes: Nodes, m: Mode)
    requires Acyclic(FreeGraph(nodes, ONWARD))
    ensures Acyclic(FreeGraph(nodes, m))
  {
    forall w ensures !Closed(FreeGraph(nodes, m), w) {
      if Closed(FreeGraph(nodes, m), w) {
        forall i | 0 <= i < |w| - 1 ensures Edge(FreeGraph(nodes, ONWARD), w[i], w[i + 1]) {
          assert Edge(FreeGraph(nodes, m), w[i], w[i + 1]);
        }
        assert Closed(FreeGraph(nodes, ONWARD), w);
      }
    }
  }
}

/** enumerate_paths_with_pairing: the Pairing nodes one after the other, each stage starting from the paths the stage
    before it left open. */
module PairingEnumeration {
  import opened Options
  import opened Sorting
  import opened Text
  import opened Walks
  import opened Pipelines
  import opened Runs
  import opened Merging
  import opened Listings
  import opened Enumeration
  import opened TargetSearch
  import opened PairingOrder
  import opened PairingPieces

  // ------------------------------------------------------------ what the stages are meant to find

  /** The node table, the nodes in definition order, the Captures, and the Pairing nodes in processing order. */
  datatype Setting = Setting(nodes: Nodes, defs: seq<Node>, captures: seq<Node>, order: seq<Node>)
  {
    /** What the loader and the input check guarantee. */
    ghost predicate Ok() {
      && Keyed(nodes)
      && (forall c :: c in captures && c.id in nodes ==> !nodes[c.id].Pairing?)
      && (forall k :: 0 <= k < |order| ==>
          order[k].Pairing? && |Inputs(k)| == 2 && Inputs(k)[0] in nodes && Inputs(k)[1] in nodes)
    }

    /** The order lists every Pairing node of the table, each once, and the inputs are the nodes that feed it. */
    ghost predicate Consistent() {
      && (forall k :: 0 <= k < |order| ==>
            && order[k].id in nodes && nodes[order[k].id] == order[k]
            && forall v :: v in Inputs(k) <==> v in nodes && order[k].id in nodes[v].output)
      && (forall i, j :: 0 <= i < j < |order| ==> order[i].id != order[j].id)
      && (forall id :: id in nodes && nodes[id].Pairing? ==> exists k :: 0 <= k < |order| && order[k].id == id)
    }

    function Inputs(k: nat): seq<NodeId>
      requires k < |order|
    {
      InputIds(defs, order[k].id)
    }
  }

  /** The path `f`, left open at one of its nodes, is taken on to `v`; it is there already if that node is `v`. */
  ghost predicate TakenTo(nodes: Nodes, f: Path, v: NodeId, t: Path) {
    && f != [] && !f[|f| - 1].Truncated?
    && var last := f[|f| - 1].id;
       if last == v then t == f else exists q :: Run(nodes, Towards(v), last, q) && t == f[..|f| - 1] + q
  }

  /** `f` neither ended nor was it cut, and its last node feeds the next Pairing node. */
  predicate LeftOpen(f: Path, inputs: seq<NodeId>) { f != [] && !LooksEnded(f) && f[|f| - 1].id in inputs }

  /** A path for the input `v` of the Pairing node number `k`. */
  ghost predicate Arrives(st: Setting, k: nat, v: NodeId, t: Path)
    requires st.Ok() && k < |st.order|
    decreases k, 1
  {
    if k == 0 then FromCapture(st.nodes, Towards(v), st.captures, t)
    else exists f :: Open(st, k, f) && TakenTo(st.nodes, f, v, t)
  }

  /** A path the Pairing node number `k - 1` leaves open for number `k`. */
  ghost predicate Open(st: Setting, k: nat, f: Path)
    requires st.Ok() && 0 < k < |st.order|
    decreases k, 0
  {
    LeftOpen(f, st.Inputs(k)) && FoundBehind(st, k - 1, f)
  }

  /** Two arriving paths merged, with the step of the Pairing node number `k`. */
  ghost predicate Paired(st: Setting, k: nat, b: Path)
    requires st.Ok() && k < |st.order|
    decreases k, 2
  {
    exists p1, p2 {:trigger Merge(p1, p2)} ::
      && Arrives(st, k, st.Inputs(k)[0], p1) && Arrives(st, k, st.Inputs(k)[1], p2)
      && b == Merge(p1, p2) + [PairingStep(st.order[k].id, st.order[k].pairingType)]
  }

  /** In front of a later Pairing node the search turns back; behind the last one it goes on to the end. */
  function StageMode(st: Setting, k: nat): Mode { if k + 1 < |st.order| then AROUND else ONWARD }

  /** A path found behind the Pairing node number `k`. */
  ghost predicate FoundBehind(st: Setting, k: nat, t: Path)
    requires st.Ok() && k < |st.order|
    decreases k, 3
  {
    exists b {:trigger Paired(st, k, b)} ::
        Paired(st, k, b) && Onward(st.nodes, StageMode(st, k), b, st.order[k].output, t)
  }

  /** One that is part of the result: all of the last stage's, and those of earlier stages that ended early. */
  ghost predicate Leaves(st: Setting, k: nat, t: Path)
    requires st.Ok() && k < |st.order|
  {
    FoundBehind(st, k, t) && (k + 1 < |st.order| ==> LooksEnded(t))
  }

  /** A path that ends without reaching any Pairing node. */
  ghost predicate PassesBy(nodes: Nodes, captures: seq<Node>, t: Path) {
    FromCapture(nodes, AROUND, captures, t) && LooksEnded(t)
  }

  ghost predicate Enumerable(st: Setting, t: Path)
    requires st.Ok()
  {
    PassesBy(st.nodes, st.captures, t) || exists k :: 0 <= k < |st.order| && Leaves(st, k, t)
  }

  // ------------------------------------------------------------ the same, in the order of the stages

  ghost predicate Usable(f: Path) { f != [] && !f[|f| - 1].Truncated? }

  ghost function Taken(nodes: Nodes, f: Path, v: NodeId): seq<Path>
    requires Keyed(nodes) && Acyclic(FreeGraph(nodes, Towards(v))) && Usable(f)
  {
    if f[|f| - 1].id == v then [f] else Behind(f[..|f| - 1], RunsFrom(nodes, Towards(v), f[|f| - 1].id))
  }

  ghost function TakenOn(nodes: Nodes, v: NodeId): Path -> seq<Path>
    requires Keyed(nodes) && Acyclic(FreeGraph(nodes, Towards(v)))
  {
    f => if Usable(f) then Taken(nodes, f, v) else []
  }

  function OpenFor(inputs: seq<NodeId>): Path -> bool { f => LeftOpen(f, inputs) }

  /** The paths to the input `v` of the Pairing node number `k`. */
  ghost function Arriving(st: Setting, k: nat, v: NodeId): seq<Path>
    requires st.Ok() && k < |st.order| && Acyclic(FreeGraph(st.nodes, ONWARD))
    decreases k, 0
  {
    FewerFreeNodes(st.nodes, Towards(v));
    if k == 0 then CaptureRuns(st.nodes, Towards(v), st.captures)
    else Gather(Kept(StageRuns(st, k - 1), OpenFor(st.Inputs(k))), TakenOn(st.nodes, v))
  }

  ghost function OnwardFrom(st: Setting, k: nat): Path -> seq<Path>
    requires st.Ok() && k < |st.order| && Acyclic(FreeGraph(st.nodes, ONWARD))
  {
    FewerFreeNodes(st.nodes, StageMode(st, k));
    p => OnwardRuns(st.nodes, StageMode(st, k), p + [PairingStep(st.order[k].id, st.order[k].pairingType)],
                    st.order[k].output)
  }

  /** The paths found behind the Pairing node number `k`. */
  ghost function StageRuns(st: Setting, k: nat): seq<Path>
    requires st.Ok() && k < |st.order| && Acyclic(FreeGraph(st.nodes, ONWARD))
    decreases k, 1
  {
    Gather(AllMerges(Arriving(st, k, st.Inputs(k)[0]), Arriving(st, k, st.Inputs(k)[1])), OnwardFrom(st, k))
  }

  ghost function LeavingRuns(st: Setting, k: nat): seq<Path>
    requires st.Ok() && k < |st.order| && Acyclic(FreeGraph(st.nodes, ONWARD))
  {
    if k + 1 < |st.order| then Kept(StageRuns(st, k), LooksEnded) else StageRuns(st, k)
  }

  /** What leaves the first `k` stages. */
  ghost function StagedRuns(st: Setting, k: nat): seq<Path>
    requires st.Ok() && k <= |st.order| && Acyclic(FreeGraph(st.nodes, ONWARD))
  {
    if k == 0 then [] else StagedRuns(st, k - 1) + LeavingRuns(st, k - 1)
  }

  /** Stage by stage, and last the paths that pass by every Pairing node. */
  ghost function AllRuns(st: Setting): seq<Path>
    requires st.Ok() && Acyclic(FreeGraph(st.nodes, ONWARD))
  {
    StagedRuns(st, |st.order|) + PathsByPassing(st)
  }

  ghost function PathsByPassing(st: Setting): seq<Path>
    requires st.Ok() && Acyclic(FreeGraph(st.nodes, ONWARD))
  {
    FewerFreeNodes(st.nodes, AROUND);
    Kept(CaptureRuns(st.nodes, AROUND, st.captures), LooksEnded)
  }

  lemma TakenExactly(nodes: Nodes, f: Path, v: NodeId, t: Path)
    requires Keyed(nodes) && Acyclic(FreeGraph(nodes, Towards(v)))
    ensures t in TakenOn(nodes, v)(f) <==> TakenTo(nodes, f, v, t)
  {
    hide Run, RunsFrom, Acyclic, FreeGraph;
    if Usable(f) { BehindRuns(nodes, Towards(v), f[..|f| - 1], f[|f| - 1].id, t); }
  }

  lemma {:induction false} ArrivingExactly(st: Setting, k: nat, v: NodeId, t: Path)
    requires st.Ok() && k < |st.order| && Acyclic(FreeGraph(st.nodes, ONWARD))
    ensures t in Arriving(st, k, v) <==> Arrives(st, k, v, t)
    decreases k, 0
  {
    hide Acyclic, FreeGraph, FromCapture, CaptureRuns, TakenTo, StageRuns, FoundBehind, Setting.Inputs;
    FewerFreeNodes(st.nodes, Towards(v));
    if k == 0 {
      CaptureRunsExactly(st.nodes, Towards(v), st.captures, t);
    } else {
      var left := Kept(StageRuns(st, k - 1), OpenFor(st.Inputs(k)));
      forall f ensures f in left <==> Open(st, k, f) { StageRunsExactly(st, k - 1, f); }
      forall f ensures t in TakenOn(st.nodes, v)(f) <==> TakenTo(st.nodes, f, v, t) { TakenExactly(st.nodes, f, v, t); }
      GatherMembers(left, TakenOn(st.nodes, v), t);
      if f :| f in left && TakenTo(st.nodes, f, v, t) {
        var i :| 0 <= i < |left| && left[i] == f;
        assert t in TakenOn(st.nodes, v)(left[i]);
      }
    }
  }

  lemma {:induction false} StageRunsExactly(st: Setting, k: nat, t: Path)
    requires st.Ok() && k < |st.order| && Acyclic(FreeGraph(st.nodes, ONWARD))
    ensures t in StageRuns(st, k) <==> FoundBehind(st, k, t)
    decreases k, 1
  {
    hide Acyclic, FreeGraph, Onward, Arrives, Arriving, Merge, OnwardRuns, Setting.Inputs;
    var pn, in1, in2 := st.order[k], st.Inputs(k)[0], st.Inputs(k)[1];
    forall p ensures p in Arriving(st, k, in1) <==> Arrives(st, k, in1, p) { ArrivingExactly(st, k, in1, p); }
    forall p ensures p in Arriving(st, k, in2) <==> Arrives(st, k, in2, p) { ArrivingExactly(st, k, in2, p); }
    var merged, step := AllMerges(Arriving(st, k, in1), Arriving(st, k, in2)), PairingStep(pn.id, pn.pairingType);
    forall p ensures p in merged <==> Paired(st, k, p + [step]) {
      MergesExactly(Arriving(st, k, in1), Arriving(st, k, in2), p);
      PairedIsMerge(st, k, p);
    }
    FewerFreeNodes(st.nodes, StageMode(st, k));
    forall p
      ensures t in OnwardFrom(st, k)(p) <==> Onward(st.nodes, StageMode(st, k), p + [step], pn.output, t)
    {
      OnwardRunsExactly(st.nodes, StageMode(st, k), p + [step], pn.output, t);
    }
    GatherMembers(merged, OnwardFrom(st, k), t);
    FoundBehindMerged(st, k, merged, t);
  }

  lemma PairedIsMerge(st: Setting, k: nat, p: Path)
    requires st.Ok() && k < |st.order|
    ensures Paired(st, k, p + [PairingStep(st.order[k].id, st.order[k].pairingType)]) <==>
            exists p1, p2 {:trigger Merge(p1, p2)} ::
              Arrives(st, k, st.Inputs(k)[0], p1) && Arrives(st, k, st.Inputs(k)[1], p2) && p == Merge(p1, p2)
  {
    hide Arrives, Merge, Setting.Inputs;
    var step := PairingStep(st.order[k].id, st.order[k].pairingType);
    assert forall a: Path, b: Path :: a + [step] == b + [step] ==> a == b by {
      forall a: Path, b: Path | a + [step] == b + [step] ensures a == b { assert (a + [step])[..|a|] == a; }
    }
  }

  lemma BeforeStep(st: Setting, k: nat, t: Path) returns (p: Path)
    requires st.Ok() && k < |st.order| && FoundBehind(st, k, t)
    ensures var b := p + [PairingStep(st.order[k].id, st.order[k].pairingType)];
            Paired(st, k, b) && Onward(st.nodes, StageMode(st, k), b, st.order[k].output, t)
  {
    hide Onward, Setting.Inputs, Merge;
    var b: Path {:trigger Paired(st, k, b)} :|
      Paired(st, k, b) && Onward(st.nodes, StageMode(st, k), b, st.order[k].output, t);
    p := b[..|b| - 1];
    assert b == p + [PairingStep(st.order[k].id, st.order[k].pairingType)];
  }

  lemma FoundBehindMerged(st: Setting, k: nat, merged: seq<Path>, t: Path)
    requires st.Ok() && k < |st.order|
    requires forall p :: p in merged <==> Paired(st, k, p + [PairingStep(st.order[k].id, st.order[k].pairingType)])
    ensures FoundBehind(st, k, t) <==>
            exists i :: 0 <= i < |merged| &&
              Onward(st.nodes, StageMode(st, k), merged[i] + [PairingStep(st.order[k].id, st.order[k].pairingType)],
                     st.order[k].output, t)
  {
    hide Onward, Paired, Setting.Inputs;
    var step := PairingStep(st.order[k].id, st.order[k].pairingType);
    if FoundBehind(st, k, t) {
      var p := BeforeStep(st, k, t);
      assert p in merged;
    }
    if i :| 0 <= i < |merged| && Onward(st.nodes, StageMode(st, k), merged[i] + [step], st.order[k].output, t) {
      assert merged[i] in merged;
      assert Paired(st, k, merged[i] + [step]);
    }
  }

  lemma {:induction false} StagedRunsExactly(st: Setting, k: nat, t: Path)
    requires st.Ok() && k <= |st.order| && Acyclic(FreeGraph(st.nodes, ONWARD))
    ensures t in StagedRuns(st, k) <==> exists j :: 0 <= j < k && Leaves(st, j, t)
  {
    hide Acyclic, FreeGraph, LeavingRuns, Leaves, Setting.Ok;
    if k > 0 {
      StagedRunsExactly(st, k - 1, t);
      LeavingRunsExactly(st, k - 1, t);
    }
  }

  lemma LeavingRunsExactly(st: Setting, k: nat, t: Path)
    requires st.Ok() && k < |st.order| && Acyclic(FreeGraph(st.nodes, ONWARD))
    ensures t in LeavingRuns(st, k) <==> Leaves(st, k, t)
  {
    hide Acyclic, FreeGraph, StageRuns, FoundBehind, LooksEnded, Setting.Ok;
    StageRunsExactly(st, k, t);
  }

  lemma AllRunsExactly(st: Setting, t: Path)
    requires st.Ok() && Acyclic(FreeGraph(st.nodes, ONWARD))
    ensures t in AllRuns(st) <==> Enumerable(st, t)
  {
    hide Acyclic, FreeGraph, FromCapture, CaptureRuns, StagedRuns, Leaves, LooksEnded;
    FewerFreeNodes(st.nodes, AROUND);
    StagedRunsExactly(st, |st.order|, t);
    CaptureRunsExactly(st.nodes, AROUND, st.captures, t);
  }

  // ------------------------------------------------------------ the algorithm

  method TakeOn(nodes: Nodes, f: Path, v: NodeId) returns (paths: seq<Path>)
    requires Keyed(nodes) && v in nodes && Acyclic(FreeGraph(nodes, Towards(v)))
    requires f != [] && !f[|f| - 1].Truncated?
    ensures paths == Taken(nodes, f, v)
    ensures forall t :: t in paths <==> TakenTo(nodes, f, v, t)
  {
    hide Acyclic, FreeGraph, RunsFrom, TakenTo;
    forall t ensures t in Taken(nodes, f, v) <==> TakenTo(nodes, f, v, t) { TakenExactly(nodes, f, v, t); }
    var last := f[|f| - 1].id;
    if last == v { return [f]; }
    paths := FreshSearch(nodes, Towards(v), f[..|f| - 1], last);
  }

  /** The paths to one input of the Pairing node number `k`; `frontier` matters from the second one on. */
  method PathsToInput(st: Setting, k: nat, frontier: seq<Path>, v: NodeId) returns (paths: seq<Path>)
    requires st.Ok() && k < |st.order| && v in st.nodes && Acyclic(FreeGraph(st.nodes, ONWARD))
    requires k > 0 ==> frontier == Kept(StageRuns(st, k - 1), OpenFor(st.Inputs(k)))
    ensures paths == Arriving(st, k, v)
  {
    hide Acyclic, FreeGraph, CaptureRuns, Taken, TakenTo, StageRuns;
    FewerFreeNodes(st.nodes, Towards(v));
    if k == 0 {
      paths := PathsFromCaptures(st.nodes, Towards(v), st.captures);
      return;
    }
    paths := [];
    for i := 0 to |frontier|
      invariant paths == Gather(frontier[..i], TakenOn(st.nodes, v))
    {
      assert frontier[i] in frontier && OpenFor(st.Inputs(k))(frontier[i]);
      var more := TakeOn(st.nodes, frontier[i], v);
      GatherStep(frontier, TakenOn(st.nodes, v), i);
      paths := paths + more;
    }
    assert frontier[..|frontier|] == frontier;
  }

  method KeepOpen(paths: seq<Path>, inputs: seq<NodeId>) returns (left: seq<Path>)
    ensures left == Kept(paths, OpenFor(inputs))
  {
    left := [];
    for i := 0 to |paths|
      invariant left == Kept(paths[..i], OpenFor(inputs))
    {
      assert paths[..i + 1][..i] == paths[..i];
      if paths[i] != [] && !LooksEnded(paths[i]) && paths[i][|paths[i]| - 1].id in inputs { left := left + [paths[i]]; }
    }
    assert paths[..|paths|] == paths;
  }

  /** The paths behind the Pairing node number `k`, as far as the next one or to the end: the loop over merged paths and
      Pairing outputs. */
  method Stage(st: Setting, k: nat, frontier: seq<Path>) returns (paths: seq<Path>)
    requires st.Ok() && k < |st.order| && Acyclic(FreeGraph(st.nodes, ONWARD))
    requires k > 0 ==> frontier == Kept(StageRuns(st, k - 1), OpenFor(st.Inputs(k)))
    ensures paths == StageRuns(st, k)
    ensures forall t :: t in paths <==> FoundBehind(st, k, t)
  {
    hide Acyclic, FreeGraph, Arriving, AllMerges, OnwardRuns, FoundBehind;
    forall t ensures t in StageRuns(st, k) <==> FoundBehind(st, k, t) { StageRunsExactly(st, k, t); }
    var pn := st.order[k];
    var input1Paths := PathsToInput(st, k, frontier, st.Inputs(k)[0]);
    var input2Paths := PathsToInput(st, k, frontier, st.Inputs(k)[1]);
    var merged := MergeAll(input1Paths, input2Paths);
    FewerFreeNodes(st.nodes, StageMode(st, k));
    paths := [];
    for i := 0 to |merged|
      invariant paths == Gather(merged[..i], OnwardFrom(st, k))
    {
      var more := ContinueOnward(st.nodes, StageMode(st, k), merged[i] + [PairingStep(pn.id, pn.pairingType)],
                                 pn.output);
      GatherStep(merged, OnwardFrom(st, k), i);
      paths := paths + more;
    }
    assert merged[..|merged|] == merged;
  }

  /** Exact for every pipeline on which it halts: early ends, truncations and everything in between, stage by stage. */
  method EnumerateStages(st: Setting) returns (all: seq<Path>)
    requires st.Ok() && Acyclic(FreeGraph(st.nodes, ONWARD))
    ensures all == AllRuns(st)
    ensures forall t :: t in all <==> Enumerable(st, t)
  {
    hide Acyclic, FreeGraph, CaptureRuns, StageRuns, LeavingRuns, LooksEnded, OpenFor, Enumerable, FoundBehind, Kept;
    hide PathsByPassing, AllRuns;
    forall t ensures t in AllRuns(st) <==> Enumerable(st, t) { AllRunsExactly(st, t); }
    AllRunsAre(st);
    all := [];
    var frontier: seq<Path> := [];
    for k := 0 to |st.order|
      invariant 0 < k < |st.order| ==> frontier == Kept(StageRuns(st, k - 1), OpenFor(st.Inputs(k)))
      invariant all == StagedRuns(st, k)
    {
      var paths := Stage(st, k, frontier);
      LeavingRunsAre(st, k);
      if k + 1 < |st.order| {
        var ended := KeepEnded(paths);
        all := all + ended;
        frontier := KeepOpen(paths, st.Inputs(k + 1));
      } else {
        all := all + paths;
      }
    }
    var ended := PathsAround(st);
    all := all + ended;
  }

  lemma AllRunsAre(st: Setting)
    requires st.Ok() && Acyclic(FreeGraph(st.nodes, ONWARD))
    ensures AllRuns(st) == StagedRuns(st, |st.order|) + PathsByPassing(st)
  {
  }

  lemma LeavingRunsAre(st: Setting, k: nat)
    requires st.Ok() && k < |st.order| && Acyclic(FreeGraph(st.nodes, ONWARD))
    ensures LeavingRuns(st, k) ==
            if k + 1 < |st.order| then Kept(StageRuns(st, k), LooksEnded) else StageRuns(st, k)
  {
  }

  /** The searches from the Captures that stop at Pairing nodes; only what ended is kept. */
  method PathsAround(st: Setting) returns (ended: seq<Path>)
    requires st.Ok() && Acyclic(FreeGraph(st.nodes, ONWARD))
    ensures ended == PathsByPassing(st)
  {
    hide Acyclic, FreeGraph, CaptureRuns, Kept;
    FewerFreeNodes(st.nodes, AROUND);
    var before := PathsFromCaptures(st.nodes, AROUND, st.captures);
    ended := KeepEnded(before);
  }

  datatype Enumerated = Paths(paths: seq<Path>) | WrongInputCount

  function SettingOf(p: PipelineConfig): Setting
    requires p.Valid()
  {
    Setting(p.Lookup(), p.nodes, p.captureNodes, ProcessingOrder(p))
  }

  /** Every Pairing node has exactly two inputs. */
  predicate TwoInputsEach(p: PipelineConfig) { forall pn :: pn in p.pairingNodes ==> |InputIds(p.nodes, pn.id)| == 2 }

  lemma SettingIsOk(p: PipelineConfig)
    requires p.Valid() && TwoInputsEach(p)
    ensures SettingOf(p).Ok()
  {
    hide InputIds, Select, ProcessingOrder, PipelineDistances;
    var st, order := SettingOf(p), ProcessingOrder(p);
    ProcessingOrderMeans(p);
    MembersFromMultisets(order, p.pairingNodes);
    forall k | 0 <= k < |order|
      ensures order[k].Pairing? && |st.Inputs(k)| == 2 && st.Inputs(k)[0] in st.nodes && st.Inputs(k)[1] in st.nodes
    {
      assert order[k] in order;
      InputIdsMembers(p.nodes, order[k].id);
      InputsExist(p, order[k].id, st.Inputs(k)[0]);
      InputsExist(p, order[k].id, st.Inputs(k)[1]);
    }
  }

  lemma InputsExist(p: PipelineConfig, id: NodeId, v: NodeId)
    requires p.UniqueIds()
    ensures Feeds(p.nodes, v, id) <==> v in p.Lookup() && id in p.Lookup()[v].output
  {
  }

  lemma SettingIsConsistent(p: PipelineConfig)
    requires p.Valid()
    ensures SettingOf(p).Consistent()
  {
    hide InputIds, Select, ProcessingOrder, PipelineDistances, Categorize, PipelineConfig.UniqueIds;
    var st, order := SettingOf(p), ProcessingOrder(p);
    ProcessingOrderMeans(p);
    MembersFromMultisets(order, p.pairingNodes);
    PairingNodesExist(p);
    forall k | 0 <= k < |order|
      ensures order[k].id in st.nodes && st.nodes[order[k].id] == order[k]
      ensures forall v :: v in st.Inputs(k) <==> v in st.nodes && order[k].id in st.nodes[v].output
    {
      assert order[k] in order;
      InputsAreFeeders(p, order[k].id);
    }
    PairingsAreApart(p);
    IdsApartSurvive(p.pairingNodes, order);
    forall id | id in st.nodes && st.nodes[id].Pairing? ensures exists k :: 0 <= k < |order| && order[k].id == id {
      PairingIsListed(p, st.nodes[id]);
      var k :| 0 <= k < |order| && order[k] == st.nodes[id];
    }
  }

  lemma InputsAreFeeders(p: PipelineConfig, id: NodeId)
    requires p.Valid()
    ensures forall v :: v in InputIds(p.nodes, id) <==> v in p.Lookup() && id in p.Lookup()[v].output
  {
    hide InputIds, Categorize;
    InputIdsMembers(p.nodes, id);
    forall v ensures v in InputIds(p.nodes, id) <==> v in p.Lookup() && id in p.Lookup()[v].output {
      InputsExist(p, id, v);
    }
  }

  lemma PairingIsListed(p: PipelineConfig, n: Node)
    requires p.Valid() && n in p.nodes && n.Pairing?
    ensures n in p.pairingNodes
  {
  }

  lemma PairingsAreApart(p: PipelineConfig)
    requires p.Valid()
    ensures forall i, j :: 0 <= i < j < |p.pairingNodes| ==> p.pairingNodes[i].id != p.pairingNodes[j].id
  {
    SelectKeepsIdsApart(p.nodes, (n: Node) => n.Pairing?);
  }

  /** Rearranging nodes with different ids keeps the ids different. */
  lemma IdsApartSurvive(a: seq<Node>, b: seq<Node>)
    requires multiset(a) == multiset(b) && forall i, j :: 0 <= i < j < |a| ==> a[i].id != a[j].id
    ensures forall i, j :: 0 <= i < j < |b| ==> b[i].id != b[j].id
  {
    DistinctSurvivesPermutation(a, b);
    MembersFromMultisets(a, b);
    forall i, j | 0 <= i < j < |b| ensures b[i].id != b[j].id {
      assert b[i] in a && b[j] in a && b[i] != b[j];
    }
  }

  /** The paths of the whole pipeline; without Pairing nodes those of the plain enumeration. */
  ghost predicate PathOf(p: PipelineConfig, t: Path)
    requires p.Valid()
  {
    if p.pairingNodes == [] then FromCapture(p.Lookup(), ALL, p.captureNodes, t)
    else TwoInputsEach(p) && (SettingIsOk(p); Enumerable(SettingOf(p), t))
  }

  /** The paths of the whole pipeline in the order of the enumeration. */
  ghost function PathList(p: PipelineConfig): seq<Path>
    requires p.Valid() && TwoInputsEach(p) && Acyclic(FreeGraph(p.Lookup(), ONWARD))
  {
    if p.pairingNodes == [] then FewerFreeNodes(p.Lookup(), ALL); CaptureRuns(p.Lookup(), ALL, p.captureNodes)
    else SettingIsOk(p); AllRuns(SettingOf(p))
  }

  lemma PathListExactly(p: PipelineConfig, t: Path)
    requires p.Valid() && TwoInputsEach(p) && Acyclic(FreeGraph(p.Lookup(), ONWARD))
    ensures t in PathList(p) <==> PathOf(p, t)
  {
    hide Acyclic, FreeGraph, FromCapture, CaptureRuns, Enumerable, AllRuns, Setting.Ok, TwoInputsEach, Categorize;
    if p.pairingNodes == [] {
      FewerFreeNodes(p.Lookup(), ALL);
      CaptureRunsExactly(p.Lookup(), ALL, p.captureNodes, t);
    } else {
      SettingIsOk(p);
      AllRunsExactly(SettingOf(p), t);
    }
  }

  method ValidateInputs(p: PipelineConfig, pairingNodes: seq<Node>) returns (fine: bool)
    requires forall pn :: pn in pairingNodes <==> pn in p.pairingNodes
    ensures fine <==> TwoInputsEach(p)
  {
    hide InputIds, Select;
    for i := 0 to |pairingNodes|
      invariant forall k :: 0 <= k < i ==> |InputIds(p.nodes, pairingNodes[k].id)| == 2
    {
      var inputs := ValidatePairingNodeInputs(p.nodes, pairingNodes[i].id);
      if inputs == None {
        assert pairingNodes[i] in p.pairingNodes;
        return false;
      }
    }
    fine := true;
  }

  /** Raises for a wrong number of inputs exactly when some Pairing node has one; else returns the pipeline's paths, in
      order. */
  method EnumeratePathsWithPairing(p: PipelineConfig) returns (r: Enumerated)
    requires p.Valid() && (TwoInputsEach(p) ==> Acyclic(FreeGraph(p.Lookup(), ONWARD)))
    ensures r.WrongInputCount? <==> !TwoInputsEach(p)
    ensures r.Paths? ==> r.paths == PathList(p)
    ensures r.Paths? ==> forall t :: t in r.paths <==> PathOf(p, t)
  {
    hide Acyclic, FreeGraph, FromCapture, Categorize, Enumerable, Setting.Ok, TwoInputsEach, ProcessingOrder, PathOf;
    hide CaptureRuns, AllRuns;
    if TwoInputsEach(p) {
      forall t ensures t in PathList(p) <==> PathOf(p, t) { PathListExactly(p, t); }
    }
    var pairingNodes := FindPairingNodesInTopologicalOrder(p);
    ProcessingOrderMeans(p);
    MembersFromMultisets(pairingNodes, p.pairingNodes);
    assert pairingNodes == [] ==> TwoInputsEach(p) by { NothingToCheck(p); }
    if pairingNodes == [] {
      FewerFreeNodes(p.Lookup(), ALL);
      NothingBlocks(p);
      var raised, paths := EnumerateAllPaths(p);
      return Paths(paths);
    }
    var fine := ValidateInputs(p, pairingNodes);
    if !fine { return WrongInputCount; }
    SettingIsOk(p);
    var all := EnumerateStages(SettingOf(p));
    return Paths(all);
  }

  lemma NothingToCheck(p: PipelineConfig)
    ensures p.pairingNodes == [] ==> TwoInputsEach(p)
  {
  }

  lemma NothingBlocks(p: PipelineConfig)
    requires p.Valid() && p.pairingNodes == []
    ensures forall t :: FromCapture(p.Lookup(), ALL, p.captureNodes, t) ==> !Blocked(t)
  {
    hide Categorize, Chain, Visits;
    PairingFree(p);
    forall id | id in p.Lookup() ensures !p.Lookup()[id].Pairing? { assert p.Lookup()[id] in p.nodes; }
  }

  lemma PairingFree(p: PipelineConfig)
    requires p.Valid() && p.pairingNodes == []
    ensures forall n :: n in p.nodes ==> !n.Pairing?
  {
    forall n | n in p.nodes ensures !n.Pairing? { assert n !in p.pairingNodes; }
  }
}
