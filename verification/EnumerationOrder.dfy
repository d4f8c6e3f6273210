/** The order of the plain enumeration, described without the search: earlier choices first. */
module EnumerationOrder {
  import opened Walks
  import opened Pipelines
  import opened TopologicalOrders
  import opened PipelineGraphs
  import opened Runs
  import opened SearchSteps
  import opened Listings
  import opened Enumeration
  import opened EnumerationTheorems
  import opened PairingPieces

  /** Nothing is offered twice: no output list repeats a node, no Process a method. */
  ghost predicate NoRepeats(nodes: Nodes) {
    forall id :: id in nodes ==>
      && DistinctElements(nodes[id].output)
      && (nodes[id].Process? ==> forall i, j :: 0 <= i < j < |nodes[id].methodIds| ==>
            nodes[id].methodIds[i] != nodes[id].methodIds[j])
  }

  ghost predicate Before<T>(s: seq<T>, x: T, y: T) { exists i, j :: 0 <= i < j < |s| && s[i] == x && s[j] == y }

  /** The nodes to choose from behind `s`. */
  ghost function Choices(nodes: Nodes, starts: seq<NodeId>, s: Path): seq<NodeId> {
    if s == [] then starts
    else if !s[|s| - 1].Truncated? && s[|s| - 1].id in nodes then nodes[s[|s| - 1].id].output
    else []
  }

  /** Where they differ, `e` records an earlier choice than `f`: an earlier node, or an earlier method of the same. */
  ghost predicate Precedes(nodes: Nodes, ids: seq<NodeId>, e: Entry, f: Entry) {
    && !e.Truncated? && !f.Truncated?
    && if e.id != f.id then Before(ids, e.id, f.id)
       else
         && e.id in nodes && nodes[e.id].Process? && e.ProcessStep? && f.ProcessStep?
         && Before(nodes[e.id].methodIds, e.methodId, f.methodId)
  }

  ghost predicate PartsAt(nodes: Nodes, starts: seq<NodeId>, t: Path, u: Path, k: nat) {
    k < |t| && k < |u| && t[..k] == u[..k] && Precedes(nodes, Choices(nodes, starts, t[..k]), t[k], u[k])
  }

  /** The first choice in which they differ is made earlier in `t`. */
  ghost predicate Earlier(nodes: Nodes, starts: seq<NodeId>, t: Path, u: Path) {
    exists k: nat :: PartsAt(nodes, starts, t, u, k)
  }

  ghost predicate Ordered(nodes: Nodes, starts: seq<NodeId>, paths: seq<Path>) {
    forall i, j :: 0 <= i < j < |paths| ==> Earlier(nodes, starts, paths[i], paths[j])
  }

  lemma OrderedConcat(nodes: Nodes, starts: seq<NodeId>, a: seq<Path>, b: seq<Path>)
    requires Ordered(nodes, starts, a) && Ordered(nodes, starts, b)
    requires forall t, u :: t in a && u in b ==> Earlier(nodes, starts, t, u)
    ensures Ordered(nodes, starts, a + b)
  {
    hide Earlier;
  }

  // ------------------------------------------------------------ the search lists its runs in this order

  /** What an acyclic search finds through `id` starts with the path so far and a visit to `id`. */
  lemma FoundHere(nodes: Nodes, start: NodeId, s: Path, id: NodeId, t: Path)
    requires Keyed(nodes) && Acyclic(GraphOf(nodes)) && Acyclic(FreeGraph(nodes, ALL)) && Chain(nodes, ALL, start, s)
    requires id in nodes ==> Next(nodes, start, s, id)
    requires t in RunsVia(nodes, ALL, start, s, id)
    ensures |t| > |s| && t[..|s|] == s && !t[|s|].Truncated? && t[|s|].id == id && id in nodes
  {
    hide Acyclic, FreeGraph, Chain, Next, RunsVia;
    ViaListed(nodes, ALL, start, s, id);
    NoTruncation(nodes, ALL, start, t);
  }

  /** The same behind the node visited last: some output among the first `k`. */
  lemma FoundBehind(nodes: Nodes, start: NodeId, s: Path, many: bool, k: nat, t: Path)
    requires Keyed(nodes) && Acyclic(GraphOf(nodes)) && Acyclic(FreeGraph(nodes, ALL)) && Chain(nodes, ALL, start, s)
    requires s != [] && Visit(nodes, ALL, s[|s| - 1]) && k <= |nodes[s[|s| - 1].id].output|
    requires t in RunsOnward(nodes, ALL, start, s, many, k)
    ensures |t| > |s| && t[..|s|] == s && !t[|s|].Truncated?
    ensures t[|s|].id in nodes[s[|s| - 1].id].output[..k]
  {
    hide Acyclic, FreeGraph, Chain, Visits, RunsVia;
    if k > 0 {
      var next := nodes[s[|s| - 1].id].output[k - 1];
      if t in RunsOnward(nodes, ALL, start, s, many, k - 1) {
        FoundBehind(nodes, start, s, many, k - 1, t);
      } else {
        FoundHere(nodes, start, s, next, t);
      }
    }
  }

  lemma {:induction false} ViaOrdered(nodes: Nodes, starts: seq<NodeId>, start: NodeId, s: Path, id: NodeId)
    requires Keyed(nodes) && Acyclic(GraphOf(nodes)) && NoRepeats(nodes)
    requires Acyclic(FreeGraph(nodes, ALL)) && Chain(nodes, ALL, start, s)
    requires id in nodes ==> Next(nodes, start, s, id)
    ensures Ordered(nodes, starts, RunsVia(nodes, ALL, start, s, id))
    decreases Budget(nodes) - Spent(nodes, s), |FreeGraph(nodes, ALL)| - |TrailingFree(s)|, 1, 0
  {
    hide Acyclic, FreeGraph, Chain, Next, Visits, Spent, TrailingFree, RunsOnward, RunsByMethod, Earlier, NoRepeats;
    if id in nodes && Room(nodes, s, id) {
      if nodes[id].ManyMethods() {
        MethodsOrdered(nodes, starts, start, s, id, |nodes[id].methodIds|);
      } else if !Ends(ALL, nodes[id]) && Passes(ALL, nodes[id]) {
        var e := NodeInfo(nodes[id]);
        SearchHalts(nodes, ALL, start, s, id, e);
        OnwardOrdered(nodes, starts, start, s + [e], false, |nodes[id].output|);
      }
    }
  }

  lemma {:induction false} MethodsOrdered(nodes: Nodes, starts: seq<NodeId>, start: NodeId, s: Path, id: NodeId, j: nat)
    requires Keyed(nodes) && Acyclic(GraphOf(nodes)) && NoRepeats(nodes)
    requires Acyclic(FreeGraph(nodes, ALL)) && Chain(nodes, ALL, start, s)
    requires id in nodes && nodes[id].ManyMethods() && Next(nodes, start, s, id) && Room(nodes, s, id)
    requires j <= |nodes[id].methodIds|
    ensures Ordered(nodes, starts, RunsByMethod(nodes, ALL, start, s, id, j))
    decreases Budget(nodes) - Spent(nodes, s), |FreeGraph(nodes, ALL)| - |TrailingFree(s)|, 0, j
  {
    hide Acyclic, FreeGraph, Chain, Next, Visits, Spent, TrailingFree, RunsOnward, Earlier, NoRepeats, Room;
    if j > 0 {
      var e := ProcessStep(id, nodes[id].methodIds[j - 1]);
      SearchHalts(nodes, ALL, start, s, id, e);
      MethodsOrdered(nodes, starts, start, s, id, j - 1);
      OnwardOrdered(nodes, starts, start, s + [e], true, |nodes[id].output|);
      var a, b := RunsByMethod(nodes, ALL, start, s, id, j - 1),
                  RunsOnward(nodes, ALL, start, s + [e], true, |nodes[id].output|);
      forall t, u | t in a && u in b ensures Earlier(nodes, starts, t, u) {
        FoundByMethod(nodes, start, s, id, j - 1, t);
        FoundBehind(nodes, start, s + [e], true, |nodes[id].output|, u);
        MethodsPart(nodes, starts, s, id, j - 1, t, u);
      }
      OrderedConcat(nodes, starts, a, b);
    }
  }

  /** A run with one of the first `j` methods records it. */
  lemma {:induction false} FoundByMethod(nodes: Nodes, start: NodeId, s: Path, id: NodeId, j: nat, t: Path)
    requires Keyed(nodes) && Acyclic(GraphOf(nodes)) && Acyclic(FreeGraph(nodes, ALL)) && Chain(nodes, ALL, start, s)
    requires id in nodes && nodes[id].ManyMethods() && Next(nodes, start, s, id) && Room(nodes, s, id)
    requires j <= |nodes[id].methodIds| && t in RunsByMethod(nodes, ALL, start, s, id, j)
    ensures |t| > |s| && t[..|s|] == s
    ensures exists i :: 0 <= i < j && t[|s|] == ProcessStep(id, nodes[id].methodIds[i])
  {
    hide Acyclic, FreeGraph, Chain, Next, Visits, RunsOnward, Room;
    if j > 0 {
      var e := ProcessStep(id, nodes[id].methodIds[j - 1]);
      SearchHalts(nodes, ALL, start, s, id, e);
      if t in RunsByMethod(nodes, ALL, start, s, id, j - 1) {
        FoundByMethod(nodes, start, s, id, j - 1, t);
      } else {
        FoundBehind(nodes, start, s + [e], true, |nodes[id].output|, t);
        assert t[..|s|] == t[..|s| + 1][..|s|] && t[|s|] == t[..|s| + 1][|s|];
      }
    }
  }

  lemma MethodsPart(nodes: Nodes, starts: seq<NodeId>, s: Path, id: NodeId, j: nat, t: Path, u: Path)
    requires id in nodes && nodes[id].Process? && j < |nodes[id].methodIds|
    requires |t| > |s| && t[..|s|] == s && exists i :: 0 <= i < j && t[|s|] == ProcessStep(id, nodes[id].methodIds[i])
    requires |u| > |s| + 1 && u[..|s| + 1] == s + [ProcessStep(id, nodes[id].methodIds[j])]
    ensures Earlier(nodes, starts, t, u)
  {
    assert u[..|s|] == u[..|s| + 1][..|s|] && u[|s|] == u[..|s| + 1][|s|];
    assert PartsAt(nodes, starts, t, u, |s|);
  }

  lemma {:induction false} OnwardOrdered(nodes: Nodes, starts: seq<NodeId>, start: NodeId, s: Path, many: bool, k: nat)
    requires Keyed(nodes) && Acyclic(GraphOf(nodes)) && NoRepeats(nodes)
    requires Acyclic(FreeGraph(nodes, ALL)) && Chain(nodes, ALL, start, s)
    requires s != [] && Visit(nodes, ALL, s[|s| - 1]) && k <= |nodes[s[|s| - 1].id].output|
    ensures Ordered(nodes, starts, RunsOnward(nodes, ALL, start, s, many, k))
    decreases Budget(nodes) - Spent(nodes, s), |FreeGraph(nodes, ALL)| - |TrailingFree(s)|, 2, k
  {
    hide Acyclic, FreeGraph, Chain, Visits, Spent, TrailingFree, RunsVia, Earlier, NoRepeats;
    if k > 0 {
      var output := nodes[s[|s| - 1].id].output;
      OnwardOrdered(nodes, starts, start, s, many, k - 1);
      ViaOrdered(nodes, starts, start, s, output[k - 1]);
      var a, b := RunsOnward(nodes, ALL, start, s, many, k - 1), RunsVia(nodes, ALL, start, s, output[k - 1]);
      forall t, u | t in a && u in b ensures Earlier(nodes, starts, t, u) {
        FoundBehind(nodes, start, s, many, k - 1, t);
        FoundHere(nodes, start, s, output[k - 1], u);
        DistinctOutputs(nodes, s[|s| - 1].id);
        OutputsPart(nodes, starts, s, k - 1, t, u);
      }
      OrderedConcat(nodes, starts, a, b);
    }
  }

  lemma OutputsPart(nodes: Nodes, starts: seq<NodeId>, s: Path, k: nat, t: Path, u: Path)
    requires |t| > |s| && |u| > |s| && t[..|s|] == s == u[..|s|]
    requires !t[|s|].Truncated? && !u[|s|].Truncated? && k < |Choices(nodes, starts, s)|
    requires DistinctElements(Choices(nodes, starts, s)) && u[|s|].id == Choices(nodes, starts, s)[k]
    requires t[|s|].id in Choices(nodes, starts, s)[..k]
    ensures Earlier(nodes, starts, t, u)
  {
    var ids := Choices(nodes, starts, s);
    var i :| 0 <= i < k && ids[..k][i] == t[|s|].id;
    assert ids[i] == ids[..k][i];
    assert Before(ids, t[|s|].id, u[|s|].id);
    assert PartsAt(nodes, starts, t, u, |s|);
  }

  lemma DistinctOutputs(nodes: Nodes, id: NodeId)
    requires NoRepeats(nodes) && id in nodes
    ensures DistinctElements(nodes[id].output)
  {
  }

  lemma {:induction false} CapturesOrdered(nodes: Nodes, starts: seq<NodeId>, captures: seq<Node>)
    requires Keyed(nodes) && Acyclic(GraphOf(nodes)) && NoRepeats(nodes) && Acyclic(FreeGraph(nodes, ALL))
    requires NodeIds(captures) <= starts && DistinctElements(starts)
    ensures Ordered(nodes, starts, CaptureRuns(nodes, ALL, captures))
  {
    hide Acyclic, FreeGraph, RunsVia, Earlier, NoRepeats;
    if captures != [] {
      var k := |captures| - 1;
      var rest, c := captures[..k], captures[k].id;
      CapturesOrdered(nodes, starts, rest);
      EmptyChain(nodes, ALL, c);
      ViaOrdered(nodes, starts, c, [], c);
      forall t, u | t in CaptureRuns(nodes, ALL, rest) && u in RunsFrom(nodes, ALL, c)
        ensures Earlier(nodes, starts, t, u)
      {
        GatherMembers(rest, RunsOf(nodes, ALL), t);
        var i :| 0 <= i < k && t in RunsOf(nodes, ALL)(rest[i]);
        EmptyChain(nodes, ALL, rest[i].id);
        FoundHere(nodes, rest[i].id, [], rest[i].id, t);
        FoundHere(nodes, c, [], c, u);
        assert NodeIds(captures)[i] == rest[i].id && NodeIds(captures)[k] == c;
        assert starts[..k][i] == rest[i].id;
        assert t[..0] == [] && u[..0] == [];
        OutputsPart(nodes, starts, [], k, t, u);
      }
      OrderedConcat(nodes, starts, CaptureRuns(nodes, ALL, rest), RunsFrom(nodes, ALL, c));
    }
  }

  // ------------------------------------------------------------ and no other list does

  /** Two paths are never each earlier than the other. */
  lemma EarlierIsAsymmetric(nodes: Nodes, starts: seq<NodeId>, t: Path, u: Path)
    requires NoRepeats(nodes) && DistinctElements(starts) && Earlier(nodes, starts, t, u)
    ensures t != u && !Earlier(nodes, starts, u, t)
  {
    hide Precedes;
    var k: nat :| PartsAt(nodes, starts, t, u, k);
    FirstDifference(nodes, starts, t, u, k);
    if Earlier(nodes, starts, u, t) {
      var j: nat :| PartsAt(nodes, starts, u, t, j);
      FirstDifference(nodes, starts, u, t, j);
    }
  }

  lemma FirstDifference(nodes: Nodes, starts: seq<NodeId>, t: Path, u: Path, k: nat)
    requires NoRepeats(nodes) && DistinctElements(starts) && PartsAt(nodes, starts, t, u, k)
    ensures t[k] != u[k] && !PartsAt(nodes, starts, u, t, k) && forall i :: 0 <= i < k ==> t[i] == u[i]
  {
    hide Precedes;
    PrecedesIsAsymmetric(nodes, starts, t[..k], t[k], u[k]);
    forall i | 0 <= i < k ensures t[i] == u[i] { assert t[..k][i] == u[..k][i]; }
  }

  lemma PrecedesIsAsymmetric(nodes: Nodes, starts: seq<NodeId>, s: Path, e: Entry, f: Entry)
    requires NoRepeats(nodes) && DistinctElements(starts) && Precedes(nodes, Choices(nodes, starts, s), e, f)
    ensures e != f && !Precedes(nodes, Choices(nodes, starts, s), f, e)
  {
    assert DistinctElements(Choices(nodes, starts, s));
  }

  lemma {:induction false} OrderedIsUnique(nodes: Nodes, starts: seq<NodeId>, a: seq<Path>, b: seq<Path>)
    requires NoRepeats(nodes) && DistinctElements(starts)
    requires Ordered(nodes, starts, a) && Ordered(nodes, starts, b) && forall t :: t in a <==> t in b
    ensures a == b
  {
    hide Earlier, NoRepeats, DistinctElements;
    HasMember(a);
    HasMember(b);
    if a != [] && b != [] {
      SameFirst(nodes, starts, a, b);
      forall t ensures t in a[1..] <==> t in b[1..] {
        RestWithoutFirst(nodes, starts, a, t);
        RestWithoutFirst(nodes, starts, b, t);
      }
      OrderedIsUnique(nodes, starts, a[1..], b[1..]);
      assert a == [a[0]] + a[1..] && b == [b[0]] + b[1..];
    }
  }

  lemma HasMember(a: seq<Path>)
    ensures a != [] ==> exists t :: t in a
  {
    if a != [] { assert a[0] in a; }
  }

  lemma SameFirst(nodes: Nodes, starts: seq<NodeId>, a: seq<Path>, b: seq<Path>)
    requires NoRepeats(nodes) && DistinctElements(starts) && a != [] && b != []
    requires Ordered(nodes, starts, a) && Ordered(nodes, starts, b) && forall t :: t in a <==> t in b
    ensures a[0] == b[0]
  {
    hide Earlier, NoRepeats, DistinctElements;
    assert a[0] in b && b[0] in a;
    var i :| 0 <= i < |a| && a[i] == b[0];
    var j :| 0 <= j < |b| && b[j] == a[0];
    if i > 0 && j > 0 { EarlierIsAsymmetric(nodes, starts, a[0], b[0]); }
  }

  lemma RestWithoutFirst(nodes: Nodes, starts: seq<NodeId>, a: seq<Path>, t: Path)
    requires NoRepeats(nodes) && DistinctElements(starts) && a != [] && Ordered(nodes, starts, a)
    ensures t in a[1..] <==> t in a && t != a[0]
  {
    hide Earlier, NoRepeats, DistinctElements;
    if t in a[1..] {
      var i :| 0 <= i < |a| - 1 && a[1..][i] == t;
      assert a[i + 1] == t;
      EarlierIsAsymmetric(nodes, starts, a[0], t);
    }
  }

  /** On an acyclic pipeline in which nothing is offered twice the enumeration lists every path once, earlier choices
      first; and that fixes the list. */
  lemma EnumerationIsOrdered(p: PipelineConfig, paths: seq<Path>)
    requires p.Valid() && Acyclic(p.Outputs()) && NoRepeats(p.Lookup())
    ensures Acyclic(FreeGraph(p.Lookup(), ALL))
    ensures var starts, list := NodeIds(p.captureNodes), CaptureRuns(p.Lookup(), ALL, p.captureNodes);
            && Ordered(p.Lookup(), starts, list)
            && (forall i, j :: 0 <= i < j < |list| ==> list[i] != list[j])
            && (Ordered(p.Lookup(), starts, paths) && (forall t :: t in paths <==> t in list) ==> paths == list)
  {
    hide Acyclic, FreeGraph, NoRepeats, Earlier, Gather, Categorize, PipelineConfig.UniqueIds, DistinctElements;
    var starts := NodeIds(p.captureNodes);
    GraphsAgree(p);
    SubgraphIsAcyclic(p.Lookup(), ALL);
    CapturesAreApart(p);
    CapturesOrdered(p.Lookup(), starts, p.captureNodes);
    var list := CaptureRuns(p.Lookup(), ALL, p.captureNodes);
    forall i, j | 0 <= i < j < |list| ensures list[i] != list[j] {
      EarlierIsAsymmetric(p.Lookup(), starts, list[i], list[j]);
    }
    if Ordered(p.Lookup(), starts, paths) && forall t :: t in paths <==> t in list {
      OrderedIsUnique(p.Lookup(), starts, paths, list);
    }
  }

  lemma CapturesAreApart(p: PipelineConfig)
    requires p.Valid()
    ensures DistinctElements(NodeIds(p.captureNodes))
  {
    SelectKeepsIdsApart(p.nodes, (n: Node) => n.Capture?);
  }
}
