/** Concrete inputs on which the code does not do what its documentation promises. */
module Counterexamples {
  import opened Options
  import opened Sorting
  import opened Text
  import opened Walks
  import opened TopologicalOrders
  import opened PipelineGraphs
  import opened Pipelines
  import opened StructureValidators
  import opened Runs
  import opened ExpectedFiles
  import opened Enumeration
  import opened EnumerationTheorems
  import opened PairingOrder
  import opened PairingPieces
  import opened PairingEnumeration
  import opened PairingTheorems
  import opened PairingStages
  import opened FilenameParsing
  import opened PhotoPairing
  import opened FilenameRoundTrip

  // ------------------------------------------------------------ file names

  /** An accepted name without a dot makes the parser raise. */
  lemma DotlessNameRaises()
    ensures ValidateFilename("AB3D0001") && ParseFilename("AB3D0001") == UnpackError
  {
    var f := "AB3D0001";
    assert '.' !in f && |f| == 8;
    assert f[..4] == "AB3D" && f[4..8] == "0001" && f[8..] == "";
    RaisesExactly(f);
  }

  /** With the method "2" and the suffix "3" a file counts as separate image 2. */
  lemma NumericMethodTakesOver(id: NodeId)
    ensures var path := [ProcessStep(id, "2"), FileStep(id, ".DNG")];
            && SeparateImage(Suffixed(MethodsBefore(path, 1), "3")) == "2"
            && !Printable(path)
  {
    var path := [ProcessStep(id, "2"), FileStep(id, ".DNG")];
    assert MethodsBefore(path, 0) == [] && MethodsBefore(path, 1) == ["2"];
    assert AllDigits("2") && !MethodOk("2");
    assert path[0].ProcessStep? && path[0].methodId == "2";
    assert Suffixed(["2"], "3") == ["2", "3"];
  }

  // ------------------------------------------------------------ a Capture that outputs to itself

  lemma CaptureLoopNeverEnds(c: NodeId, bound: nat)
    ensures !DepthBounded(map[c := Capture(c, [c])], ALL, c, bound)
  {
    var nodes := map[c := Capture(c, [c])];
    assert Edge(FreeGraph(nodes, ALL), c, c);
    assert Closed(FreeGraph(nodes, ALL), [c, c]);
    CycleIsUnbounded(nodes, ALL, [c, c], bound);
  }

  // ------------------------------------------------------------ building small pipelines

  /** A numbering that grows along every edge rules out cycles. */
  lemma RankedIsAcyclic(g: Graph, rank: map<NodeId, int>)
    requires g.Keys <= rank.Keys && forall u, v :: Edge(g, u, v) ==> rank[u] < rank[v]
    ensures Acyclic(g)
  {
    forall w ensures !Closed(g, w) {
      if Closed(g, w) { RanksGrow(g, rank, w); }
    }
  }

  lemma {:induction false} RanksGrow(g: Graph, rank: map<NodeId, int>, w: seq<NodeId>)
    requires g.Keys <= rank.Keys && (forall u, v :: Edge(g, u, v) ==> rank[u] < rank[v]) && Walk(g, w)
    ensures |w| > 1 ==> rank[w[0]] < rank[w[|w| - 1]]
  {
    if |w| > 1 {
      Slice(g, w, 0, |w| - 1);
      RanksGrow(g, rank, w[..|w| - 1]);
      assert Edge(g, w[|w| - 2], w[|w| - 1]);
    }
  }

  /** `table` is the node table of the list `nodes`, whose ids are different. */
  ghost predicate Tabulates(nodes: seq<Node>, table: Nodes) {
    && (forall i, j :: 0 <= i < j < |nodes| ==> nodes[i].id != nodes[j].id)
    && (forall i :: 0 <= i < |nodes| ==> nodes[i].id in table && table[nodes[i].id] == nodes[i])
    && (forall id :: id in table ==> table[id] in nodes && table[id].id == id)
  }

  lemma SingleNode(n: Node)
    ensures Tabulates([n], map[n.id := n])
  {
  }

  lemma OneMoreNode(nodes: seq<Node>, table: Nodes, n: Node)
    requires Tabulates(nodes, table) && n.id !in table
    ensures Tabulates(nodes + [n], table[n.id := n])
  {
  }

  /** The outputs of a tabulated pipeline, and that it is valid. */
  lemma TabulatedPipeline(nodes: seq<Node>, table: Nodes)
    requires Tabulates(nodes, table)
    ensures var p := Categorize(nodes);
            p.Valid() && p.Lookup() == table && p.Outputs().Keys == table.Keys &&
            forall id :: id in table ==> p.Outputs()[id] == table[id].output
  {
    hide Select;
    var p := Categorize(nodes);
    forall n | n in nodes ensures n.id in table && table[n.id] == n {
      var i :| 0 <= i < |nodes| && nodes[i] == n;
    }
    assert p.Lookup().Keys == table.Keys;
  }

  /** The only node of its kind makes a list of one. */
  lemma OnlyOne(nodes: seq<Node>, n: Node)
    requires (forall x :: x in nodes <==> x == n) && forall i, j :: 0 <= i < j < |nodes| ==> nodes[i].id != nodes[j].id
    ensures nodes == [n]
  {
    KindListed(nodes, n);
    forall i | 0 <= i < |nodes| ensures nodes[i] == n { assert nodes[i] in nodes; }
    DistinctCardinality(NodeIds(nodes));
    assert Elements(NodeIds(nodes)) == {n.id};
  }

  /** Exactly two nodes feed `id`. */
  lemma TwoFeed(p: PipelineConfig, id: NodeId, a: NodeId, b: NodeId)
    requires p.Valid() && a != b
    requires forall v :: v in p.Lookup() && id in p.Lookup()[v].output <==> v == a || v == b
    ensures |InputIds(p.nodes, id)| == 2 && forall v :: v in InputIds(p.nodes, id) <==> v == a || v == b
  {
    hide InputIds, Select, Categorize, PipelineConfig.UniqueIds;
    forall v ensures Feeds(p.nodes, v, id) <==> v == a || v == b { FedByTable(p, v, id); }
    assert OnlyInputs(p.nodes, id, a, b);
    Apart(p);
    TwoInputsExactly(p.nodes, id);
    InputIdsMembers(p.nodes, id);
  }

  lemma FedByTable(p: PipelineConfig, v: NodeId, id: NodeId)
    requires p.Valid()
    ensures Feeds(p.nodes, v, id) <==> v in p.Lookup() && id in p.Lookup()[v].output
  {
    hide Categorize;
    InputsExist(p, id, v);
  }

  lemma Apart(p: PipelineConfig)
    requires p.Valid()
    ensures forall i, j :: 0 <= i < j < |p.nodes| ==> p.nodes[i].id != p.nodes[j].id
  {
  }

  lemma KindListed(nodes: seq<Node>, n: Node)
    requires n in nodes
    ensures n.id in NodeIds(nodes)
  {
    var i :| 0 <= i < |nodes| && nodes[i] == n;
    assert NodeIds(nodes)[i] == n.id;
  }

  // ------------------------------------------------------------ pipelines the checkers have nothing to say about

  /** Neither structure checker reports anything. */
  ghost predicate PassesCheckers(p: PipelineConfig, known: Option<set<string>>)
    requires p.Valid()
  {
    && FullReport(p, known) == []
    && forall bad :: ListsBadReferences(p.nodes, p.Ids(), bad) ==>
         MissingKinds(p) + bad + UndefinedReport(p, known) + UnreachableReport(p) == []
  }

  /** One Capture that reaches everything and one Termination that everything reaches. */
  lemma SoundPipeline(p: PipelineConfig, known: Option<set<string>>, c: NodeId, e: NodeId)
    requires p.Valid() && Acyclic(p.Outputs()) && NothingDangles(p) && c in CaptureIds(p) && e in TerminationIds(p)
    requires forall v :: v in p.Ids() ==> Reaches(p.Outputs(), c, v) && Reaches(p.Outputs(), v, e)
    requires forall i :: 0 <= i < |p.nodes| ==> NodeError(p, p.nodes[i]) == None
    requires known.Some? ==> forall n :: n in p.processNodes ==> n.Process? && MethodsKnown(n, known.value)
    ensures PassesCheckers(p, known)
  {
    hide Acyclic, Reaches, NodeError, MethodsKnown, Categorize, CycleReport, OrphanReport, DeadEndReport;
    hide ListsBadReferences, NothingDangles, FullReport, PipelineConfig.UniqueIds, MissingKinds, UndefinedReport;
    hide UnreachableReport;
    forall v | v in p.Ids()
      ensures ReachedFromAny(p.Outputs(), CaptureIds(p), v) && LeadsToAny(p.Outputs(), v, TerminationIds(p))
    {
    }
    CleanGraph(p);
    CleanReport(p, known);
    forall bad | ListsBadReferences(p.nodes, p.Ids(), bad)
      ensures MissingKinds(p) + bad + UndefinedReport(p, known) + UnreachableReport(p) == []
    {
      CleanReportCleanMessages(p, known, bad);
    }
  }

  /** Without repetitions an output list names nothing twice. */
  lemma {:induction false} AtMostOnce(s: seq<NodeId>, v: NodeId)
    requires DistinctElements(s)
    ensures Total(s, v) <= 1
  {
    if s != [] {
      var rest := s[..|s| - 1];
      AtMostOnce(rest, v);
      OccursInRest(s, |s| - 1, v);
      if s[|s| - 1] == v { TotalPositive(rest, v); }
    }
  }

  lemma {:induction false} OccursInRest(s: seq<NodeId>, n: nat, v: NodeId)
    requires n < |s|
    ensures Occurs(s, n, v) == Occurs(s[..|s| - 1], n, v)
  {
    if n > 0 { OccursInRest(s, n - 1, v); }
  }

  /** No output is listed twice and nothing is left empty. */
  ghost predicate FineAlone(n: Node) {
    && DistinctElements(n.output) && !n.Branching?
    && (n.File? ==> n.extension != "") && (n.Termination? ==> n.terminationType != "")
  }

  /** Then, and with two inputs for every Pairing node, no node is wrong by itself. */
  lemma NodesFine(p: PipelineConfig)
    requires p.Valid()
    requires forall n :: n in p.nodes ==> FineAlone(n) && (n.Pairing? ==> |InputIds(p.nodes, n.id)| == 2)
    ensures forall i :: 0 <= i < |p.nodes| ==> NodeError(p, p.nodes[i]) == None
  {
    hide Categorize, PipelineConfig.UniqueIds, InputIds, Entries, Total, DistinctElements, KeptOutputs;
    forall i | 0 <= i < |p.nodes| ensures NodeError(p, p.nodes[i]) == None {
      var n := p.nodes[i];
      assert n in p.nodes;
      EntriesAndInputs(p.nodes, n.id);
      forall x | x in p.nodes ensures Total(x.output, n.id) <= 1 { AtMostOnce(x.output, n.id); }
    }
  }

  // ------------------------------------- a Capture that lists the Pairing node twice

  function TwicePipeline(c: NodeId, h: NodeId, e: NodeId): PipelineConfig {
    Categorize([Capture(c, [h, h]), Pairing(h, [e], "HDR", 2), Termination(e, [], "Archive")])
  }

  lemma TwiceValid(c: NodeId, h: NodeId, e: NodeId)
    requires c != h && c != e && h != e
    ensures var p := TwicePipeline(c, h, e);
            && p.Valid() && p.nodes == [Capture(c, [h, h]), Pairing(h, [e], "HDR", 2), Termination(e, [], "Archive")]
            && p.Lookup() == map[c := Capture(c, [h, h]), h := Pairing(h, [e], "HDR", 2),
                                 e := Termination(e, [], "Archive")]
            && p.Outputs() == map[c := [h, h], h := [e], e := []]
  {
    hide Select, Tabulates, PipelineConfig.UniqueIds;
    var n0, n1, n2 := Capture(c, [h, h]), Pairing(h, [e], "HDR", 2), Termination(e, [], "Archive");
    assert Tabulates([n0], map[c := n0]) by { SingleNode(n0); }
    OneMoreNode([n0], map[c := n0], n1);
    assert [n0] + [n1] == [n0, n1];
    OneMoreNode([n0, n1], map[c := n0, h := n1], n2);
    assert [n0, n1] + [n2] == [n0, n1, n2];
    TabulatedPipeline([n0, n1, n2], map[c := n0, h := n1, e := n2]);
  }

  lemma TwiceInList(h: NodeId)
    ensures Total([h, h], h) == 2
  {
    var s := [h, h];
    assert Occurs(s, 0, h) == 0;
    assert Occurs(s, 1, h) == 1;
    assert Occurs(s, 2, h) == 2;
  }

  lemma OnceInList(e: NodeId, h: NodeId)
    requires e != h
    ensures Total([e], h) == 0 && Total([], h) == 0
  {
    assert Occurs([e], 0, h) == 0;
  }

  /** The Pairing node has two incoming entries from one node. */
  lemma TwiceEntries(c: NodeId, h: NodeId, e: NodeId)
    requires c != h && c != e && h != e
    ensures var nodes := [Capture(c, [h, h]), Pairing(h, [e], "HDR", 2), Termination(e, [], "Archive")];
            Entries(nodes, h) == 2 && |InputIds(nodes, h)| != 2
  {
    hide InputIds;
    var n0, n1, n2 := Capture(c, [h, h]), Pairing(h, [e], "HDR", 2), Termination(e, [], "Archive");
    var nodes := [n0, n1, n2];
    assert nodes[..2] == [n0, n1] && [n0, n1][..1] == [n0] && [n0][..0] == [];
    TwiceInList(h);
    OnceInList(e, h);
    assert Entries([n0], h) == Total([h, h], h) && Entries([n0, n1], h) == 2 + Total([e], h);
    assert n0 in nodes && Total(n0.output, h) > 1;
    EntriesAndInputs(nodes, h);
  }

  lemma TwiceSound(c: NodeId, h: NodeId, e: NodeId)
    requires c != h && c != e && h != e
    ensures var g: Graph := map[c := [h, h], h := [e], e := []];
            Acyclic(g) && forall v :: v in g ==> Reaches(g, c, v) && Reaches(g, v, e)
  {
    hide Acyclic, Reaches;
    var g: Graph := map[c := [h, h], h := [e], e := []];
    RankedIsAcyclic(g, map[c := 0, h := 1, e := 2]);
    EdgeReaches(g, c, h);
    EdgeReaches(g, h, e);
    ReachesTransitive(g, c, h, e);
    ReachesSelf(g, c);
    ReachesSelf(g, e);
    ReachesSelf(g, h);
  }

  /** Both structure checkers are content, and the enumeration raises. */
  lemma RepeatedOutputPassesAndRaises(c: NodeId, h: NodeId, e: NodeId)
    requires c != h && c != e && h != e
    ensures var p := TwicePipeline(c, h, e); p.Valid() && PassesCheckers(p, None) && !TwoInputsEach(p)
  {
    hide Acyclic, Reaches, Select, InputIds, Entries, TwicePipeline, PassesCheckers, PipelineConfig.UniqueIds;
    hide Categorize, Total;
    var p := TwicePipeline(c, h, e);
    TwiceValid(c, h, e);
    TwiceEntries(c, h, e);
    TwiceSound(c, h, e);
    LookedUp(p);
    PairingIsListed(p, p.nodes[1]);
    EndsListed(p, p.nodes[0], p.nodes[2]);
    SoundPipeline(p, None, c, e);
  }

  lemma EndsListed(p: PipelineConfig, a: Node, b: Node)
    requires p.Valid() && a in p.nodes && a.Capture? && b in p.nodes && b.Termination?
    ensures a.id in CaptureIds(p) && b.id in TerminationIds(p)
  {
    hide PipelineConfig.UniqueIds;
    assert a in p.captureNodes && b in p.terminationNodes;
    KindListed(p.captureNodes, a);
    KindListed(p.terminationNodes, b);
  }

  // ------------------------------------- a loop behind a Capture

  /** What the sort returns on a Capture in front of a loop is not empty: the Capture is in it. */
  lemma CyclicOrderIsNotEmpty(c: NodeId, x: NodeId, y: NodeId, order: seq<NodeId>)
    requires c != x && c != y && x != y
    ensures var g: Graph := map[c := [x], x := [y], y := [x]];
            && !Acyclic(g)
            && (Topological(g, order) && (forall v :: v in g ==> (v !in order <==> FedByCycle(g, v))) ==> order == [c])
  {
    hide Topological, FedByCycle, Acyclic, OnCycle, Reaches;
    var g: Graph := map[c := [x], x := [y], y := [x]];
    LoopIsFed(g, x, y);
    NotFed(g, c);
    if Topological(g, order) && forall v :: v in g ==> (v !in order <==> FedByCycle(g, v)) {
      OnlyMember(g, order, c);
    }
  }

  lemma LoopIsFed(g: Graph, x: NodeId, y: NodeId)
    requires Edge(g, x, y) && Edge(g, y, x)
    ensures !Acyclic(g) && FedByCycle(g, x) && FedByCycle(g, y)
  {
    assert Closed(g, [x, y, x]) && Closed(g, [y, x, y]);
    ReachesSelf(g, x);
    ReachesSelf(g, y);
    assert OnCycle(g, x) && OnCycle(g, y);
  }

  /** Nothing leads to `c`, so no cycle does. */
  lemma NotFed(g: Graph, c: NodeId)
    requires forall u :: !Edge(g, u, c)
    ensures !FedByCycle(g, c)
  {
    if FedByCycle(g, c) {
      var v :| OnCycle(g, v) && Reaches(g, v, c);
      var loop :| Closed(g, loop) && loop[0] == v;
      var w :| WalkFrom(g, v, c, w);
      assert Edge(g, loop[|loop| - 2], loop[|loop| - 1]);
      ClosedSetHoldsWalk(g, g.Keys - {c}, w);
    }
  }

  lemma OnlyMember(g: Graph, order: seq<NodeId>, c: NodeId)
    requires Topological(g, order) && c in order && forall v :: v in g && v in order ==> v == c
    ensures order == [c]
  {
    assert Elements(order) == {c};
    DistinctCardinality(order);
  }

  // ------------------------------------- a Process with several methods in front of a Pairing node

  ghost predicate FiveIds(c: NodeId, x: NodeId, f: NodeId, h: NodeId, e: NodeId) {
    c != x && c != f && c != h && c != e && x != f && x != h && x != e && f != h && f != e && h != e
  }

  function MethodsPipeline(c: NodeId, x: NodeId, f: NodeId, h: NodeId, e: NodeId): PipelineConfig {
    Categorize([Capture(c, [x, f]), Process(x, [h], ["A", "B"]), File(f, [h], ".DNG"),
                Pairing(h, [e], "HDR", 2), Termination(e, [], "Archive")])
  }

  function MethodsTable(c: NodeId, x: NodeId, f: NodeId, h: NodeId, e: NodeId): Nodes {
    map[c := Capture(c, [x, f]), x := Process(x, [h], ["A", "B"]), f := File(f, [h], ".DNG"),
        h := Pairing(h, [e], "HDR", 2), e := Termination(e, [], "Archive")]
  }

  lemma MethodsValid(c: NodeId, x: NodeId, f: NodeId, h: NodeId, e: NodeId)
    requires FiveIds(c, x, f, h, e)
    ensures var p := MethodsPipeline(c, x, f, h, e);
            p.Valid() && p.Lookup() == MethodsTable(c, x, f, h, e)
  {
    hide Select, Tabulates;
    var n0, n1, n2 := Capture(c, [x, f]), Process(x, [h], ["A", "B"]), File(f, [h], ".DNG");
    var n3, n4 := Pairing(h, [e], "HDR", 2), Termination(e, [], "Archive");
    assert Tabulates([n0], map[c := n0]) by { SingleNode(n0); }
    OneMoreNode([n0], map[c := n0], n1);
    assert [n0] + [n1] == [n0, n1];
    OneMoreNode([n0, n1], map[c := n0, x := n1], n2);
    assert [n0, n1] + [n2] == [n0, n1, n2];
    var first, table := [n0, n1, n2], map[c := n0, x := n1, f := n2];
    OneMoreNode(first, table, n3);
    OneMoreNode(first + [n3], table[h := n3], n4);
    assert first + [n3] + [n4] == [n0, n1, n2, n3, n4];
    TabulatedPipeline(first + [n3] + [n4], table[h := n3][e := n4]);
  }

  lemma MethodsOutputs(c: NodeId, x: NodeId, f: NodeId, h: NodeId, e: NodeId)
    requires FiveIds(c, x, f, h, e)
    ensures var p := MethodsPipeline(c, x, f, h, e);
            p.Valid() && p.Outputs() == map[c := [x, f], x := [h], f := [h], h := [e], e := []]
  {
    hide Select, MethodsPipeline, PipelineConfig.UniqueIds, Categorize;
    MethodsValid(c, x, f, h, e);
    OutputsFromTable(MethodsPipeline(c, x, f, h, e));
  }

  lemma MethodsKinds(c: NodeId, x: NodeId, f: NodeId, h: NodeId, e: NodeId)
    requires FiveIds(c, x, f, h, e)
    ensures var p := MethodsPipeline(c, x, f, h, e);
            && p.Valid() && p.pairingNodes == [Pairing(h, [e], "HDR", 2)]
            && (forall a :: a in CaptureIds(p) <==> a == c) && e in TerminationIds(p)
            && TwoInputsEach(p) && |InputIds(p.nodes, h)| == 2
            && forall v :: v in InputIds(p.nodes, h) <==> v == x || v == f
  {
    hide Select, MethodsPipeline, PipelineConfig.UniqueIds, InputIds;
    var p := MethodsPipeline(c, x, f, h, e);
    MethodsValid(c, x, f, h, e);
    PairingNodesExist(p);
    LookedUp(p);
    PairingIsListed(p, p.Lookup()[h]);
    PairingsAreApart(p);
    OnlyOne(p.pairingNodes, p.Lookup()[h]);
    TwoFeed(p, h, x, f);
    MethodsEnds(c, x, f, h, e);
  }

  lemma MethodsEnds(c: NodeId, x: NodeId, f: NodeId, h: NodeId, e: NodeId)
    requires FiveIds(c, x, f, h, e)
    ensures var p := MethodsPipeline(c, x, f, h, e);
            p.Valid() && (forall a :: a in CaptureIds(p) <==> a == c) && e in TerminationIds(p)
  {
    hide Select, MethodsPipeline, PipelineConfig.UniqueIds;
    var p := MethodsPipeline(c, x, f, h, e);
    MethodsValid(c, x, f, h, e);
    forall a | a in CaptureIds(p) ensures a == c { var i := CaptureIdIsCapture(p, a); }
    assert p.Lookup()[c] in p.captureNodes && p.Lookup()[e] in p.terminationNodes;
    KindListed(p.captureNodes, p.Lookup()[c]);
    KindListed(p.terminationNodes, p.Lookup()[e]);
  }

  lemma MethodsAcyclic(c: NodeId, x: NodeId, f: NodeId, h: NodeId, e: NodeId)
    requires FiveIds(c, x, f, h, e)
    ensures Acyclic(map[c := [x, f], x := [h], f := [h], h := [e], e := []])
  {
    hide Acyclic;
    var g: Graph := map[c := [x, f], x := [h], f := [h], h := [e], e := []];
    RankedIsAcyclic(g, map[c := 0, x := 1, f := 1, h := 2, e := 3]);
  }

  /** Every walk to the Termination comes by the Pairing node. */
  lemma MethodsLastEdge(c: NodeId, x: NodeId, f: NodeId, h: NodeId, e: NodeId, w: seq<NodeId>)
    requires FiveIds(c, x, f, h, e) && Walk(map[c := [x, f], x := [h], f := [h], h := [e], e := []], w)
    requires w[0] == c && w[|w| - 1] == e
    ensures h in w
  {
    var g: Graph := map[c := [x, f], x := [h], f := [h], h := [e], e := []];
    assert Edge(g, w[|w| - 2], w[|w| - 1]);
    assert w[|w| - 2] == h;
  }

  lemma MethodsGraph(c: NodeId, x: NodeId, f: NodeId, h: NodeId, e: NodeId)
    requires FiveIds(c, x, f, h, e)
    ensures var p := MethodsPipeline(c, x, f, h, e); p.Valid() && Acyclic(p.Outputs()) && NoWayAround(p, h)
  {
    hide Select, MethodsPipeline, PipelineConfig.UniqueIds, Acyclic, Categorize, Walk;
    var p := MethodsPipeline(c, x, f, h, e);
    MethodsValid(c, x, f, h, e);
    MethodsOutputs(c, x, f, h, e);
    MethodsEnds(c, x, f, h, e);
    MethodsAcyclic(c, x, f, h, e);
    forall w {:trigger Walk(p.Outputs(), w)} |
      Walk(p.Outputs(), w) && w != [] && w[0] in CaptureIds(p) && w[|w| - 1] in p.Lookup() &&
          p.Lookup()[w[|w| - 1]].Termination?
      ensures h in w
    {
      MethodsLastEdge(c, x, f, h, e, w);
    }
    assert NoWayAround(p, h) by { WalksAreFilled(p.Outputs()); }
  }

  lemma WalksAreFilled(g: Graph)
    ensures forall w {:trigger Walk(g, w)} :: Walk(g, w) ==> w != [] && w[|w| - 1] in g
  {
  }

  lemma MethodsPassable(c: NodeId, x: NodeId, f: NodeId, h: NodeId, e: NodeId)
    requires FiveIds(c, x, f, h, e)
    ensures var p := MethodsPipeline(c, x, f, h, e);
            p.Valid() && |InputIds(p.nodes, h)| == 2 && Passable(p, Pairing(h, [e], "HDR", 2))
  {
    hide Select, MethodsPipeline, PipelineConfig.UniqueIds, Acyclic, Categorize, InputIds, Reaches;
    var p := MethodsPipeline(c, x, f, h, e);
    MethodsValid(c, x, f, h, e);
    MethodsOutputs(c, x, f, h, e);
    var g, ins := p.Outputs(), InputIds(p.nodes, h);
    MethodsKinds(c, x, f, h, e);
    EdgeReaches(g, h, e);
    EdgeReaches(g, c, x);
    EdgeReaches(g, c, f);
    assert ins[0] in ins && ins[1] in ins;
  }

  lemma MethodsSound(c: NodeId, x: NodeId, f: NodeId, h: NodeId, e: NodeId)
    requires FiveIds(c, x, f, h, e)
    ensures var g: Graph := map[c := [x, f], x := [h], f := [h], h := [e], e := []];
            forall v :: v in g ==> Reaches(g, c, v) && Reaches(g, v, e)
  {
    hide Reaches;
    var g: Graph := map[c := [x, f], x := [h], f := [h], h := [e], e := []];
    EdgeReaches(g, c, x);
    EdgeReaches(g, c, f);
    EdgeReaches(g, x, h);
    EdgeReaches(g, f, h);
    EdgeReaches(g, h, e);
    ReachesTransitive(g, c, x, h);
    ReachesTransitive(g, c, h, e);
    ReachesTransitive(g, x, h, e);
    ReachesTransitive(g, f, h, e);
    ReachesSelf(g, c);
    ReachesSelf(g, e);
  }

  /** No node is wrong by itself. */
  lemma MethodsNodes(c: NodeId, x: NodeId, f: NodeId, h: NodeId, e: NodeId)
    requires FiveIds(c, x, f, h, e)
    ensures var p := MethodsPipeline(c, x, f, h, e);
            && p.Valid() && NothingDangles(p)
            && (forall i :: 0 <= i < |p.nodes| ==> NodeError(p, p.nodes[i]) == None)
            && forall n :: n in p.processNodes ==> n.Process? && MethodsKnown(n, {"A", "B"})
  {
    hide Select, MethodsPipeline, PipelineConfig.UniqueIds, Categorize, InputIds, NodeError;
    var p := MethodsPipeline(c, x, f, h, e);
    MethodsValid(c, x, f, h, e);
    LookedUp(p);
    MethodsKinds(c, x, f, h, e);
    NodesFine(p);
    ProcessNodesAre(p);
    forall n | n in p.processNodes ensures MethodsKnown(n, {"A", "B"}) {
      KindNodesExist(p, n);
      assert n == p.Lookup()[x];
    }
  }

  lemma KindNodesExist(p: PipelineConfig, n: Node)
    requires p.Valid() && n in p.processNodes
    ensures n in p.nodes && n.Process?
  {
  }

  /** Both structure checkers are content with all methods configured, the input check passes, both inputs can be
      reached from the Capture, a Termination from the Pairing node; and there is not a single path. */
  lemma SeveralMethodsYieldNothing(c: NodeId, x: NodeId, f: NodeId, h: NodeId, e: NodeId, t: Path)
    requires FiveIds(c, x, f, h, e)
    ensures var p := MethodsPipeline(c, x, f, h, e);
            && p.Valid() && PassesCheckers(p, Some({"A", "B"})) && TwoInputsEach(p)
            && |InputIds(p.nodes, h)| == 2 && Passable(p, Pairing(h, [e], "HDR", 2))
            && !PathOf(p, t)
  {
    hide PassesCheckers, NodeError, MethodsKnown, NothingDangles, Reaches;
    hide Select, MethodsPipeline, PipelineConfig.UniqueIds, Acyclic, Categorize, InputIds, PathOf, NoWayAround;
    hide Passable;
    hide PairedRun, TwoInputsEach;
    var p := MethodsPipeline(c, x, f, h, e);
    MethodsValid(c, x, f, h, e);
    MethodsKinds(c, x, f, h, e);
    MethodsGraph(c, x, f, h, e);
    MethodsPassable(c, x, f, h, e);
    PairingEnumerationExactly(p, Pairing(h, [e], "HDR", 2), t);
    var ins := InputIds(p.nodes, h);
    assert x in ins && p.Lookup()[x].ManyMethods();
    MethodsOutputs(c, x, f, h, e);
    MethodsSound(c, x, f, h, e);
    MethodsNodes(c, x, f, h, e);
    EndsListed(p, p.Lookup()[c], p.Lookup()[e]);
    LookedUp(p);
    SoundPipeline(p, Some({"A", "B"}), c, e);
  }

  // ------------------------------------- two Pairing nodes that have nothing to do with each other

  /** A Capture, four Files, two Pairing nodes each fed by two of them, a Termination. */
  function TwoPairings(c: NodeId, f: seq<NodeId>, h1: NodeId, h2: NodeId, e: NodeId): PipelineConfig
    requires |f| == 4
  {
    Categorize(TwoPairingsNodes(c, f, h1, h2, e))
  }

  function TwoPairingsNodes(c: NodeId, f: seq<NodeId>, h1: NodeId, h2: NodeId, e: NodeId): seq<Node>
    requires |f| == 4
  {
    [Capture(c, f), File(f[0], [h1], ".A"), File(f[1], [h1], ".B"), File(f[2], [h2], ".C"), File(f[3], [h2], ".D"),
     Pairing(h1, [e], "HDR", 2), Pairing(h2, [e], "Panorama", 2), Termination(e, [], "Archive")]
  }

  ghost predicate EightIds(c: NodeId, f: seq<NodeId>, h1: NodeId, h2: NodeId, e: NodeId) {
    && |f| == 4 && c !in f && h1 !in f && h2 !in f && e !in f
    && f[0] != f[1] && f[0] != f[2] && f[0] != f[3] && f[1] != f[2] && f[1] != f[3] && f[2] != f[3]
    && c != h1 && c != h2 && c != e && h1 != h2 && h1 != e && h2 != e
  }

  lemma PairingsValid(c: NodeId, f: seq<NodeId>, h1: NodeId, h2: NodeId, e: NodeId)
    requires EightIds(c, f, h1, h2, e)
    ensures var p := TwoPairings(c, f, h1, h2, e);
            && p.Valid()
            && p.Lookup() == map[c := Capture(c, f), f[0] := File(f[0], [h1], ".A"), f[1] := File(f[1], [h1], ".B"),
                                 f[2] := File(f[2], [h2], ".C"), f[3] := File(f[3], [h2], ".D"),
                                 h1 := Pairing(h1, [e], "HDR", 2), h2 := Pairing(h2, [e], "Panorama", 2),
                                 e := Termination(e, [], "Archive")]
  {
    hide Select, Tabulates;
    assert f[0] in f && f[1] in f && f[2] in f && f[3] in f;
    var n0, n1, n2 := Capture(c, f), File(f[0], [h1], ".A"), File(f[1], [h1], ".B");
    var n3, n4, n7 := File(f[2], [h2], ".C"), File(f[3], [h2], ".D"), Termination(e, [], "Archive");
    var n5, n6 := Pairing(h1, [e], "HDR", 2), Pairing(h2, [e], "Panorama", 2);
    assert Tabulates([n0], map[c := n0]) by { SingleNode(n0); }
    OneMoreNode([n0], map[c := n0], n1);
    assert [n0] + [n1] == [n0, n1];
    OneMoreNode([n0, n1], map[c := n0, f[0] := n1], n2);
    assert [n0, n1] + [n2] == [n0, n1, n2];
    var first, table := [n0, n1, n2], map[c := n0, f[0] := n1, f[1] := n2];
    OneMoreNode(first, table, n3);
    OneMoreNode(first + [n3], table[f[2] := n3], n4);
    OneMoreNode(first + [n3] + [n4], table[f[2] := n3][f[3] := n4], n5);
    var more, larger := first + [n3] + [n4] + [n5], table[f[2] := n3][f[3] := n4][h1 := n5];
    OneMoreNode(more, larger, n6);
    OneMoreNode(more + [n6], larger[h2 := n6], n7);
    assert more + [n6] + [n7] == [n0, n1, n2, n3, n4, n5, n6, n7];
    TabulatedPipeline(more + [n6] + [n7], larger[h2 := n6][e := n7]);
  }

  function PairingsMap(c: NodeId, f: seq<NodeId>, h1: NodeId, h2: NodeId, e: NodeId): Graph
    requires |f| == 4
  {
    map[c := f, f[0] := [h1], f[1] := [h1], f[2] := [h2], f[3] := [h2], h1 := [e], h2 := [e], e := []]
  }

  lemma PairingsOutputs(c: NodeId, f: seq<NodeId>, h1: NodeId, h2: NodeId, e: NodeId)
    requires EightIds(c, f, h1, h2, e)
    ensures var p := TwoPairings(c, f, h1, h2, e); p.Valid() && p.Outputs() == PairingsMap(c, f, h1, h2, e)
  {
    hide Select, TwoPairings, PipelineConfig.UniqueIds, Categorize;
    assert f[0] in f && f[1] in f && f[2] in f && f[3] in f;
    PairingsValid(c, f, h1, h2, e);
    OutputsFromTable(TwoPairings(c, f, h1, h2, e));
  }

  lemma PairingsSound(c: NodeId, f: seq<NodeId>, h1: NodeId, h2: NodeId, e: NodeId)
    requires EightIds(c, f, h1, h2, e)
    ensures var g := PairingsMap(c, f, h1, h2, e);
            Acyclic(g) && forall v :: v in g ==> Reaches(g, c, v) && Reaches(g, v, e)
  {
    hide Acyclic, Reaches;
    assert f[0] in f && f[1] in f && f[2] in f && f[3] in f;
    var g := PairingsMap(c, f, h1, h2, e);
    RankedIsAcyclic(g, map[c := 0, f[0] := 1, f[1] := 1, f[2] := 1, f[3] := 1, h1 := 2, h2 := 2, e := 3]);
    ReachesSelf(g, c);
    ReachesSelf(g, e);
    ThreeSteps(g, c, f[0], h1, e);
    ThreeSteps(g, c, f[1], h1, e);
    ThreeSteps(g, c, f[2], h2, e);
    ThreeSteps(g, c, f[3], h2, e);
  }

  lemma ThreeSteps(g: Graph, c: NodeId, v: NodeId, h: NodeId, e: NodeId)
    requires Edge(g, c, v) && Edge(g, v, h) && Edge(g, h, e)
    ensures Reaches(g, c, v) && Reaches(g, c, h) && Reaches(g, c, e) && Reaches(g, v, e) && Reaches(g, h, e)
  {
    hide Reaches;
    EdgeReaches(g, c, v);
    EdgeReaches(g, v, h);
    EdgeReaches(g, h, e);
    ReachesTransitive(g, c, v, h);
    ReachesTransitive(g, c, h, e);
    ReachesTransitive(g, v, h, e);
  }

  lemma PairingsNodes(c: NodeId, f: seq<NodeId>, h1: NodeId, h2: NodeId, e: NodeId)
    requires EightIds(c, f, h1, h2, e)
    ensures var p := TwoPairings(c, f, h1, h2, e);
            p.Valid() && NothingDangles(p) && forall i :: 0 <= i < |p.nodes| ==> NodeError(p, p.nodes[i]) == None
  {
    hide Select, PipelineConfig.UniqueIds, InputIds, NodeError, TwoPairingsNodes, FineAlone;
    var p := TwoPairings(c, f, h1, h2, e);
    PairingsInputs(c, f, h1, h2, e);
    forall n | n in p.nodes ensures FineAlone(n) && (n.Pairing? ==> n.id == h1 || n.id == h2) {
      PairingsEach(c, f, h1, h2, e, n);
    }
    NodesFine(p);
    PairingsIds(c, f, h1, h2, e);
    forall n, o | n in p.nodes && o in n.output ensures o in p.Ids() { PairingsEach(c, f, h1, h2, e, n); }
  }

  lemma PairingsEach(c: NodeId, f: seq<NodeId>, h1: NodeId, h2: NodeId, e: NodeId, n: Node)
    requires EightIds(c, f, h1, h2, e) && n in TwoPairingsNodes(c, f, h1, h2, e)
    ensures FineAlone(n) && (n.Pairing? ==> n.id == h1 || n.id == h2)
    ensures forall o :: o in n.output ==> o in f || o == h1 || o == h2 || o == e
  {
    assert f == [f[0], f[1], f[2], f[3]];
  }

  lemma PairingsIds(c: NodeId, f: seq<NodeId>, h1: NodeId, h2: NodeId, e: NodeId)
    requires EightIds(c, f, h1, h2, e)
    ensures forall o :: o in f || o == h1 || o == h2 || o == e ==> o in TwoPairings(c, f, h1, h2, e).Ids()
  {
    hide Categorize, PipelineConfig.UniqueIds, TwoPairings;
    PairingsValid(c, f, h1, h2, e);
    assert f == [f[0], f[1], f[2], f[3]];
  }

  /** The inputs of both Pairing nodes are Files straight behind the Capture. */
  lemma PairingsInputs(c: NodeId, f: seq<NodeId>, h1: NodeId, h2: NodeId, e: NodeId)
    requires EightIds(c, f, h1, h2, e)
    ensures var p := TwoPairings(c, f, h1, h2, e);
            p.Valid() && forall h :: h == h1 || h == h2 ==>
              && |InputIds(p.nodes, h)| == 2
              && forall v :: v in InputIds(p.nodes, h) ==> v in p.Lookup() && p.Lookup()[v].File? && v in f
  {
    hide Select, TwoPairings, PipelineConfig.UniqueIds, Categorize, InputIds;
    var p := TwoPairings(c, f, h1, h2, e);
    assert f[0] in f && f[1] in f && f[2] in f && f[3] in f;
    PairingsValid(c, f, h1, h2, e);
    TwoFeed(p, h1, f[0], f[1]);
    TwoFeed(p, h2, f[2], f[3]);
  }

  lemma PairingsPass(c: NodeId, f: seq<NodeId>, h1: NodeId, h2: NodeId, e: NodeId)
    requires EightIds(c, f, h1, h2, e)
    ensures var p := TwoPairings(c, f, h1, h2, e); p.Valid() && PassesCheckers(p, None) && Acyclic(p.Outputs())
  {
    hide Select, TwoPairings, PipelineConfig.UniqueIds, Categorize, PassesCheckers, Acyclic, Reaches, NodeError;
    hide NothingDangles, MethodsKnown;
    var p := TwoPairings(c, f, h1, h2, e);
    assert f[0] in f && f[1] in f && f[2] in f && f[3] in f;
    PairingsValid(c, f, h1, h2, e);
    PairingsOutputs(c, f, h1, h2, e);
    PairingsSound(c, f, h1, h2, e);
    PairingsNodes(c, f, h1, h2, e);
    LookedUp(p);
    EndsListed(p, p.Lookup()[c], p.Lookup()[e]);
    SoundPipeline(p, None, c, e);
  }

  lemma PairingsExist(p: PipelineConfig, c: Node)
    requires p.Valid() && c in p.nodes && c.Capture?
    ensures c in p.captureNodes
    ensures forall n :: n in p.pairingNodes ==> n.id in p.Lookup() && p.Lookup()[n.id] == n
  {
    hide PipelineConfig.UniqueIds;
  }

  /** With both inputs straight behind a Capture and a Termination straight behind it, the Pairing node processed first
      is on some path. */
  lemma FirstIsReached(p: PipelineConfig, c: Node, e: NodeId)
    requires p.Valid() && p.pairingNodes != [] && TwoInputsEach(p) && Acyclic(p.Outputs()) && ProcessingOrder(p) != []
    requires c in p.captureNodes && c.id in p.Lookup() && p.Lookup()[c.id] == c && c.Capture?
    requires e in p.Lookup() && p.Lookup()[e].Termination? && e in ProcessingOrder(p)[0].output
    requires forall v :: v in InputIds(p.nodes, ProcessingOrder(p)[0].id) ==>
               v in p.Lookup() && p.Lookup()[v].File? && v in c.output
    ensures exists t :: PathOf(p, t) && ProcessingOrder(p)[0].id in PairingsOn(t)
  {
    hide Acyclic, InputIds, ProcessingOrder, PathOf, PairingsOn, Categorize, PipelineConfig.UniqueIds;
    SettingIsOk(p);
    hide EndsBehind, StageFed, Setting.Ok, TwoInputsEach;
    var st, ins := SettingOf(p), InputIds(p.nodes, ProcessingOrder(p)[0].id);
    FilesFeed(st, c);
    EndsAtOnce(st, e);
    PairingReachedExactly(p, 0);
  }

  lemma FilesFeed(st: Setting, c: Node)
    requires st.Ok() && st.order != [] && c in st.captures && c.id in st.nodes && st.nodes[c.id] == c && c.Capture?
    requires forall v :: v in st.Inputs(0) ==> v in st.nodes && st.nodes[v].File? && v in c.output
    ensures StageFed(st, 0)
  {
    hide Finds, Setting.Inputs;
    var ins := st.Inputs(0);
    assert ins[0] in ins && ins[1] in ins;
    FileIsFound(st.nodes, c.id, ins[0]);
    FileIsFound(st.nodes, c.id, ins[1]);
  }

  lemma EndsAtOnce(st: Setting, e: NodeId)
    requires st.order != [] && e in st.order[0].output && e in st.nodes && st.nodes[e].Termination?
    ensures EndsBehind(st, 0)
  {
    var j :| 0 <= j < |st.order[0].output| && st.order[0].output[j] == e;
    assert EndWay(st, 0, st.order[0].output[j], [e]);
  }

  lemma FileIsFound(nodes: Nodes, c: NodeId, v: NodeId)
    requires Keyed(nodes) && c in nodes && nodes[c].Capture? && v in nodes && nodes[v].File? && v in nodes[c].output
    ensures Finds(nodes, c, v)
  {
    assert Edge(GraphOf(nodes), c, v);
    assert Way(nodes, c, [c, v]);
  }

  lemma PairingsGraph(c: NodeId, f: seq<NodeId>, h1: NodeId, h2: NodeId, e: NodeId)
    requires EightIds(c, f, h1, h2, e)
    ensures var p := TwoPairings(c, f, h1, h2, e);
            && p.Valid()
            && (forall v :: Edge(p.Outputs(), h1, v) ==> v == e)
            && (forall v :: Edge(p.Outputs(), h2, v) ==> v == e)
            && (forall v :: !Edge(p.Outputs(), e, v))
  {
    hide Select, TwoPairings, PipelineConfig.UniqueIds, Categorize;
    var p := TwoPairings(c, f, h1, h2, e);
    assert f[0] in f && f[1] in f && f[2] in f && f[3] in f;
    PairingsValid(c, f, h1, h2, e);
    OutputsFromTable(p);
  }

  lemma OutputsFromTable(p: PipelineConfig)
    requires p.Valid()
    ensures p.Outputs().Keys == p.Lookup().Keys
    ensures forall id :: id in p.Outputs() ==> id in p.Lookup() && p.Outputs()[id] == p.Lookup()[id].output
  {
    hide Categorize;
  }

  lemma PairingsKinds(c: NodeId, f: seq<NodeId>, h1: NodeId, h2: NodeId, e: NodeId)
    requires EightIds(c, f, h1, h2, e)
    ensures var p := TwoPairings(c, f, h1, h2, e);
            && p.Valid() && TwoInputsEach(p)
            && (forall n :: n in p.pairingNodes ==> n.id == h1 || n.id == h2)
            && (exists n :: n in p.pairingNodes && n.id == h1) && (exists n :: n in p.pairingNodes && n.id == h2)
  {
    hide Select, TwoPairings, PipelineConfig.UniqueIds, InputIds, Categorize;
    var p := TwoPairings(c, f, h1, h2, e);
    assert f[0] in f && f[1] in f && f[2] in f && f[3] in f;
    PairingsValid(c, f, h1, h2, e);
    PairingNodesExist(p);
    LookedUp(p);
    PairingIsListed(p, p.Lookup()[h1]);
    PairingIsListed(p, p.Lookup()[h2]);
    TwoFeed(p, h1, f[0], f[1]);
    TwoFeed(p, h2, f[2], f[3]);
  }

  lemma LookedUp(p: PipelineConfig)
    requires p.Valid()
    ensures forall n :: n in p.nodes ==> n.id in p.Lookup() && p.Lookup()[n.id] == n
    ensures forall id :: id in p.Lookup() ==> p.Lookup()[id] in p.nodes
  {
    hide Categorize;
  }

  /** A vertex that leads only to a vertex that leads nowhere reaches nothing else. */
  lemma DeadEndReaches(g: Graph, a: NodeId, b: NodeId, e: NodeId)
    requires (forall v :: Edge(g, a, v) ==> v == e) && (forall v :: !Edge(g, e, v)) && b != a && b != e
    ensures !Reaches(g, a, b)
  {
    if Reaches(g, a, b) {
      var w :| WalkFrom(g, a, b, w);
      ClosedSetHoldsWalk(g, {a, e}, w);
    }
  }

  /** The pipeline passes both checkers and the input check, and each Pairing node has both its inputs straight from the
      Capture; yet only the one processed first is on a path, the other one on none. */
  lemma UnrelatedPairingIsLost(c: NodeId, f: seq<NodeId>, h1: NodeId, h2: NodeId, e: NodeId, t: Path)
    requires EightIds(c, f, h1, h2, e)
    ensures var p := TwoPairings(c, f, h1, h2, e);
            var order := ProcessingOrder(p);
            && p.Valid() && PassesCheckers(p, None) && TwoInputsEach(p)
            && |order| == 2 && {order[0].id, order[1].id} == {h1, h2}
            && (exists t0 :: PathOf(p, t0) && order[0].id in PairingsOn(t0))
            && (PathOf(p, t) ==> order[1].id !in PairingsOn(t))
  {
    hide InputIds, Select, PathOf, ProcessingOrder, Reaches, PairingsOn, TwoPairings, Categorize, PassesCheckers;
    hide PipelineConfig.UniqueIds, Acyclic, TwoInputsEach;
    var p := TwoPairings(c, f, h1, h2, e);
    PairingsPass(c, f, h1, h2, e);
    PairingsKinds(c, f, h1, h2, e);
    PairingsGraph(c, f, h1, h2, e);
    PairingsOrder(p, h1, h2);
    var order := ProcessingOrder(p);
    DeadEndReaches(p.Outputs(), h1, h2, e);
    DeadEndReaches(p.Outputs(), h2, h1, e);
    if PathOf(p, t) && order[1].id in PairingsOn(t) { RecordedIsChained(p, t, 1); }
    PairingsFirst(c, f, h1, h2, e);
  }

  lemma PairingsOrder(p: PipelineConfig, h1: NodeId, h2: NodeId)
    requires p.Valid() && (forall n :: n in p.pairingNodes ==> n.id == h1 || n.id == h2) && h1 != h2
    requires (exists n :: n in p.pairingNodes && n.id == h1) && (exists n :: n in p.pairingNodes && n.id == h2)
    ensures var order := ProcessingOrder(p);
            && |order| == 2 && {order[0].id, order[1].id} == {h1, h2} && forall n :: n in order <==> n in p.pairingNodes
  {
    hide ProcessingOrder, Categorize, PipelineConfig.UniqueIds;
    var order := ProcessingOrder(p);
    ProcessingOrderMeans(p);
    MembersFromMultisets(order, p.pairingNodes);
    PairingsAreApart(p);
    IdsApartSurvive(p.pairingNodes, order);
    TwoNodes(order, h1, h2);
  }

  lemma TwoNodes(order: seq<Node>, h1: NodeId, h2: NodeId)
    requires (forall n :: n in order ==> n.id == h1 || n.id == h2) && h1 != h2
    requires (exists n :: n in order && n.id == h1) && (exists n :: n in order && n.id == h2)
    requires forall i, j :: 0 <= i < j < |order| ==> order[i].id != order[j].id
    ensures |order| == 2 && {order[0].id, order[1].id} == {h1, h2}
  {
    var n1 :| n1 in order && n1.id == h1;
    var n2 :| n2 in order && n2.id == h2;
    KindListed(order, n1);
    KindListed(order, n2);
    OnlyTwoIds(order, h1, h2);
    DistinctCardinality(NodeIds(order));
    assert order[0] in order && order[1] in order;
  }

  lemma OnlyTwoIds(order: seq<Node>, h1: NodeId, h2: NodeId)
    requires forall n :: n in order ==> n.id == h1 || n.id == h2
    requires h1 in NodeIds(order) && h2 in NodeIds(order)
    ensures Elements(NodeIds(order)) == {h1, h2}
  {
    forall v | v in NodeIds(order) ensures v == h1 || v == h2 {
      var i :| 0 <= i < |order| && NodeIds(order)[i] == v;
      assert order[i] in order;
    }
  }

  lemma PairingsFirst(c: NodeId, f: seq<NodeId>, h1: NodeId, h2: NodeId, e: NodeId)
    requires EightIds(c, f, h1, h2, e)
    ensures var p := TwoPairings(c, f, h1, h2, e);
            && p.Valid() && ProcessingOrder(p) != []
            && exists t :: PathOf(p, t) && ProcessingOrder(p)[0].id in PairingsOn(t)
  {
    hide InputIds, Select, PathOf, ProcessingOrder, PairingsOn, TwoPairings, Categorize, PassesCheckers;
    hide PipelineConfig.UniqueIds, Acyclic, TwoInputsEach;
    var p := TwoPairings(c, f, h1, h2, e);
    assert f[0] in f && f[1] in f && f[2] in f && f[3] in f;
    PairingsValid(c, f, h1, h2, e);
    PairingsKinds(c, f, h1, h2, e);
    PairingsPass(c, f, h1, h2, e);
    PairingsOrder(p, h1, h2);
    PairingsInputs(c, f, h1, h2, e);
    PairingsExist(p, p.Lookup()[c]);
    assert ProcessingOrder(p)[0] in p.pairingNodes;
    FirstIsReached(p, p.Lookup()[c], e);
  }

  lemma RecordedIsChained(p: PipelineConfig, t: Path, k: nat)
    requires p.Valid() && p.pairingNodes != [] && PathOf(p, t) && 0 < k < |ProcessingOrder(p)|
    requires ProcessingOrder(p)[k].id in PairingsOn(t)
    ensures Reaches(p.Outputs(), ProcessingOrder(p)[k - 1].id, ProcessingOrder(p)[k].id)
  {
    hide Enumerable, Setting.Consistent, ProcessingOrder, Reaches, PairingsOn;
    SettingIsOk(p);
    SettingIsConsistent(p);
    GraphsAgree(p);
    PairingsAreChained(SettingOf(p), t, k, k);
  }
}

/** A completed job that leaves `execute` by an exception. */
module JobCounterexamples {
  import opened Options
  import opened JobExecutors

  /** Everything goes well, until closing the progress reporter is cut short. */
  function CutWhileClosing(results: string): Script {
    var fine: Outcome<()> := Returned(());
    Script(fine, fine, fine, Returned(None), fine, fine, Returned(JobResult(true, results, None, "")), fine,
           Returned(None), Returned(None), fine, fine, fine, fine, true)
  }

  /** The completion is acknowledged, and `execute` raises all the same. */
  lemma CompletedYetRaised(job: Job, results: string, r: Outcome<()>, t: seq<Event>)
    requires job.hasSecret && |results| <= INLINE_JSON_THRESHOLD
    ensures var s, done := CutWhileClosing(results), Complete(job.guid, Some(results), None, None, None, None);
            && (JobEnds(job, s, r, t) ==> Completed(t) && r.Raised?)
            && JobEnds(job, s, Raised(Interrupted), [Event(done, true)]) && Session([Event(done, true)], job.guid)
  {
    hide INLINE_JSON_THRESHOLD;
  }
}
