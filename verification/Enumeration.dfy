/** The bookkeeping of a depth-first search, for every search mode, and why it halts. */
module SearchSteps {
  import opened Walks
  import opened Pipelines
  import opened Runs

  function Count(counts: map<NodeId, int>, id: NodeId): int { if id in counts then counts[id] else 0 }

  /** The iteration counts a search carries are the visits on its current path. */
  ghost predicate CountsMatch(nodes: Nodes, counts: map<NodeId, int>, s: Path) {
    forall x :: x in nodes && nodes[x].Limited() ==> Count(counts, x) == Visits(s, x)
  }

  function Counting(nodes: Nodes, counts: map<NodeId, int>, id: NodeId): map<NodeId, int>
    requires id in nodes
  {
    if nodes[id].Limited() then counts[id := Count(counts, id) + 1] else counts
  }

  lemma CountsAppend(nodes: Nodes, counts: map<NodeId, int>, s: Path, id: NodeId, e: Entry)
    requires Keyed(nodes) && CountsMatch(nodes, counts, s) && id in nodes && Emits(nodes[id], e)
    ensures CountsMatch(nodes, Counting(nodes, counts, id), s + [e])
  {
    forall x { VisitsAppend(s, e, x); }
  }

  /** Visits spent so far, and visits available in all. */
  ghost function Spent(nodes: Nodes, s: Path): int { VisitsIn(s, LimitedIds(nodes)) }
  ghost function Budget(nodes: Nodes): int { MAX_ITERATIONS * |LimitedIds(nodes)| }

  /** Why the searches halt: each step uses up a visit or lengthens a walk through uncounted nodes. */
  lemma SearchHalts(nodes: Nodes, m: Mode, start: NodeId, s: Path, id: NodeId, e: Entry)
    requires Keyed(nodes) && Acyclic(FreeGraph(nodes, m)) && Chain(nodes, m, start, s)
    requires id in nodes && Next(nodes, start, s, id) && Room(nodes, s, id) && Emits(nodes[id], e) &&
              Passes(m, nodes[id])
    ensures Chain(nodes, m, start, s + [e])
    ensures Spent(nodes, s) <= Budget(nodes) && |TrailingFree(s)| <= |FreeGraph(nodes, m)|
    ensures Spent(nodes, s) < Spent(nodes, s + [e]) ||
            (Spent(nodes, s) == Spent(nodes, s + [e]) && |TrailingFree(s)| < |TrailingFree(s + [e])|)
  {
    ChainAppend(nodes, m, start, s, e);
    MeasureIsNatural(nodes, m, start, s);
    MeasureDrops(nodes, m, start, s, e);
  }

  /** The record of a visit to a node that is no Process with several methods. */
  function NodeInfo(n: Node): (e: Entry)
    requires !n.ManyMethods()
    ensures Emits(n, e)
  {
    match n
    case Capture(id, _) => CaptureStep(id)
    case File(id, _, extension) => FileStep(id, extension)
    case Process(id, _, methodIds) => ProcessStep(id, if methodIds == [] then "" else methodIds[0])
    case Pairing(id, _, pairingType, _) => PairingStep(id, pairingType)
    case Branching(id, _, condition) => BranchStep(id, condition)
    case Termination(id, _, terminationType) => EndStep(id, terminationType)
  }

  lemma EmptyChain(nodes: Nodes, m: Mode, start: NodeId)
    ensures Chain(nodes, m, start, []) && Next(nodes, start, [], start)
  {
  }

  lemma NoVisitsYet(nodes: Nodes)
    ensures CountsMatch(nodes, map[], [])
  {
  }
}

/** The runs of a search in the order a depth-first search meets them, and that they are all of them. */
module Listings {
  import opened Walks
  import opened Runs
  import opened SearchSteps

  // ------------------------------------------------------------ lists of paths

  /** What `f` gives for each element, one after the other. */
  ghost function Gather<T>(xs: seq<T>, f: T -> seq<Path>): seq<Path> {
    if xs == [] then [] else Gather(xs[..|xs| - 1], f) + f(xs[|xs| - 1])
  }

  lemma GatherStep<T>(xs: seq<T>, f: T -> seq<Path>, k: nat)
    requires k < |xs|
    ensures Gather(xs[..k + 1], f) == Gather(xs[..k], f) + f(xs[k])
  {
    assert xs[..k + 1][..k] == xs[..k];
  }

  lemma {:induction false} GatherMembers<T>(xs: seq<T>, f: T -> seq<Path>, t: Path)
    ensures t in Gather(xs, f) <==> exists i :: 0 <= i < |xs| && t in f(xs[i])
  {
    if xs != [] {
      var rest := xs[..|xs| - 1];
      GatherMembers(rest, f, t);
      if i :| 0 <= i < |rest| && t in f(rest[i]) { assert t in f(xs[i]); }
      if i :| 0 <= i < |xs| && t in f(xs[i]) {
        if i < |rest| { assert t in f(rest[i]); }
      }
    }
  }

  ghost function Kept(paths: seq<Path>, keep: Path -> bool): (r: seq<Path>)
    ensures forall t :: t in r <==> t in paths && keep(t)
  {
    if paths == [] then []
    else
      var rest, t := paths[..|paths| - 1], paths[|paths| - 1];
      assert paths == rest + [t];
      Kept(rest, keep) + if keep(t) then [t] else []
  }

  // ------------------------------------------------------------ the order of the search

  /** The runs that continue `s` through `id`: method by method, output by output. */
  ghost function RunsVia(nodes: Nodes, m: Mode, start: NodeId, s: Path, id: NodeId): seq<Path>
    requires Keyed(nodes) && Acyclic(FreeGraph(nodes, m)) && Chain(nodes, m, start, s)
    requires id in nodes ==> Next(nodes, start, s, id)
    decreases Budget(nodes) - Spent(nodes, s), |FreeGraph(nodes, m)| - |TrailingFree(s)|, 1, 0
  {
    if id !in nodes then []
    else if !Room(nodes, s, id) then [s + [Truncated]]
    else if nodes[id].ManyMethods() then RunsByMethod(nodes, m, start, s, id, |nodes[id].methodIds|)
    else
      var e := NodeInfo(nodes[id]);
      if Ends(m, nodes[id]) then [s + [e]]
      else if !Passes(m, nodes[id]) then []
      else
        SearchHalts(nodes, m, start, s, id, e);
        RunsOnward(nodes, m, start, s + [e], false, |nodes[id].output|)
  }

  /** Those with one of the first `j` methods of the Process node `id`. */
  ghost function RunsByMethod(nodes: Nodes, m: Mode, start: NodeId, s: Path, id: NodeId, j: nat): seq<Path>
    requires Keyed(nodes) && Acyclic(FreeGraph(nodes, m)) && Chain(nodes, m, start, s)
    requires id in nodes && nodes[id].ManyMethods() && Next(nodes, start, s, id) && Room(nodes, s, id)
    requires j <= |nodes[id].methodIds|
    decreases Budget(nodes) - Spent(nodes, s), |FreeGraph(nodes, m)| - |TrailingFree(s)|, 0, j
  {
    if j == 0 then []
    else
      var e := ProcessStep(id, nodes[id].methodIds[j - 1]);
      SearchHalts(nodes, m, start, s, id, e);
      RunsByMethod(nodes, m, start, s, id, j - 1) +
      RunsOnward(nodes, m, start, s + [e], true, |nodes[id].output|)
  }

  /** Those through one of the first `k` outputs of the node visited last, and `s` itself for each output where the
      search stops. */
  ghost function RunsOnward(nodes: Nodes, m: Mode, start: NodeId, s: Path, many: bool, k: nat): seq<Path>
    requires Keyed(nodes) && Acyclic(FreeGraph(nodes, m)) && Chain(nodes, m, start, s)
    requires s != [] && Visit(nodes, m, s[|s| - 1]) && k <= |nodes[s[|s| - 1].id].output|
    decreases Budget(nodes) - Spent(nodes, s), |FreeGraph(nodes, m)| - |TrailingFree(s)|, 2, k
  {
    if k == 0 then []
    else
      var next := nodes[s[|s| - 1].id].output[k - 1];
      RunsOnward(nodes, m, start, s, many, k - 1) +
      if StopsAt(nodes, m, many, next) then [s] else RunsVia(nodes, m, start, s, next)
  }

  /** All runs from `start`. */
  ghost function RunsFrom(nodes: Nodes, m: Mode, start: NodeId): seq<Path>
    requires Keyed(nodes) && Acyclic(FreeGraph(nodes, m))
  {
    EmptyChain(nodes, m, start);
    RunsVia(nodes, m, start, [], start)
  }

  // ------------------------------------------------------------ they are exactly the runs

  /** `found` is exactly the set of runs continuing `s` through `id`. */
  ghost predicate FoundVia(nodes: Nodes, m: Mode, start: NodeId, s: Path, id: NodeId, found: seq<Path>) {
    forall t :: t in found <==> Via(nodes, m, start, s, id, t)
  }

  /** What the loop over the outputs `ids` behind `s` is to find: the runs onward, and `s` itself where the search
      stops. */
  ghost predicate Continues(nodes: Nodes, m: Mode, start: NodeId, s: Path, many: bool, ids: seq<NodeId>, t: Path) {
    ViaAny(nodes, m, start, s, ids, t) || (t == s && StopsAmong(nodes, m, many, ids))
  }

  ghost predicate FoundOnward(nodes: Nodes, m: Mode, start: NodeId, s: Path, many: bool, ids: seq<NodeId>,
                              found: seq<Path>) {
    forall t :: t in found <==> Continues(nodes, m, start, s, many, ids, t)
  }

  /** The same for the runs continuing `s` through the Process node `id` with one of `methods`. */
  ghost predicate FoundViaMethods(nodes: Nodes, m: Mode, start: NodeId, s: Path, id: NodeId, methods: seq<string>,
                                  found: seq<Path>)
    requires id in nodes
  {
    forall t :: t in found <==> ViaMethod(nodes, m, start, s, id, methods, t)
  }

  ghost predicate ViaMethod(nodes: Nodes, m: Mode, start: NodeId, s: Path, id: NodeId, methods: seq<string>, t: Path)
    requires id in nodes
  {
    exists j :: 0 <= j < |methods| &&
        Continues(nodes, m, start, s + [ProcessStep(id, methods[j])], true, nodes[id].output, t)
  }

  lemma FoundNowhere(nodes: Nodes, m: Mode, start: NodeId, s: Path, id: NodeId)
    requires id !in nodes
    ensures FoundVia(nodes, m, start, s, id, [])
  {
  }

  lemma FoundCut(nodes: Nodes, m: Mode, start: NodeId, s: Path, id: NodeId)
    requires Chain(nodes, m, start, s) && id in nodes && Next(nodes, start, s, id) && !Room(nodes, s, id)
    ensures FoundVia(nodes, m, start, s, id, [s + [Truncated]])
  {
    hide Via;
    forall t ensures Via(nodes, m, start, s, id, t) <==> t == s + [Truncated] {
      NoRoomMeansCut(nodes, m, start, s, id, t);
    }
  }

  /** Which entries a visit can record, and so which continuations there are. */
  lemma ViaOnly(nodes: Nodes, m: Mode, start: NodeId, s: Path, id: NodeId, e: Entry, t: Path)
    requires Keyed(nodes)
    requires Chain(nodes, m, start, s) && id in nodes && Next(nodes, start, s, id) && Room(nodes, s, id)
    requires Emits(nodes[id], e) && !nodes[id].ManyMethods()
    ensures Via(nodes, m, start, s, id, t) <==> ViaVisit(nodes, m, start, s, id, e, t)
  {
    hide Via, ViaVisit;
    ViaSplits(nodes, m, start, s, id, t);
    forall e' | Emits(nodes[id], e') ensures e' == e {}
  }

  /** A node that ends the search yields one run, the one recording it. */
  lemma FoundEnd(nodes: Nodes, m: Mode, start: NodeId, s: Path, id: NodeId, e: Entry)
    requires Keyed(nodes)
    requires Chain(nodes, m, start, s) && id in nodes && Next(nodes, start, s, id) && Room(nodes, s, id)
    requires Emits(nodes[id], e) && !nodes[id].ManyMethods() && Ends(m, nodes[id])
    ensures FoundVia(nodes, m, start, s, id, [s + [e]])
  {
    hide Via, ViaAny;
    forall t ensures Via(nodes, m, start, s, id, t) <==> t == s + [e] {
      ViaOnly(nodes, m, start, s, id, e, t);
      EndsGoesNoFurther(nodes, m, start, s, id, e, t);
    }
  }

  /** A node the search turns back at yields nothing. */
  lemma FoundTurnBack(nodes: Nodes, m: Mode, start: NodeId, s: Path, id: NodeId, e: Entry)
    requires Keyed(nodes)
    requires Chain(nodes, m, start, s) && id in nodes && Next(nodes, start, s, id) && Room(nodes, s, id)
    requires Emits(nodes[id], e) && !nodes[id].ManyMethods() && !Ends(m, nodes[id]) && !Passes(m, nodes[id])
    ensures FoundVia(nodes, m, start, s, id, [])
  {
    hide Via, ViaAny;
    forall t ensures !Via(nodes, m, start, s, id, t) {
      ViaOnly(nodes, m, start, s, id, e, t);
      EndsGoesNoFurther(nodes, m, start, s, id, e, t);
    }
  }

  /** A node the search goes through yields what its outputs yield, and itself where the search stops before a
      Pairing. */
  lemma FoundThrough(nodes: Nodes, m: Mode, start: NodeId, s: Path, id: NodeId, e: Entry, found: seq<Path>)
    requires Keyed(nodes)
    requires Chain(nodes, m, start, s) && id in nodes && Next(nodes, start, s, id) && Room(nodes, s, id)
    requires Emits(nodes[id], e) && !nodes[id].ManyMethods() && Passes(m, nodes[id])
    requires FoundOnward(nodes, m, start, s + [e], false, nodes[id].output, found)
    ensures FoundVia(nodes, m, start, s, id, found)
  {
    hide Via, ViaAny;
    forall t ensures Via(nodes, m, start, s, id, t) <==> ViaVisit(nodes, m, start, s, id, e, t) {
      ViaOnly(nodes, m, start, s, id, e, t);
    }
  }

  lemma FoundMethods(nodes: Nodes, m: Mode, start: NodeId, s: Path, id: NodeId, found: seq<Path>)
    requires Keyed(nodes)
    requires Chain(nodes, m, start, s) && id in nodes && Next(nodes, start, s, id) && Room(nodes, s, id)
    requires nodes[id].ManyMethods()
    requires FoundViaMethods(nodes, m, start, s, id, nodes[id].methodIds, found)
    ensures FoundVia(nodes, m, start, s, id, found)
  {
    hide Via, ViaVisit, Continues;
    forall t ensures Via(nodes, m, start, s, id, t) <==> ViaMethod(nodes, m, start, s, id, nodes[id].methodIds, t) {
      ViaSplits(nodes, m, start, s, id, t);
      if e :| Emits(nodes[id], e) && ViaVisit(nodes, m, start, s, id, e, t) {
        var j :| 0 <= j < |nodes[id].methodIds| && nodes[id].methodIds[j] == e.methodId;
        assert e == ProcessStep(id, nodes[id].methodIds[j]);
        MethodVisit(nodes, m, start, s, id, e, t);
      }
      if j :| 0 <= j < |nodes[id].methodIds| &&
              Continues(nodes, m, start, s + [ProcessStep(id, nodes[id].methodIds[j])], true, nodes[id].output, t) {
        assert Emits(nodes[id], ProcessStep(id, nodes[id].methodIds[j]));
        MethodVisit(nodes, m, start, s, id, ProcessStep(id, nodes[id].methodIds[j]), t);
      }
    }
  }

  lemma MethodVisit(nodes: Nodes, m: Mode, start: NodeId, s: Path, id: NodeId, e: Entry, t: Path)
    requires id in nodes && nodes[id].ManyMethods()
    ensures ViaVisit(nodes, m, start, s, id, e, t) <==> Continues(nodes, m, start, s + [e], true, nodes[id].output, t)
  {
    hide ViaAny;
  }

  lemma ViaAnySplits(nodes: Nodes, m: Mode, start: NodeId, s: Path, ids: seq<NodeId>, k: nat, t: Path)
    requires k < |ids|
    ensures ViaAny(nodes, m, start, s, ids[..k + 1], t) <==>
            ViaAny(nodes, m, start, s, ids[..k], t) || Via(nodes, m, start, s, ids[k], t)
  {
    hide Via;
    var two := ids[..k + 1];
    if ViaAny(nodes, m, start, s, ids[..k], t) {
      var i :| 0 <= i < k && Via(nodes, m, start, s, ids[..k][i], t);
      assert two[i] == ids[..k][i];
    }
    assert two[k] == ids[k];
    if i :| 0 <= i < |two| && Via(nodes, m, start, s, two[i], t) {
      if i < k { assert two[i] == ids[..k][i]; }
    }
  }

  /** The loop over outputs, one output further. */
  lemma FoundNextOutput(nodes: Nodes, m: Mode, start: NodeId, s: Path, many: bool, ids: seq<NodeId>, k: nat,
                        before: seq<Path>, more: seq<Path>)
    requires k < |ids| && FoundOnward(nodes, m, start, s, many, ids[..k], before)
    requires forall t :: t in more <==>
              Via(nodes, m, start, s, ids[k], t) || (t == s && StopsAt(nodes, m, many, ids[k]))
    ensures FoundOnward(nodes, m, start, s, many, ids[..k + 1], before + more)
  {
    hide Via, StopsAt;
    assert ids[..k + 1] == ids[..k] + [ids[k]];
    forall t ensures ViaAny(nodes, m, start, s, ids[..k + 1], t) <==>
                     ViaAny(nodes, m, start, s, ids[..k], t) || Via(nodes, m, start, s, ids[k], t) {
      ViaAnySplits(nodes, m, start, s, ids, k, t);
    }
  }

  /** The loop over methods, one method further. */
  lemma FoundNextMethod(nodes: Nodes, m: Mode, start: NodeId, s: Path, id: NodeId, methods: seq<string>, j: nat,
                        before: seq<Path>, more: seq<Path>)
    requires id in nodes && j < |methods|
    requires FoundViaMethods(nodes, m, start, s, id, methods[..j], before)
    requires FoundOnward(nodes, m, start, s + [ProcessStep(id, methods[j])], true, nodes[id].output, more)
    ensures FoundViaMethods(nodes, m, start, s, id, methods[..j + 1], before + more)
  {
    hide Continues;
    forall t ensures ViaMethod(nodes, m, start, s, id, methods[..j + 1], t) <==>
                     ViaMethod(nodes, m, start, s, id, methods[..j], t) ||
                     Continues(nodes, m, start, s + [ProcessStep(id, methods[j])], true, nodes[id].output, t) {
      var two := methods[..j + 1];
      if ViaMethod(nodes, m, start, s, id, methods[..j], t) {
        var i :| 0 <= i < j &&
                 Continues(nodes, m, start, s + [ProcessStep(id, methods[..j][i])], true, nodes[id].output, t);
        assert two[i] == methods[..j][i];
      }
      assert two[j] == methods[j];
      if i :| 0 <= i < j + 1 && Continues(nodes, m, start, s + [ProcessStep(id, two[i])], true, nodes[id].output, t) {
        if i < j { assert two[i] == methods[..j][i]; }
      }
    }
  }

  lemma NothingFound(nodes: Nodes, m: Mode, start: NodeId, s: Path, many: bool, id: NodeId)
    ensures FoundOnward(nodes, m, start, s, many, [], [])
    ensures id in nodes ==> FoundViaMethods(nodes, m, start, s, id, [], [])
  {
  }

  lemma {:induction false} ViaListed(nodes: Nodes, m: Mode, start: NodeId, s: Path, id: NodeId)
    requires Keyed(nodes) && Acyclic(FreeGraph(nodes, m)) && Chain(nodes, m, start, s)
    requires id in nodes ==> Next(nodes, start, s, id)
    ensures FoundVia(nodes, m, start, s, id, RunsVia(nodes, m, start, s, id))
    decreases Budget(nodes) - Spent(nodes, s), |FreeGraph(nodes, m)| - |TrailingFree(s)|, 1, 0
  {
    hide FoundVia, FoundOnward, FoundViaMethods, Acyclic, FreeGraph, Chain, Next, Visits, Spent, TrailingFree;
    if id !in nodes {
      FoundNowhere(nodes, m, start, s, id);
    } else if !Room(nodes, s, id) {
      FoundCut(nodes, m, start, s, id);
    } else if nodes[id].ManyMethods() {
      MethodsListed(nodes, m, start, s, id, |nodes[id].methodIds|);
      assert nodes[id].methodIds[..|nodes[id].methodIds|] == nodes[id].methodIds;
      FoundMethods(nodes, m, start, s, id, RunsVia(nodes, m, start, s, id));
    } else {
      var e := NodeInfo(nodes[id]);
      if Ends(m, nodes[id]) {
        FoundEnd(nodes, m, start, s, id, e);
      } else if !Passes(m, nodes[id]) {
        FoundTurnBack(nodes, m, start, s, id, e);
      } else {
        SearchHalts(nodes, m, start, s, id, e);
        OnwardListed(nodes, m, start, s + [e], false, |nodes[id].output|);
        assert nodes[id].output[..|nodes[id].output|] == nodes[id].output;
        FoundThrough(nodes, m, start, s, id, e, RunsVia(nodes, m, start, s, id));
      }
    }
  }

  lemma {:induction false} MethodsListed(nodes: Nodes, m: Mode, start: NodeId, s: Path, id: NodeId, j: nat)
    requires Keyed(nodes) && Acyclic(FreeGraph(nodes, m)) && Chain(nodes, m, start, s)
    requires id in nodes && nodes[id].ManyMethods() && Next(nodes, start, s, id) && Room(nodes, s, id)
    requires j <= |nodes[id].methodIds|
    ensures FoundViaMethods(nodes, m, start, s, id, nodes[id].methodIds[..j], RunsByMethod(nodes, m, start, s, id, j))
    decreases Budget(nodes) - Spent(nodes, s), |FreeGraph(nodes, m)| - |TrailingFree(s)|, 0, j
  {
    hide FoundOnward, FoundViaMethods, Acyclic, FreeGraph, Chain, Next, Visits, Spent, TrailingFree, Room;
    var methods, output := nodes[id].methodIds, nodes[id].output;
    if j == 0 {
      NothingFound(nodes, m, start, s, false, id);
    } else {
      var e := ProcessStep(id, methods[j - 1]);
      SearchHalts(nodes, m, start, s, id, e);
      MethodsListed(nodes, m, start, s, id, j - 1);
      OnwardListed(nodes, m, start, s + [e], true, |output|);
      assert output[..|output|] == output;
      FoundNextMethod(nodes, m, start, s, id, methods, j - 1, RunsByMethod(nodes, m, start, s, id, j - 1),
                      RunsOnward(nodes, m, start, s + [e], true, |output|));
    }
  }

  lemma {:induction false} OnwardListed(nodes: Nodes, m: Mode, start: NodeId, s: Path, many: bool, k: nat)
    requires Keyed(nodes) && Acyclic(FreeGraph(nodes, m)) && Chain(nodes, m, start, s)
    requires s != [] && Visit(nodes, m, s[|s| - 1]) && k <= |nodes[s[|s| - 1].id].output|
    ensures FoundOnward(nodes, m, start, s, many, nodes[s[|s| - 1].id].output[..k],
                        RunsOnward(nodes, m, start, s, many, k))
    decreases Budget(nodes) - Spent(nodes, s), |FreeGraph(nodes, m)| - |TrailingFree(s)|, 2, k
  {
    hide FoundVia, FoundOnward, Acyclic, FreeGraph, Chain, Visits, Spent, TrailingFree;
    var output := nodes[s[|s| - 1].id].output;
    if k == 0 {
      NothingFound(nodes, m, start, s, many, start);
    } else {
      OnwardListed(nodes, m, start, s, many, k - 1);
      ViaListed(nodes, m, start, s, output[k - 1]);
      var more := if StopsAt(nodes, m, many, output[k - 1]) then [s] else RunsVia(nodes, m, start, s, output[k - 1]);
      StoppedOrListed(nodes, m, start, s, many, output[k - 1], more);
      FoundNextOutput(nodes, m, start, s, many, output, k - 1, RunsOnward(nodes, m, start, s, many, k - 1), more);
    }
  }

  /** Where the search stops no run goes on. */
  lemma StoppedOrListed(nodes: Nodes, m: Mode, start: NodeId, s: Path, many: bool, x: NodeId, more: seq<Path>)
    requires Keyed(nodes) && Chain(nodes, m, start, s) && (x in nodes ==> Next(nodes, start, s, x))
    requires if StopsAt(nodes, m, many, x) then more == [s] else FoundVia(nodes, m, start, s, x, more)
    ensures forall t :: t in more <==> Via(nodes, m, start, s, x, t) || (t == s && StopsAt(nodes, m, many, x))
  {
    hide Via, Chain, Next;
    if StopsAt(nodes, m, many, x) { FoundTurnBack(nodes, m, start, s, x, NodeInfo(nodes[x])); }
  }

  /** Listed in the order of the search, the runs from `start` are all its runs. */
  lemma RunsFromExactly(nodes: Nodes, m: Mode, start: NodeId, t: Path)
    requires Keyed(nodes) && Acyclic(FreeGraph(nodes, m))
    ensures t in RunsFrom(nodes, m, start) <==> Run(nodes, m, start, t)
  {
    hide Run, Via, Acyclic, FreeGraph, Chain, Next;
    EmptyChain(nodes, m, start);
    ViaListed(nodes, m, start, [], start);
    RunIsViaStart(nodes, m, start, t);
  }
}

/** enumerate_all_paths: the depth-first enumeration for pipelines without Pairing nodes. */
module Enumeration {
  import opened Options
  import opened Walks
  import opened Pipelines
  import opened Runs
  import opened SearchSteps
  import opened Listings

  /** No target; a Pairing node raises. */
  const ALL := Mode(None, Raise)

  /** A run that met a Pairing node: the enumeration raises instead of recording it. */
  predicate Blocked(t: Path) { t != [] && t[|t| - 1].PairingStep? }

  /** The search added just the runs `listed`, in their order; or it raised, because one of them met a Pairing node. */
  ghost predicate Collected(listed: seq<Path>, added: seq<Path>, raised: bool) {
    if raised then exists t :: t in listed && Blocked(t) else added == listed && forall t :: t in added ==> !Blocked(t)
  }

  /** What one output yields is among what all outputs yield; and the same for methods. */
  lemma OutputHolds(nodes: Nodes, m: Mode, start: NodeId, s: Path, many: bool, k: nat, t: Path)
    requires Keyed(nodes) && Acyclic(FreeGraph(nodes, m)) && Chain(nodes, m, start, s)
    requires s != [] && Visit(nodes, m, s[|s| - 1]) && k < |nodes[s[|s| - 1].id].output|
    requires var next := nodes[s[|s| - 1].id].output[k];
             !StopsAt(nodes, m, many, next) && t in RunsVia(nodes, m, start, s, next)
    ensures t in RunsOnward(nodes, m, start, s, many, |nodes[s[|s| - 1].id].output|)
  {
    hide Acyclic, Chain, FreeGraph, RunsVia;
    var output := nodes[s[|s| - 1].id].output;
    assert RunsOnward(nodes, m, start, s, many, k + 1) ==
           RunsOnward(nodes, m, start, s, many, k) + RunsVia(nodes, m, start, s, output[k]);
    OnwardGrows(nodes, m, start, s, many, k + 1, |output|);
    InPrefix(RunsOnward(nodes, m, start, s, many, k + 1), RunsOnward(nodes, m, start, s, many, |output|), t);
  }

  lemma {:induction false} OnwardGrows(nodes: Nodes, m: Mode, start: NodeId, s: Path, many: bool, k: nat, n: nat)
    requires Keyed(nodes) && Acyclic(FreeGraph(nodes, m)) && Chain(nodes, m, start, s)
    requires s != [] && Visit(nodes, m, s[|s| - 1]) && k <= n <= |nodes[s[|s| - 1].id].output|
    ensures RunsOnward(nodes, m, start, s, many, k) <= RunsOnward(nodes, m, start, s, many, n)
  {
    hide Acyclic, Chain, FreeGraph, RunsVia;
    if k < n { OnwardGrows(nodes, m, start, s, many, k, n - 1); }
  }

  lemma MethodHolds(nodes: Nodes, m: Mode, start: NodeId, s: Path, id: NodeId, j: nat, t: Path)
    requires Keyed(nodes) && Acyclic(FreeGraph(nodes, m)) && Chain(nodes, m, start, s)
    requires id in nodes && nodes[id].ManyMethods() && Next(nodes, start, s, id) && Room(nodes, s, id)
    requires j < |nodes[id].methodIds| && Chain(nodes, m, start, s + [ProcessStep(id, nodes[id].methodIds[j])])
    requires t in RunsOnward(nodes, m, start, s + [ProcessStep(id, nodes[id].methodIds[j])], true,
                             |nodes[id].output|)
    ensures t in RunsByMethod(nodes, m, start, s, id, |nodes[id].methodIds|)
  {
    hide Acyclic, Chain, FreeGraph, Next, Room, RunsOnward;
    var e := ProcessStep(id, nodes[id].methodIds[j]);
    assert RunsByMethod(nodes, m, start, s, id, j + 1) ==
           RunsByMethod(nodes, m, start, s, id, j) + RunsOnward(nodes, m, start, s + [e], true, |nodes[id].output|);
    var n := |nodes[id].methodIds|;
    MethodsGrow(nodes, m, start, s, id, j + 1, n);
    InPrefix(RunsByMethod(nodes, m, start, s, id, j + 1), RunsByMethod(nodes, m, start, s, id, n), t);
  }

  lemma InPrefix(a: seq<Path>, b: seq<Path>, t: Path)
    requires a <= b && t in a
    ensures t in b
  {
    var i :| 0 <= i < |a| && a[i] == t;
    assert b[i] == t;
  }

  lemma {:induction false} MethodsGrow(nodes: Nodes, m: Mode, start: NodeId, s: Path, id: NodeId, j: nat, n: nat)
    requires Keyed(nodes) && Acyclic(FreeGraph(nodes, m)) && Chain(nodes, m, start, s)
    requires id in nodes && nodes[id].ManyMethods() && Next(nodes, start, s, id) && Room(nodes, s, id)
    requires j <= n <= |nodes[id].methodIds|
    ensures RunsByMethod(nodes, m, start, s, id, j) <= RunsByMethod(nodes, m, start, s, id, n)
  {
    hide Acyclic, Chain, FreeGraph, Next, Room, RunsOnward;
    if j < n { MethodsGrow(nodes, m, start, s, id, j, n - 1); }
  }

  lemma NothingCollected(nodes: Nodes, start: NodeId, s: Path, many: bool)
    requires Keyed(nodes) && Acyclic(FreeGraph(nodes, ALL)) && Chain(nodes, ALL, start, s)
    requires s != [] && Visit(nodes, ALL, s[|s| - 1])
    ensures Collected(RunsOnward(nodes, ALL, start, s, many, 0), [], false)
  {
  }

  lemma NoMethodCollected(nodes: Nodes, start: NodeId, s: Path, id: NodeId)
    requires Keyed(nodes) && Acyclic(FreeGraph(nodes, ALL)) && Chain(nodes, ALL, start, s)
    requires id in nodes && nodes[id].ManyMethods() && Next(nodes, start, s, id) && Room(nodes, s, id)
    ensures Collected(RunsByMethod(nodes, ALL, start, s, id, 0), [], false)
  {
  }

  /** The loop over outputs, one output further. */
  lemma OutputCollected(nodes: Nodes, start: NodeId, s: Path, many: bool, k: nat, before: seq<Path>, more: seq<Path>,
                        raised: bool)
    requires Keyed(nodes) && Acyclic(FreeGraph(nodes, ALL)) && Chain(nodes, ALL, start, s)
    requires s != [] && Visit(nodes, ALL, s[|s| - 1]) && k < |nodes[s[|s| - 1].id].output|
    requires Collected(RunsOnward(nodes, ALL, start, s, many, k), before, false)
    requires Collected(RunsVia(nodes, ALL, start, s, nodes[s[|s| - 1].id].output[k]), more, raised)
    ensures !raised ==> Collected(RunsOnward(nodes, ALL, start, s, many, k + 1), before + more, false)
    ensures raised ==>
              Collected(RunsOnward(nodes, ALL, start, s, many, |nodes[s[|s| - 1].id].output|), before + more, true)
  {
    hide Acyclic, Chain, FreeGraph, RunsVia;
    if raised {
      var t :| t in RunsVia(nodes, ALL, start, s, nodes[s[|s| - 1].id].output[k]) && Blocked(t);
      OutputHolds(nodes, ALL, start, s, many, k, t);
    }
  }

  /** The loop over methods, one method further. */
  lemma MethodCollected(nodes: Nodes, start: NodeId, s: Path, id: NodeId, j: nat, before: seq<Path>, more: seq<Path>,
                        raised: bool)
    requires Keyed(nodes) && Acyclic(FreeGraph(nodes, ALL)) && Chain(nodes, ALL, start, s)
    requires id in nodes && nodes[id].ManyMethods() && Next(nodes, start, s, id) && Room(nodes, s, id)
    requires j < |nodes[id].methodIds| && Chain(nodes, ALL, start, s + [ProcessStep(id, nodes[id].methodIds[j])])
    requires Collected(RunsByMethod(nodes, ALL, start, s, id, j), before, false)
    requires Collected(RunsOnward(nodes, ALL, start, s + [ProcessStep(id, nodes[id].methodIds[j])], true,
                                  |nodes[id].output|), more, raised)
    ensures !raised ==> Collected(RunsByMethod(nodes, ALL, start, s, id, j + 1), before + more, false)
    ensures raised ==>
              Collected(RunsByMethod(nodes, ALL, start, s, id, |nodes[id].methodIds|), before + more, true)
  {
    hide Acyclic, Chain, FreeGraph, Next, Room, RunsOnward;
    if raised {
      var e := ProcessStep(id, nodes[id].methodIds[j]);
      var t :| t in RunsOnward(nodes, ALL, start, s + [e], true, |nodes[id].output|) && Blocked(t);
      MethodHolds(nodes, ALL, start, s, id, j, t);
    }
  }

  /** The paths found so far by the nested function `dfs`, which appends to one shared list. */
  class PathCollector {
    var allPaths: seq<Path>

    constructor ()
      ensures allPaths == []
    {
      allPaths := [];
    }

    /** Appends exactly the runs that continue `path` through `id`, in order, or raises when one of them meets a Pairing
        node. */
    method Dfs(nodes: Nodes, ghost start: NodeId, id: NodeId, path: Path, counts: map<NodeId, int>)
      returns (raised: bool, ghost added: seq<Path>)
      requires Keyed(nodes) && Acyclic(FreeGraph(nodes, ALL))
      requires Chain(nodes, ALL, start, path) && CountsMatch(nodes, counts, path)
      requires id in nodes ==> Next(nodes, start, path, id)
      modifies this
      ensures allPaths == old(allPaths) + added
      ensures Collected(RunsVia(nodes, ALL, start, path, id), added, raised)
      decreases Budget(nodes) - Spent(nodes, path), |FreeGraph(nodes, ALL)| - |TrailingFree(path)|, 1
    {
      hide Acyclic, FreeGraph, Chain, Next, Visits, Spent, TrailingFree, RunsOnward, RunsByMethod;
      if id !in nodes { return false, []; }
      var n := nodes[id];
      if n.Limited() && Count(counts, id) >= MAX_ITERATIONS {
        added := [path + [Truncated]];
        allPaths := allPaths + [path + [Truncated]];
        return false, added;
      }
      var counts' := if n.Limited() then counts[id := Count(counts, id) + 1] else counts;
      if n.ManyMethods() {
        raised, added := VisitMethods(nodes, start, id, path, counts', counts);
        return;
      }
      match n
      case Termination(_, _, terminationType) =>
        var e := EndStep(id, terminationType);
        added := [path + [e]];
        allPaths := allPaths + [path + [e]];
        raised := false;
      case Pairing(_, _, pairingType, _) =>
        ghost var blocked := path + [PairingStep(id, pairingType)];
        assert blocked in RunsVia(nodes, ALL, start, path, id) && Blocked(blocked);
        raised, added := true, [];
      case _ =>
        var e := NodeInfo(n);
        SearchHalts(nodes, ALL, start, path, id, e);
        CountsAppend(nodes, counts, path, id, e);
        raised, added := VisitOutputs(nodes, start, path + [e], false, counts', n.output);
    }

    /** `for next_node_id in current_node.output: dfs(next_node_id, path, counts.copy())`. */
    method VisitOutputs(nodes: Nodes, ghost start: NodeId, path: Path, ghost many: bool, counts: map<NodeId, int>,
                        output: seq<NodeId>)
      returns (raised: bool, ghost added: seq<Path>)
      requires Keyed(nodes) && Acyclic(FreeGraph(nodes, ALL))
      requires Chain(nodes, ALL, start, path) && CountsMatch(nodes, counts, path)
      requires path != [] && Visit(nodes, ALL, path[|path| - 1]) && nodes[path[|path| - 1].id].output == output
      modifies this
      ensures allPaths == old(allPaths) + added
      ensures Collected(RunsOnward(nodes, ALL, start, path, many, |output|), added, raised)
      decreases Budget(nodes) - Spent(nodes, path), |FreeGraph(nodes, ALL)| - |TrailingFree(path)|, 2
    {
      hide Acyclic, FreeGraph, Chain, Visits, Spent, TrailingFree, RunsOnward, RunsVia, Collected;
      added := [];
      NothingCollected(nodes, start, path, many);
      for k := 0 to |output|
        invariant allPaths == old(allPaths) + added
        invariant Collected(RunsOnward(nodes, ALL, start, path, many, k), added, false)
      {
        ghost var more;
        raised, more := Dfs(nodes, start, output[k], path, counts);
        OutputCollected(nodes, start, path, many, k, added, more, raised);
        added := added + more;
        if raised { return; }
      }
      raised := false;
    }

    /** A Process with several methods: one branch per method. */
    method VisitMethods(nodes: Nodes, ghost start: NodeId, id: NodeId, path: Path, counts: map<NodeId, int>,
                        ghost c: map<NodeId, int>)
      returns (raised: bool, ghost added: seq<Path>)
      requires Keyed(nodes) && Acyclic(FreeGraph(nodes, ALL))
      requires Chain(nodes, ALL, start, path) && id in nodes && nodes[id].ManyMethods()
      requires Next(nodes, start, path, id) && Room(nodes, path, id)
      requires CountsMatch(nodes, c, path) && counts == Counting(nodes, c, id)
      modifies this
      ensures allPaths == old(allPaths) + added
      ensures Collected(RunsByMethod(nodes, ALL, start, path, id, |nodes[id].methodIds|), added, raised)
      decreases Budget(nodes) - Spent(nodes, path), |FreeGraph(nodes, ALL)| - |TrailingFree(path)|, 0
    {
      hide Acyclic, FreeGraph, Chain, Next, Visits, Spent, TrailingFree, CountsMatch, Room, RunsOnward, RunsByMethod;
      hide Collected;
      var n := nodes[id];
      added := [];
      NoMethodCollected(nodes, start, path, id);
      for j := 0 to |n.methodIds|
        invariant allPaths == old(allPaths) + added
        invariant Collected(RunsByMethod(nodes, ALL, start, path, id, j), added, false)
      {
        var e := ProcessStep(id, n.methodIds[j]);
        SearchHalts(nodes, ALL, start, path, id, e);
        CountsAppend(nodes, c, path, id, e);
        ghost var more;
        raised, more := VisitOutputs(nodes, start, path + [e], true, counts, n.output);
        MethodCollected(nodes, start, path, id, j, added, more, raised);
        added := added + more;
        if raised { return; }
      }
      raised := false;
    }
  }

  // ------------------------------------------------------------ from all Captures

  /** A path is found from some Capture. */
  ghost predicate FromCapture(nodes: Nodes, m: Mode, captures: seq<Node>, t: Path) {
    exists i :: 0 <= i < |captures| && Run(nodes, m, captures[i].id, t)
  }

  /** The runs from one Capture after the other. */
  ghost function CaptureRuns(nodes: Nodes, m: Mode, captures: seq<Node>): seq<Path>
    requires Keyed(nodes) && Acyclic(FreeGraph(nodes, m))
  {
    Gather(captures, RunsOf(nodes, m))
  }

  ghost function RunsOf(nodes: Nodes, m: Mode): Node -> seq<Path>
    requires Keyed(nodes) && Acyclic(FreeGraph(nodes, m))
  {
    (c: Node) => RunsFrom(nodes, m, c.id)
  }

  lemma CaptureRunsExactly(nodes: Nodes, m: Mode, captures: seq<Node>, t: Path)
    requires Keyed(nodes) && Acyclic(FreeGraph(nodes, m))
    ensures t in CaptureRuns(nodes, m, captures) <==> FromCapture(nodes, m, captures, t)
  {
    hide Run, RunsFrom, Acyclic, FreeGraph;
    GatherMembers(captures, RunsOf(nodes, m), t);
    forall i | 0 <= i < |captures| ensures t in RunsOf(nodes, m)(captures[i]) <==> Run(nodes, m, captures[i].id, t) {
      RunsFromExactly(nodes, m, captures[i].id, t);
    }
  }

  /** Sound and complete, and in the order of the search: unless a Pairing node is met, the list holds the runs from the
      Captures, Capture by Capture. */
  method EnumerateAllPaths(p: PipelineConfig) returns (raised: bool, allPaths: seq<Path>)
    requires p.UniqueIds() && Acyclic(FreeGraph(p.Lookup(), ALL))
    ensures raised <==> exists t :: FromCapture(p.Lookup(), ALL, p.captureNodes, t) && Blocked(t)
    ensures !raised ==> forall t :: t in allPaths <==> FromCapture(p.Lookup(), ALL, p.captureNodes, t)
    ensures !raised ==> allPaths == CaptureRuns(p.Lookup(), ALL, p.captureNodes)
  {
    hide Acyclic, FreeGraph, FromCapture, CaptureRuns;
    raised, allPaths := EnumerateFrom(p.Lookup(), p.captureNodes);
    forall t
      ensures t in CaptureRuns(p.Lookup(), ALL, p.captureNodes) <==> FromCapture(p.Lookup(), ALL, p.captureNodes, t)
    {
      CaptureRunsExactly(p.Lookup(), ALL, p.captureNodes, t);
    }
  }

  method EnumerateFrom(nodes: Nodes, captures: seq<Node>) returns (raised: bool, allPaths: seq<Path>)
    requires Keyed(nodes) && Acyclic(FreeGraph(nodes, ALL))
    ensures Collected(CaptureRuns(nodes, ALL, captures), allPaths, raised)
  {
    hide Acyclic, FreeGraph, RunsVia, Visits;
    var collector := new PathCollector();
    for i := 0 to |captures|
      invariant fresh(collector)
      invariant Collected(CaptureRuns(nodes, ALL, captures[..i]), collector.allPaths, false)
    {
      var c := captures[i].id;
      ghost var added;
      NoVisitsYet(nodes);
      EmptyChain(nodes, ALL, c);
      raised, added := collector.Dfs(nodes, c, c, [], map[]);
      GatherStep(captures, RunsOf(nodes, ALL), i);
      if raised {
        ghost var t :| t in RunsFrom(nodes, ALL, c) && Blocked(t);
        GatherMembers(captures, RunsOf(nodes, ALL), t);
        return true, collector.allPaths;
      }
    }
    assert captures[..|captures|] == captures;
    return false, collector.allPaths;
  }
}
