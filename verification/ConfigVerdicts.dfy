/** Pipelines of the same meaning list the same paths in the same order, and so give every image the same verdict. */
module ConfigVerdicts {
  import opened Text
  import opened Walks
  import opened Pipelines
  import opened Runs
  import opened SearchSteps
  import opened Listings
  import opened Merging
  import opened Enumeration
  import opened ExpectedFiles
  import opened TargetSearch
  import opened PairingOrder
  import opened PairingPieces
  import opened PairingEnumeration
  import opened ConfigBuilding
  import opened ConfigMeaning
  import opened ImageValidation
  import opened CollectionValidation
  import opened Verdicts

  /** Every path, as the other pipeline would record it. */
  ghost function RewordedAll(nodes: Nodes, paths: seq<Path>): (r: seq<Path>)
    ensures |r| == |paths| && forall i :: 0 <= i < |paths| ==> r[i] == RewordedPath(nodes, paths[i])
  {
    seq(|paths|, i requires 0 <= i < |paths| => RewordedPath(nodes, paths[i]))
  }

  lemma RewordedAllConcat(nodes: Nodes, a: seq<Path>, b: seq<Path>)
    ensures RewordedAll(nodes, a + b) == RewordedAll(nodes, a) + RewordedAll(nodes, b)
  {
  }

  // ------------------------------------------------------------ one search

  lemma SameFreeGraph(a: Nodes, b: Nodes, m: Mode)
    requires SameTables(a, b)
    ensures FreeGraph(a, m) == FreeGraph(b, m)
  {
    hide SameMeaning;
    forall id | id in a
      ensures a[id].output == b[id].output && a[id].Limited() == b[id].Limited() && Passes(m, a[id]) == Passes(m, b[id])
    {
      PassesAlike(a[id], b[id], m);
    }
  }

  lemma NodeInfoReworded(a: Node, b: Node, bs: Nodes)
    requires SameMeaning(a, b) && !a.ManyMethods() && b.id in bs && bs[b.id] == b
    ensures !b.ManyMethods() && NodeInfo(b) == Reworded(bs, NodeInfo(a))
  {
    SameSymmetric(a, b);
    if a.Process? { assert Methods(a)[0] == Methods(b)[0]; }
  }

  /** What one step of the search sees is the same in both tables. */
  lemma StepAlike(a: Nodes, b: Nodes, m: Mode, start: NodeId, s: Path, id: NodeId)
    requires SameTables(a, b) && id in a
    ensures id in b && a[id].output == b[id].output && a[id].ManyMethods() == b[id].ManyMethods()
    ensures Room(a, s, id) == Room(b, RewordedPath(b, s), id)
    ensures Ends(m, a[id]) == Ends(m, b[id]) && Passes(m, a[id]) == Passes(m, b[id])
    ensures forall x, many :: StopsAt(a, m, many, x) == StopsAt(b, m, many, x)
  {
    hide SameMeaning, Visits;
    PassesAlike(a[id], b[id], m);
    VisitsReworded(b, s, id);
    forall x | x in a ensures a[x].Pairing? == b[x].Pairing? { PassesAlike(a[x], b[x], m); }
  }

  lemma NextAlike(a: Nodes, b: Nodes, start: NodeId, s: Path, id: NodeId)
    requires SameTables(a, b) && Next(a, start, s, id)
    ensures Next(b, start, RewordedPath(b, s), id)
  {
    if s != [] {
      var e := s[|s| - 1];
      SameIdAndOutput(a[e.id], b[e.id]);
      assert Reworded(b, e).id == e.id;
    }
  }

  /** The same runs in the same order, reworded. */
  lemma {:induction false} RunsReworded(a: Nodes, b: Nodes, m: Mode, start: NodeId, s: Path, id: NodeId)
    requires SameTables(a, b) && Acyclic(FreeGraph(a, m)) && Acyclic(FreeGraph(b, m)) && Chain(a, m, start, s)
    requires id in a ==> Next(a, start, s, id)
    ensures Chain(b, m, start, RewordedPath(b, s)) && (id in b ==> Next(b, start, RewordedPath(b, s), id))
    ensures RunsVia(b, m, start, RewordedPath(b, s), id) == RewordedAll(b, RunsVia(a, m, start, s, id))
    decreases Budget(a) - Spent(a, s), |FreeGraph(a, m)| - |TrailingFree(s)|, 1, 0
  {
    hide Acyclic, FreeGraph, Chain, Next, Visits, Spent, TrailingFree, SameMeaning, RunsOnward, RunsByMethod, Room;
    ChainReworded(a, b, m, start, s);
    var s' := RewordedPath(b, s);
    if id in a {
      NextAlike(a, b, start, s, id);
      StepAlike(a, b, m, start, s, id);
      if !Room(a, s, id) {
        RewordedConcat(b, s, [Truncated]);
        assert RewordedPath(b, [Truncated]) == [Truncated];
      } else if a[id].ManyMethods() {
        MethodsReworded(a, b, m, start, s, id, |a[id].methodIds|);
      } else {
        var e := NodeInfo(a[id]);
        NodeInfoReworded(a[id], b[id], b);
        RewordedConcat(b, s, [e]);
        assert RewordedPath(b, [e]) == [NodeInfo(b[id])];
        if !Ends(m, a[id]) && Passes(m, a[id]) {
          SearchHalts(a, m, start, s, id, e);
          OnwardListReworded(a, b, m, start, s + [e], false, |a[id].output|);
        }
      }
    }
  }

  lemma SameMethods(a: Node, b: Node)
    requires SameMeaning(a, b) && a.ManyMethods()
    ensures b.ManyMethods() && a.methodIds == b.methodIds
  {
    assert Methods(a) == Methods(b);
  }

  lemma {:induction false} MethodsReworded(a: Nodes, b: Nodes, m: Mode, start: NodeId, s: Path, id: NodeId, j: nat)
    requires SameTables(a, b) && Acyclic(FreeGraph(a, m)) && Acyclic(FreeGraph(b, m)) && Chain(a, m, start, s)
    requires id in a && a[id].ManyMethods() && Next(a, start, s, id) && Room(a, s, id) && j <= |a[id].methodIds|
    ensures id in b && b[id].ManyMethods() && a[id].methodIds == b[id].methodIds
    ensures Chain(b, m, start, RewordedPath(b, s)) && Next(b, start, RewordedPath(b, s), id)
    ensures Room(b, RewordedPath(b, s), id)
    ensures RunsByMethod(b, m, start, RewordedPath(b, s), id, j) ==
            RewordedAll(b, RunsByMethod(a, m, start, s, id, j))
    decreases Budget(a) - Spent(a, s), |FreeGraph(a, m)| - |TrailingFree(s)|, 0, j
  {
    hide Acyclic, FreeGraph, Chain, Next, Visits, Spent, TrailingFree, SameMeaning, RunsOnward, Room;
    ChainReworded(a, b, m, start, s);
    NextAlike(a, b, start, s, id);
    StepAlike(a, b, m, start, s, id);
    SameMethods(a[id], b[id]);
    if j > 0 {
      var e := ProcessStep(id, a[id].methodIds[j - 1]);
      MethodsReworded(a, b, m, start, s, id, j - 1);
      SearchHalts(a, m, start, s, id, e);
      RewordedConcat(b, s, [e]);
      assert RewordedPath(b, [e]) == [e];
      OnwardListReworded(a, b, m, start, s + [e], true, |a[id].output|);
      RewordedAllConcat(b, RunsByMethod(a, m, start, s, id, j - 1),
                        RunsOnward(a, m, start, s + [e], true, |a[id].output|));
    }
  }

  lemma LastAlike(a: Nodes, b: Nodes, m: Mode, s: Path)
    requires SameTables(a, b) && s != [] && Visit(a, m, s[|s| - 1])
    ensures var e := RewordedPath(b, s)[|s| - 1];
            && Visit(b, m, e) && e.id == s[|s| - 1].id && a[e.id].output == b[e.id].output
  {
    var e := s[|s| - 1];
    PassesAlike(a[e.id], b[e.id], m);
    EmitsReworded(a[e.id], b[e.id], b, e);
  }

  lemma {:induction false} OnwardListReworded(a: Nodes, b: Nodes, m: Mode, start: NodeId, s: Path, many: bool, k: nat)
    requires SameTables(a, b) && Acyclic(FreeGraph(a, m)) && Acyclic(FreeGraph(b, m)) && Chain(a, m, start, s)
    requires s != [] && Visit(a, m, s[|s| - 1]) && k <= |a[s[|s| - 1].id].output|
    ensures var e := RewordedPath(b, s)[|s| - 1];
            && Chain(b, m, start, RewordedPath(b, s)) && Visit(b, m, e) && b[e.id].output == a[s[|s| - 1].id].output
    ensures RunsOnward(b, m, start, RewordedPath(b, s), many, k) ==
            RewordedAll(b, RunsOnward(a, m, start, s, many, k))
    decreases Budget(a) - Spent(a, s), |FreeGraph(a, m)| - |TrailingFree(s)|, 2, k
  {
    hide Acyclic, FreeGraph, Chain, Visits, Spent, TrailingFree, SameMeaning, RunsVia;
    ChainReworded(a, b, m, start, s);
    LastAlike(a, b, m, s);
    if k > 0 {
      var next := a[s[|s| - 1].id].output[k - 1];
      OnwardListReworded(a, b, m, start, s, many, k - 1);
      RunsReworded(a, b, m, start, s, next);
      StepAlike(a, b, m, start, s, s[|s| - 1].id);
      RewordedAllConcat(b, RunsOnward(a, m, start, s, many, k - 1),
                        if StopsAt(a, m, many, next) then [s] else RunsVia(a, m, start, s, next));
    }
  }

  lemma RunsFromReworded(a: Nodes, b: Nodes, m: Mode, start: NodeId)
    requires SameTables(a, b) && Acyclic(FreeGraph(a, m)) && Acyclic(FreeGraph(b, m))
    ensures RunsFrom(b, m, start) == RewordedAll(b, RunsFrom(a, m, start))
  {
    hide Acyclic, FreeGraph, SameMeaning, RunsVia;
    EmptyChain(a, m, start);
    RunsReworded(a, b, m, start, [], start);
    assert RewordedPath(b, []) == [];
  }

  // ------------------------------------------------------------ the whole enumeration

  /** Lists gathered piece by piece are reworded piece by piece. */
  lemma {:induction false} GatherReworded<S, T>(nodes: Nodes, xs: seq<S>, f: S -> seq<Path>, ys: seq<T>,
                                                g: T -> seq<Path>)
    requires |xs| == |ys| && forall i :: 0 <= i < |xs| ==> g(ys[i]) == RewordedAll(nodes, f(xs[i]))
    ensures Gather(ys, g) == RewordedAll(nodes, Gather(xs, f))
  {
    if xs != [] {
      var n := |xs| - 1;
      GatherReworded(nodes, xs[..n], f, ys[..n], g);
      RewordedAllConcat(nodes, Gather(xs[..n], f), f(xs[n]));
    }
  }

  lemma {:induction false} KeptReworded(nodes: Nodes, paths: seq<Path>, keep: Path -> bool)
    requires forall t :: keep(RewordedPath(nodes, t)) == keep(t)
    ensures Kept(RewordedAll(nodes, paths), keep) == RewordedAll(nodes, Kept(paths, keep))
  {
    hide RewordedPath;
    if paths != [] {
      var n := |paths| - 1;
      KeptReworded(nodes, paths[..n], keep);
      assert RewordedAll(nodes, paths)[..n] == RewordedAll(nodes, paths[..n]);
      assert RewordedAll(nodes, [paths[n]]) == [RewordedAll(nodes, paths)[n]];
      RewordedAllConcat(nodes, Kept(paths[..n], keep), if keep(paths[n]) then [paths[n]] else []);
    }
  }

  lemma EndedReworded(nodes: Nodes, paths: seq<Path>)
    ensures Kept(RewordedAll(nodes, paths), LooksEnded) == RewordedAll(nodes, Kept(paths, LooksEnded))
  {
    KeptReworded(nodes, paths, LooksEnded);
  }

  lemma LeftReworded(nodes: Nodes, paths: seq<Path>, inputs: seq<NodeId>)
    ensures Kept(RewordedAll(nodes, paths), OpenFor(inputs)) == RewordedAll(nodes, Kept(paths, OpenFor(inputs)))
  {
    forall t ensures OpenFor(inputs)(RewordedPath(nodes, t)) == OpenFor(inputs)(t) {
      if t != [] {
        var e := t[|t| - 1];
        assert Reworded(nodes, e).Truncated? == e.Truncated?;
      }
    }
    KeptReworded(nodes, paths, OpenFor(inputs));
  }

  lemma BehindReworded(nodes: Nodes, base: Path, found: seq<Path>)
    ensures Behind(RewordedPath(nodes, base), RewordedAll(nodes, found)) == RewordedAll(nodes, Behind(base, found))
  {
    forall i | 0 <= i < |found|
      ensures Behind(RewordedPath(nodes, base), RewordedAll(nodes, found))[i] ==
              RewordedAll(nodes, Behind(base, found))[i]
    {
      RewordedConcat(nodes, base, found[i]);
    }
  }

  lemma CaptureRunsReworded(a: Nodes, b: Nodes, m: Mode, ca: seq<Node>, cb: seq<Node>)
    requires SameTables(a, b) && Acyclic(FreeGraph(a, m)) && Acyclic(FreeGraph(b, m)) && SameCaptures(ca, cb)
    ensures CaptureRuns(b, m, cb) == RewordedAll(b, CaptureRuns(a, m, ca))
  {
    hide Acyclic, FreeGraph, SameMeaning, RunsFrom;
    forall i | 0 <= i < |ca| ensures RunsOf(b, m)(cb[i]) == RewordedAll(b, RunsOf(a, m)(ca[i])) {
      RunsFromReworded(a, b, m, ca[i].id);
    }
    GatherReworded(b, ca, RunsOf(a, m), cb, RunsOf(b, m));
  }

  lemma MergesReworded(nodes: Nodes, paths1: seq<Path>, paths2: seq<Path>)
    ensures AllMerges(RewordedAll(nodes, paths1), RewordedAll(nodes, paths2)) ==
            RewordedAll(nodes, AllMerges(paths1, paths2))
  {
    hide Merge;
    var to1, to2 := RewordedAll(nodes, paths1), RewordedAll(nodes, paths2);
    forall i | 0 <= i < |paths1|
      ensures MergesWith(to2)(to1[i]) == RewordedAll(nodes, MergesWith(paths2)(paths1[i]))
    {
      forall j | 0 <= j < |paths2|
        ensures MergeOf(to1[i])(to2[j]) == RewordedAll(nodes, MergeOf(paths1[i])(paths2[j]))
      {
        RewordedMerge(nodes, paths1[i], paths2[j]);
      }
      GatherReworded(nodes, paths2, MergeOf(paths1[i]), to2, MergeOf(to1[i]));
    }
    GatherReworded(nodes, paths1, MergesWith(paths2), to1, MergesWith(to2));
  }

  lemma OnwardRunsReworded(a: Nodes, b: Nodes, m: Mode, base: Path, ids: seq<NodeId>)
    requires SameTables(a, b) && Acyclic(FreeGraph(a, m)) && Acyclic(FreeGraph(b, m))
    ensures OnwardRuns(b, m, RewordedPath(b, base), ids) == RewordedAll(b, OnwardRuns(a, m, base, ids))
  {
    hide Acyclic, FreeGraph, SameMeaning, RunsFrom, Behind;
    var to := RewordedPath(b, base);
    forall i | 0 <= i < |ids|
      ensures RunsBehind(b, m, to)(ids[i]) == RewordedAll(b, RunsBehind(a, m, base)(ids[i]))
    {
      RunsFromReworded(a, b, m, ids[i]);
      BehindReworded(b, base, RunsFrom(a, m, ids[i]));
    }
    GatherReworded(b, ids, RunsBehind(a, m, base), ids, RunsBehind(b, m, to));
  }

  lemma TakenReworded(a: Nodes, b: Nodes, f: Path, v: NodeId)
    requires SameTables(a, b) && Acyclic(FreeGraph(a, Towards(v))) && Acyclic(FreeGraph(b, Towards(v)))
    ensures TakenOn(b, v)(RewordedPath(b, f)) == RewordedAll(b, TakenOn(a, v)(f))
  {
    hide Acyclic, FreeGraph, SameMeaning, RunsFrom, Behind;
    if f != [] {
      var e, g := f[|f| - 1], RewordedPath(b, f);
      assert Reworded(b, e).Truncated? == e.Truncated?;
      if Usable(f) {
        assert g[|f| - 1].id == e.id && g[..|f| - 1] == RewordedPath(b, f[..|f| - 1]);
        RunsFromReworded(a, b, Towards(v), e.id);
        BehindReworded(b, f[..|f| - 1], RunsFrom(a, Towards(v), e.id));
      }
    }
  }

  lemma KeyedTables(a: Nodes, b: Nodes)
    requires SameTables(a, b)
    ensures Keyed(a) && Keyed(b)
  {
  }

  /** Both settings let all their searches halt. */
  ghost predicate Halting(st: Setting, su: Setting) {
    SameSettings(st, su) && Acyclic(FreeGraph(st.nodes, ONWARD)) && Acyclic(FreeGraph(su.nodes, ONWARD))
  }

  lemma HaltingMeans(st: Setting, su: Setting)
    requires Halting(st, su)
    ensures st.Ok() && su.Ok() && |st.order| == |su.order|
    ensures SameTables(st.nodes, su.nodes) && SameCaptures(st.captures, su.captures)
    ensures Acyclic(FreeGraph(st.nodes, ONWARD)) && Acyclic(FreeGraph(su.nodes, ONWARD))
    ensures forall k :: 0 <= k < |st.order| ==> st.Inputs(k) == su.Inputs(k)
  {
  }

  lemma {:induction false} ArrivingReworded(st: Setting, su: Setting, k: nat, v: NodeId)
    requires Halting(st, su) && k < |st.order|
    ensures Arriving(su, k, v) == RewordedAll(su.nodes, Arriving(st, k, v))
    decreases k, 0
  {
    hide Acyclic, FreeGraph, SameTables, CaptureRuns, StageRuns, Setting.Inputs, Setting.Ok, Halting, Kept, OpenFor;
    hide TakenOn, SameCaptures, Towards;
    HaltingMeans(st, su);
    KeyedTables(st.nodes, su.nodes);
    FewerFreeNodes(st.nodes, Towards(v));
    FewerFreeNodes(su.nodes, Towards(v));
    if k == 0 {
      CaptureRunsReworded(st.nodes, su.nodes, Towards(v), st.captures, su.captures);
    } else {
      StageReworded(st, su, k - 1);
      LeftReworded(su.nodes, StageRuns(st, k - 1), st.Inputs(k));
      var xs := Kept(StageRuns(st, k - 1), OpenFor(st.Inputs(k)));
      forall i | 0 <= i < |xs|
        ensures TakenOn(su.nodes, v)(RewordedAll(su.nodes, xs)[i]) == RewordedAll(su.nodes, TakenOn(st.nodes, v)(xs[i]))
      {
        TakenReworded(st.nodes, su.nodes, xs[i], v);
      }
      GatherReworded(su.nodes, xs, TakenOn(st.nodes, v), RewordedAll(su.nodes, xs), TakenOn(su.nodes, v));
    }
  }

  lemma {:induction false} StageReworded(st: Setting, su: Setting, k: nat)
    requires Halting(st, su) && k < |st.order|
    ensures StageRuns(su, k) == RewordedAll(su.nodes, StageRuns(st, k))
    decreases k, 1
  {
    hide Acyclic, FreeGraph, SameTables, Arriving, Setting.Inputs, OnwardRuns, AllMerges;
    var in1, in2 := st.Inputs(k)[0], st.Inputs(k)[1];
    ArrivingReworded(st, su, k, in1);
    ArrivingReworded(st, su, k, in2);
    MergesReworded(su.nodes, Arriving(st, k, in1), Arriving(st, k, in2));
    var xs := AllMerges(Arriving(st, k, in1), Arriving(st, k, in2));
    forall i | 0 <= i < |xs|
      ensures OnwardFrom(su, k)(RewordedAll(su.nodes, xs)[i]) == RewordedAll(su.nodes, OnwardFrom(st, k)(xs[i]))
    {
      OnwardFromReworded(st, su, k, xs[i]);
    }
    GatherReworded(su.nodes, xs, OnwardFrom(st, k), RewordedAll(su.nodes, xs), OnwardFrom(su, k));
  }

  lemma OnwardFromReworded(st: Setting, su: Setting, k: nat, p: Path)
    requires Halting(st, su) && k < |st.order|
    ensures OnwardFrom(su, k)(RewordedPath(su.nodes, p)) == RewordedAll(su.nodes, OnwardFrom(st, k)(p))
  {
    hide Acyclic, FreeGraph, SameTables, Setting.Inputs, OnwardRuns;
    var pn, m := st.order[k], StageMode(st, k);
    assert SameMeaning(pn, su.order[k]);
    FewerFreeNodes(st.nodes, m);
    FewerFreeNodes(su.nodes, m);
    var step := PairingStep(pn.id, pn.pairingType);
    RewordedConcat(su.nodes, p, [step]);
    assert RewordedPath(su.nodes, [step]) == [step];
    OnwardRunsReworded(st.nodes, su.nodes, m, p + [step], pn.output);
  }

  lemma {:induction false} StagedReworded(st: Setting, su: Setting, k: nat)
    requires Halting(st, su) && k <= |st.order|
    ensures StagedRuns(su, k) == RewordedAll(su.nodes, StagedRuns(st, k))
  {
    hide Acyclic, FreeGraph, SameTables, StageRuns, Setting.Ok, Setting.Inputs, Halting, Kept;
    HaltingMeans(st, su);
    if k > 0 {
      StagedReworded(st, su, k - 1);
      StageReworded(st, su, k - 1);
      EndedReworded(su.nodes, StageRuns(st, k - 1));
      RewordedAllConcat(su.nodes, StagedRuns(st, k - 1), LeavingRuns(st, k - 1));
    }
  }

  lemma AllRunsReworded(st: Setting, su: Setting)
    requires Halting(st, su)
    ensures AllRuns(su) == RewordedAll(su.nodes, AllRuns(st))
  {
    hide Acyclic, FreeGraph, SameMeaning, StagedRuns, CaptureRuns, Setting.Inputs;
    FewerFreeNodes(st.nodes, AROUND);
    FewerFreeNodes(su.nodes, AROUND);
    StagedReworded(st, su, |st.order|);
    CaptureRunsReworded(st.nodes, su.nodes, AROUND, st.captures, su.captures);
    EndedReworded(su.nodes, CaptureRuns(st.nodes, AROUND, st.captures));
    RewordedAllConcat(su.nodes, StagedRuns(st, |st.order|), PathsByPassing(st));
  }

  /** Where the enumeration of one pipeline halts so does that of the other, and the two lists are the same, position by
      position, up to branch descriptions. */
  lemma SameMeaningSameList(p: PipelineConfig, q: PipelineConfig)
    requires SamePipelines(p, q) && TwoInputsEach(p) && Acyclic(FreeGraph(p.Lookup(), ONWARD))
    ensures TwoInputsEach(q) && Acyclic(FreeGraph(q.Lookup(), ONWARD))
    ensures PathList(q) == RewordedAll(q.Lookup(), PathList(p))
  {
    hide Acyclic, FreeGraph, SameTables, SameMeaning, Categorize, AllRuns, CaptureRuns, TwoInputsEach, Setting.Ok;
    hide SameSettings, ProcessingOrder;
    TablesAgree(p, q);
    OrdersAligned(p, q);
    KindsAligned(p, q);
    SameFreeGraph(p.Lookup(), q.Lookup(), ONWARD);
    if p.pairingNodes == [] {
      FewerFreeNodes(p.Lookup(), ALL);
      FewerFreeNodes(q.Lookup(), ALL);
      AlignedIds(p.captureNodes, q.captureNodes);
      CaptureRunsReworded(p.Lookup(), q.Lookup(), ALL, p.captureNodes, q.captureNodes);
    } else {
      SettingIsOk(p);
      SettingIsOk(q);
      SettingsAgree(p, q);
      AllRunsReworded(SettingOf(p), SettingOf(q));
    }
  }

  // ------------------------------------------------------------ the verdicts

  lemma AssessReworded(nodes: Nodes, t: Path, base: string, suffix: string, actual: seq<string>)
    ensures Assess(RewordedPath(nodes, t), base, suffix, actual) == Assess(t, base, suffix, actual)
  {
    hide Expected, SortedSet;
    ExpectedReworded(nodes, t, base, suffix);
  }

  lemma EndsReworded(nodes: Nodes, t: Path)
    ensures forall x :: EndsWith(RewordedPath(nodes, t), x) == EndsWith(t, x)
    ensures TerminationType(RewordedPath(nodes, t)) == TerminationType(t)
  {
  }

  lemma {:induction false} PathsToReworded(nodes: Nodes, paths: seq<Path>, x: string)
    ensures PathsTo(RewordedAll(nodes, paths), x) == RewordedAll(nodes, PathsTo(paths, x))
  {
    hide EndsWith, RewordedPath;
    if paths != [] {
      var n := |paths| - 1;
      PathsToReworded(nodes, paths[..n], x);
      assert RewordedAll(nodes, paths)[..n] == RewordedAll(nodes, paths[..n]);
      EndsReworded(nodes, paths[n]);
      RewordedAllConcat(nodes, PathsTo(paths[..n], x), if EndsWith(paths[n], x) then [paths[n]] else []);
    }
  }

  lemma {:induction false} TypesReworded(nodes: Nodes, paths: seq<Path>)
    ensures TypesOf(RewordedAll(nodes, paths)) == TypesOf(paths)
  {
    if paths != [] {
      var n := |paths| - 1;
      TypesReworded(nodes, paths[..n]);
      assert RewordedAll(nodes, paths)[..n] == RewordedAll(nodes, paths[..n]);
    }
  }

  lemma BestReworded(nodes: Nodes, paths: seq<Path>, image: SpecificImage, m: TerminationMatch)
    ensures IsBestMatch(m, RewordedAll(nodes, paths), image) <==> IsBestMatch(m, paths, image)
  {
    hide Assess, Better;
    var base, actual := image.cameraId + image.counter, ActualNames(image.files);
    forall i | 0 <= i < |paths|
      ensures Assess(RewordedAll(nodes, paths)[i], base, image.suffix, actual) ==
              Assess(paths[i], base, image.suffix, actual)
    {
      AssessReworded(nodes, paths[i], base, image.suffix, actual);
    }
  }

  /** A verdict against reworded paths is a verdict against the paths. */
  lemma VerdictReworded(nodes: Nodes, paths: seq<Path>, image: SpecificImage, r: ValidationResult)
    ensures IsVerdict(r, RewordedAll(nodes, paths), image) <==> IsVerdict(r, paths, image)
  {
    hide IsBestMatch, IsOverall, PathsTo, TypesOf;
    TypesReworded(nodes, paths);
    var to := RewordedAll(nodes, paths);
    forall x ensures PathsTo(to, x) != [] <==> PathsTo(paths, x) != [] { PathsToReworded(nodes, paths, x); }
    forall m | m in r.matches
      ensures IsBestMatch(m, PathsTo(to, m.terminationType), image) <==>
              IsBestMatch(m, PathsTo(paths, m.terminationType), image)
    {
      PathsToReworded(nodes, paths, m.terminationType);
      BestReworded(nodes, PathsTo(paths, m.terminationType), image, m);
    }
  }

  lemma PreviewsReworded(nodes: Nodes, paths: seq<Path>, base: string, x: string, name: string)
    ensures Previews(RewordedAll(nodes, paths), base, x, name) <==> Previews(paths, base, x, name)
  {
    hide Expected, TerminationType;
    forall i | 0 <= i < |paths|
      ensures TerminationType(RewordedAll(nodes, paths)[i]) == TerminationType(paths[i])
      ensures Expected(RewordedAll(nodes, paths)[i], base, "") == Expected(paths[i], base, "")
    {
      EndsReworded(nodes, paths[i]);
      ExpectedReworded(nodes, paths[i], base, "");
    }
  }

  lemma GroupReworded(nodes: Nodes, paths: seq<Path>, base: string, files: seq<string>, all: set<string>, g: ImageGroup)
    ensures IsGroupVerdict(g, RewordedAll(nodes, paths), base, files, all) <==>
            IsGroupVerdict(g, paths, base, files, all)
  {
    hide Previews, ClassifyGroup;
    var own := CameraOf(base) + CounterOf(base);
    forall x, name ensures Previews(RewordedAll(nodes, paths), own, x, name) <==> Previews(paths, own, x, name) {
      PreviewsReworded(nodes, paths, own, x, name);
    }
  }

  /** Pipelines that mean the same give an image the same verdict, ties included, and a group the same status and the
      same missing files. */
  lemma SameMeaningSameVerdict(p: PipelineConfig, q: PipelineConfig, image: SpecificImage, r: ValidationResult,
                               base: string, files: seq<string>, all: set<string>, g: ImageGroup)
    requires SamePipelines(p, q) && TwoInputsEach(p) && Acyclic(FreeGraph(p.Lookup(), ONWARD))
    ensures TwoInputsEach(q) && Acyclic(FreeGraph(q.Lookup(), ONWARD))
    ensures IsVerdict(r, PathList(p), image) <==> IsVerdict(r, PathList(q), image)
    ensures IsGroupVerdict(g, PathList(p), base, files, all) <==> IsGroupVerdict(g, PathList(q), base, files, all)
  {
    hide Acyclic, FreeGraph, PathList, IsVerdict, IsGroupVerdict, TwoInputsEach, SameMeaning, Categorize;
    SameMeaningSameList(p, q);
    VerdictReworded(q.Lookup(), PathList(p), image, r);
    GroupReworded(q.Lookup(), PathList(p), base, files, all, g);
  }

  /** From the raw lists: whichever route a plain definition takes, image and group are judged the same. */
  lemma RoutesJudgeAlike(nodes: seq<RawNode>, edges: seq<RawEdge>, blank: NodeId, parsed: seq<Node>,
                         image: SpecificImage, r: ValidationResult,
                         base: string, files: seq<string>, all: set<string>, g: ImageGroup)
    requires Parses(nodes, edges, blank, parsed)
    requires forall i :: 0 <= i < |nodes| ==> Plain(nodes[i], edges, blank)
    requires forall i, j :: 0 <= i < j < |nodes| ==> nodes[i].id != nodes[j].id
    ensures var p, q := Categorize(parsed), Categorize(DirectNodes(nodes, edges, blank));
            && p.Valid() && q.Valid() && (TwoInputsEach(p) <==> TwoInputsEach(q))
            && (TwoInputsEach(p) && Acyclic(FreeGraph(p.Lookup(), ONWARD)) ==>
                && Acyclic(FreeGraph(q.Lookup(), ONWARD))
                && (IsVerdict(r, PathList(p), image) <==> IsVerdict(r, PathList(q), image))
                && (IsGroupVerdict(g, PathList(p), base, files, all) <==>
                    IsGroupVerdict(g, PathList(q), base, files, all)))
  {
    hide Plain, DirectNodes, TwoInputsEach, Acyclic, FreeGraph, PathList, IsVerdict, IsGroupVerdict, SameMeaning;
    var p, q := Categorize(parsed), Categorize(DirectNodes(nodes, edges, blank));
    hide Categorize;
    ParsedAgrees(nodes, edges, blank, parsed);
    OrdersAligned(p, q);
    if TwoInputsEach(p) && Acyclic(FreeGraph(p.Lookup(), ONWARD)) {
      SameMeaningSameVerdict(p, q, image, r, base, files, all, g);
    }
  }
}
