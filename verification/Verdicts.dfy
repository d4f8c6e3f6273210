/** From the pipeline to the verdicts: the validators with their enumeration, and which types an image is judged for. */
module Verdicts {
  import opened Options
  import opened Sorting
  import opened Text
  import opened Walks
  import opened Pipelines
  import opened StructureValidators
  import opened Runs
  import opened ExpectedFiles
  import opened Enumeration
  import opened EnumerationTheorems
  import opened PairingStages
  import opened ImageValidation
  import opened CollectionValidation
  import opened PairingPieces
  import opened PairingEnumeration
  import opened PairingTheorems

  /** `paths` lists the paths of the pipeline. */
  ghost predicate PathsOf(p: PipelineConfig, paths: seq<Path>)
    requires p.Valid()
  {
    forall t :: t in paths <==> PathOf(p, t)
  }

  /** Judges an image against the pipeline; raises exactly when a Pairing node has the wrong number of inputs. */
  method ValidateSpecificImage(image: SpecificImage, p: PipelineConfig) returns (r: Option<ValidationResult>)
    requires p.Valid() && (TwoInputsEach(p) ==> Acyclic(FreeGraph(p.Lookup(), ONWARD)))
    ensures r.None? <==> !TwoInputsEach(p)
    ensures r.Some? ==> IsVerdict(r.value, PathList(p), image)
  {
    hide IsVerdict, PathOf, PathList, Acyclic, FreeGraph, TwoInputsEach, Categorize;
    var enumerated := EnumeratePathsWithPairing(p);
    if enumerated.WrongInputCount? { return None; }
    var verdict := JudgeAgainst(image, enumerated.paths);
    r := Some(verdict);
  }

  /** The example names per termination type, sorted; raises like the enumeration. */
  method GeneratePreview(p: PipelineConfig, cameraId: string, counter: string)
    returns (previews: Option<map<string, seq<string>>>)
    requires p.Valid() && (TwoInputsEach(p) ==> Acyclic(FreeGraph(p.Lookup(), ONWARD)))
    ensures previews.None? <==> !TwoInputsEach(p)
    ensures previews.Some? ==>
              && PreviewOf(PathList(p), cameraId + counter, previews.value)
              && (forall x :: x in previews.value ==> Sorted(previews.value[x], StrLe))
  {
    hide PreviewOf, PathOf, PathList, Acyclic, FreeGraph, TwoInputsEach, Categorize, Sorted;
    var enumerated := EnumeratePathsWithPairing(p);
    if enumerated.WrongInputCount? { return None; }
    var found := PreviewPaths(enumerated.paths, cameraId, counter);
    previews := Some(found);
  }

  /** The status of one group and its missing files, against everything the pipeline expects for its base. */
  ghost predicate IsGroupVerdict(g: ImageGroup, paths: seq<Path>, base: string, files: seq<string>, all: set<string>) {
    && IsAllExpected(paths, CameraOf(base) + CounterOf(base), all)
    && g == ImageGroup(base, files, ClassifyGroup(ToSet(LowerAll(files)), all), all - ToSet(LowerAll(files)))
  }

  method ValidateGroup(p: PipelineConfig, base: string, files: seq<string>) returns (g: Option<ImageGroup>)
    requires p.Valid() && (TwoInputsEach(p) ==> Acyclic(FreeGraph(p.Lookup(), ONWARD)))
    ensures g.None? <==> !TwoInputsEach(p)
    ensures g.Some? ==> exists all :: IsGroupVerdict(g.value, PathList(p), base, files, all)
  {
    hide IsAllExpected, PathOf, PathList, Acyclic, FreeGraph, TwoInputsEach, Categorize, ClassifyGroup;
    var enumerated := EnumeratePathsWithPairing(p);
    if enumerated.WrongInputCount? { return None; }
    var found, all := GroupAgainst(enumerated.paths, base, files);
    assert IsGroupVerdict(found, enumerated.paths, base, files, all);
    g := Some(found);
  }

  // ------------------------------------------------------------ the bulk verdict and the per-image one

  /** The bulk verdict is never better than the per-image one: if a group of slash-free files is CONSISTENT, the image
      with these files is archival-ready for every non-empty type to which some path expects a file. */
  lemma ConsistentGroupIsReady(p: PipelineConfig, image: SpecificImage, base: string, g: ImageGroup, all: set<string>,
                               r: ValidationResult, m: TerminationMatch, path: Path)
    requires p.Valid() && TwoInputsEach(p) && Acyclic(FreeGraph(p.Lookup(), ONWARD))
    requires |base| >= 8 && image.cameraId == base[..4] && image.counter == base[4..8] && image.suffix == ""
    requires forall f :: f in image.files ==> SLASH !in f
    requires IsGroupVerdict(g, PathList(p), base, image.files, all) && g.status == GroupConsistent
    requires IsVerdict(r, PathList(p), image) && m in r.matches && m.terminationType != ""
    requires PathOf(p, path) && EndsWith(path, m.terminationType)
    requires Expected(path, image.cameraId + image.counter, "") != []
    ensures m.isArchivalReady && r.overallReady
  {
    hide PathList, PathOf, Acyclic, FreeGraph, TwoInputsEach, Categorize, IsBestMatch, Expected, IsAllExpected;
    hide ClassifyGroup, TypesOf, PathsTo;
    PathListExactly(p, path);
    var own := image.cameraId + image.counter;
    assert own[..4] == image.cameraId && own[4..8] == image.counter;
    assert path in PathsTo(PathList(p), m.terminationType);
    BulkRefinesPerImage(PathList(p), image, all, m, path);
  }

  // ------------------------------------------------------------ which types are judged

  /** Some Termination node carries the type `x`. */
  ghost predicate Carried(p: PipelineConfig, x: string) {
    exists n :: n in p.nodes && n.Termination? && n.terminationType == x
  }

  lemma InnerStepPasses(nodes: Nodes, m: Mode, start: NodeId, t: Path, k: nat)
    requires Run(nodes, m, start, t) && k < |t| - 1
    ensures !t[k].Truncated? && t[k].id in nodes && Passes(m, nodes[t[k].id])
  {
    ChainPrefix(nodes, m, start, t[..|t| - 1], k);
    assert t[..|t| - 1][k] == t[k];
  }

  /** Nothing on a run follows a visit to a Termination. */
  lemma TerminationIsLast(nodes: Nodes, start: NodeId, t: Path, k: nat)
    requires Run(nodes, ALL, start, t) && k < |t| && !t[k].Truncated? && t[k].id in nodes && nodes[t[k].id].Termination?
    ensures k == |t| - 1 && t[k] == EndStep(t[k].id, nodes[t[k].id].terminationType)
  {
    if k < |t| - 1 { InnerStepPasses(nodes, ALL, start, t, k); }
    RunEntry(nodes, ALL, start, t, k);
  }

  lemma RunEndIsCarried(p: PipelineConfig, m: Mode, start: NodeId, q: Path)
    requires p.Valid() && Run(p.Lookup(), m, start, q) && q != [] && q[|q| - 1].EndStep?
    ensures Carried(p, q[|q| - 1].termType)
  {
    hide Run, Categorize, PipelineConfig.UniqueIds;
    RunEntry(p.Lookup(), m, start, q, |q| - 1);
    assert p.Lookup()[q[|q| - 1].id] in p.nodes;
  }

  /** Every type a path of the pipeline ends with is that of a Termination node. */
  lemma EndIsCarried(p: PipelineConfig, t: Path, x: string)
    requires p.Valid() && PathOf(p, t) && EndsWith(t, x)
    ensures Carried(p, x)
  {
    hide Run, Categorize, Carried, FoundBehind, PipelineConfig.UniqueIds, Setting.Ok, TwoInputsEach;
    if p.pairingNodes == [] {
      var i :| 0 <= i < |p.captureNodes| && Run(p.Lookup(), ALL, p.captureNodes[i].id, t);
      RunEndIsCarried(p, ALL, p.captureNodes[i].id, t);
    } else {
      SettingIsOk(p);
      StagedEndIsCarried(p, SettingOf(p), t);
    }
  }

  lemma StagedEndIsCarried(p: PipelineConfig, st: Setting, t: Path)
    requires p.Valid() && st.Ok() && st.nodes == p.Lookup() && Enumerable(st, t) && t != [] && t[|t| - 1].EndStep?
    ensures Carried(p, t[|t| - 1].termType)
  {
    hide Run, Categorize, Carried, FoundBehind, PipelineConfig.UniqueIds, Setting.Ok;
    if PassesBy(st.nodes, st.captures, t) {
      var i :| 0 <= i < |st.captures| && Run(st.nodes, AROUND, st.captures[i].id, t);
      RunEndIsCarried(p, AROUND, st.captures[i].id, t);
    } else {
      var k :| 0 <= k < |st.order| && Leaves(st, k, t);
      var b, j, q := FoundFrom(st, k, t);
      RunIsNotEmpty(st.nodes, StageMode(st, k), st.order[k].output[j], q);
      assert t[|t| - 1] == q[|q| - 1];
      RunEndIsCarried(p, StageMode(st, k), st.order[k].output[j], q);
    }
  }

  /** A pipeline the structure checker passes judges every image for exactly the termination types it names. */
  lemma CleanPipelineJudgesEveryTermination(p: PipelineConfig, paths: seq<Path>, x: string)
    requires p.Valid() && p.pairingNodes == [] && PathsOf(p, paths)
    requires forall n :: n in p.terminationNodes ==> n.output == []
    requires CycleReport(p) + OrphanReport(p) + DeadEndReport(p) == []
    ensures PathsTo(paths, x) != [] <==> Carried(p, x)
  {
    hide Run, CycleReport, OrphanReport, DeadEndReport, Covered, Categorize;
    CleanPipelineIsFullyEnumerated(p);
    if PathsTo(paths, x) != [] { PathToIsCarried(p, paths, x); }
    if Carried(p, x) {
      var n :| n in p.nodes && n.Termination? && n.terminationType == x;
      assert Covered(p, n.id);
      var t := CoveredEnds(p, n);
      assert t in paths && t in PathsTo(paths, x);
    }
  }

  lemma PathToIsCarried(p: PipelineConfig, paths: seq<Path>, x: string)
    requires p.Valid() && PathsOf(p, paths) && PathsTo(paths, x) != []
    ensures Carried(p, x)
  {
    hide PathOf, Categorize, Carried;
    assert PathsTo(paths, x)[0] in PathsTo(paths, x);
    EndIsCarried(p, PathsTo(paths, x)[0], x);
  }

  /** The same with one Pairing node no way leads around, none of whose inputs is a Process with several methods. */
  lemma CleanPairingPipelineJudgesEveryTermination(p: PipelineConfig, pn: Node, paths: seq<Path>, x: string)
    requires p.Valid() && p.pairingNodes == [pn] && TwoInputsEach(p) && PathsOf(p, paths)
    requires NoWayAround(p, pn.id) && SingleMethodInputs(p, pn)
    requires forall n :: n in p.terminationNodes ==> n.output == []
    requires CycleReport(p) + OrphanReport(p) + DeadEndReport(p) == []
    ensures PathsTo(paths, x) != [] <==> Carried(p, x)
  {
    hide CycleReport, OrphanReport, DeadEndReport, Categorize, PathOf, Acyclic, NoWayAround, SingleMethodInputs;
    hide Mentions, TwoInputsEach;
    CleanPairingPipelineIsFullyEnumerated(p, pn);
    if PathsTo(paths, x) != [] { PathToIsCarried(p, paths, x); }
    if Carried(p, x) {
      var n :| n in p.nodes && n.Termination? && n.terminationType == x;
      assert OnSomePath(p, n.id);
      var t: Path :| PathOf(p, t) && Mentions(t, n.id);
      PairedPathEnds(p, pn, n, t);
      assert t in paths && t in PathsTo(paths, x);
    }
  }

  /** A Termination on a path is where it ends. */
  lemma PairedPathEnds(p: PipelineConfig, pn: Node, n: Node, t: Path)
    requires p.Valid() && p.pairingNodes == [pn] && TwoInputsEach(p) && NoWayAround(p, pn.id) && Acyclic(p.Outputs())
    requires forall n :: n in p.terminationNodes ==> n.output == []
    requires PathOf(p, t) && n in p.nodes && n.Termination? && Mentions(t, n.id)
    ensures EndsWith(t, n.terminationType)
  {
    hide Categorize, PathOf, Acyclic, NoWayAround, TwoInputsEach, ReachedBy, EndRun, InputIds, Mentions;
    hide PipelineConfig.UniqueIds;
    PairingIsPairing(p, pn);
    var p1, p2, q := PathHasParts(p, pn, t);
    var ins := InputIds(p.nodes, pn.id);
    EndIsNotBefore(p, pn, n, ins[0], p1);
    EndIsNotBefore(p, pn, n, ins[1], p2);
    assert n.id != pn.id && Mentions(q, n.id);
    OnlyAtTheEnd(p, pn, n, q);
  }

  lemma EndIsNotBefore(p: PipelineConfig, pn: Node, n: Node, v: NodeId, t: Path)
    requires p.Valid() && pn.id in p.Lookup() && v in InputIds(p.nodes, pn.id)
    requires ReachedBy(p.Lookup(), p.captureNodes, v, t)
    requires forall n :: n in p.terminationNodes ==> n.output == []
    requires n in p.nodes && n.Termination?
    ensures !Mentions(t, n.id)
  {
    hide Categorize, ReachedBy, InputIds, Mentions, PipelineConfig.UniqueIds;
    if Mentions(t, n.id) {
      ReachedByVisits(p, v, t, n.id);
      InputLeadsThere(p, pn, v);
      NoOutput(p, n);
      NothingBehind(p.Outputs(), n.id, v);
    }
  }

  lemma NothingBehind(g: Graph, a: NodeId, b: NodeId)
    requires Reaches(g, a, b) && a in g && g[a] == []
    ensures a == b
  {
    var w :| WalkFrom(g, a, b, w);
    ClosedSetHoldsWalk(g, {a}, w);
  }

  lemma NoOutput(p: PipelineConfig, n: Node)
    requires p.Valid() && n in p.nodes && n.Termination?
    requires forall n :: n in p.terminationNodes ==> n.output == []
    ensures n.id in p.Outputs() && p.Outputs()[n.id] == [] && p.Lookup()[n.id] == n
  {
    assert n in p.terminationNodes;
  }

  lemma OnlyAtTheEnd(p: PipelineConfig, pn: Node, n: Node, q: Path)
    requires p.Valid() && EndRun(p, pn, q) && q != [] && n in p.nodes && n.Termination? && Mentions(q, n.id)
    ensures EndsWith(q, n.terminationType)
  {
    hide Categorize, Run;
    var j :| 0 <= j < |pn.output| && Run(p.Lookup(), ONWARD, pn.output[j], q) && Completed(q);
    var k :| 0 <= k < |q| && !q[k].Truncated? && q[k].id == n.id;
    if k < |q| - 1 { InnerStepPasses(p.Lookup(), ONWARD, pn.output[j], q, k); }
    RunEntry(p.Lookup(), ONWARD, pn.output[j], q, |q| - 1);
  }

  lemma CoveredEnds(p: PipelineConfig, n: Node) returns (t: Path)
    requires p.Valid() && n in p.nodes && n.Termination? && Covered(p, n.id)
    ensures FromCapture(p.Lookup(), ALL, p.captureNodes, t) && EndsWith(t, n.terminationType)
  {
    hide Run, Categorize;
    t :| FromCapture(p.Lookup(), ALL, p.captureNodes, t) && Completed(t) && Mentions(t, n.id);
    var k :| 0 <= k < |t| && !t[k].Truncated? && t[k].id == n.id;
    var i :| 0 <= i < |p.captureNodes| && Run(p.Lookup(), ALL, p.captureNodes[i].id, t);
    TerminationIsLast(p.Lookup(), p.captureNodes[i].id, t, k);
  }
}
