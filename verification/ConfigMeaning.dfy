/** Pipelines of the same meaning have the same graph, the same runs up to branch descriptions, and the same expected
    files. */
module ConfigMeaning {
  import opened Sorting
  import opened Walks
  import opened Pipelines
  import opened PipelineGraphs
  import opened Runs
  import opened Merging
  import opened Enumeration
  import opened EnumerationTheorems
  import opened PairingOrder
  import opened PairingPieces
  import opened PairingEnumeration
  import opened PairingStages
  import opened ExpectedFiles
  import opened ConfigBuilding

  ghost predicate SamePipelines(p: PipelineConfig, q: PipelineConfig) {
    p.Valid() && q.Valid() && SameNodes(p.nodes, q.nodes)
  }

  /** Node tables that mean the same. */
  ghost predicate SameTables(a: Nodes, b: Nodes) {
    a.Keys == b.Keys && Keyed(a) && Keyed(b) && forall id :: id in a ==> SameMeaning(a[id], b[id])
  }

  /** One entry, as the other pipeline would record it. */
  function Reworded(nodes: Nodes, e: Entry): Entry {
    if e.BranchStep? && e.id in nodes && nodes[e.id].Branching? then BranchStep(e.id, nodes[e.id].condition) else e
  }

  function RewordedPath(nodes: Nodes, t: Path): (r: Path)
    ensures |r| == |t| && forall i :: 0 <= i < |t| ==> r[i] == Reworded(nodes, t[i])
  {
    seq(|t|, i requires 0 <= i < |t| => Reworded(nodes, t[i]))
  }

  lemma SameSymmetric(a: Node, b: Node)
    requires SameMeaning(a, b)
    ensures SameMeaning(b, a)
    ensures a.ManyMethods() == b.ManyMethods() && a.Limited() == b.Limited()
  {
    if a.Process? { assert Methods(a) == Methods(b); }
  }

  lemma NodeAt(p: PipelineConfig, i: nat)
    requires p.UniqueIds() && i < |p.nodes|
    ensures p.nodes[i].id in p.Lookup() && p.Lookup()[p.nodes[i].id] == p.nodes[i]
  {
    assert p.nodes[i] in p.nodes;
  }

  lemma IndexOf(p: PipelineConfig, id: NodeId) returns (i: nat)
    requires p.UniqueIds() && id in p.Lookup()
    ensures i < |p.nodes| && p.nodes[i] == p.Lookup()[id] && p.nodes[i].id == id
  {
    i :| 0 <= i < |p.nodes| && p.nodes[i] == p.Lookup()[id];
  }

  lemma SameEntries(p: PipelineConfig, q: PipelineConfig, id: NodeId)
    requires p.UniqueIds() && q.UniqueIds() && SameNodes(p.nodes, q.nodes)
    ensures id in p.Lookup() ==> id in q.Lookup() && SameMeaning(p.Lookup()[id], q.Lookup()[id])
    ensures id in q.Lookup() ==> id in p.Lookup()
  {
    hide SameMeaning, PipelineConfig.UniqueIds;
    if id in p.Lookup() {
      var i := IndexOf(p, id);
      SameIdAndOutput(p.nodes[i], q.nodes[i]);
      NodeAt(q, i);
    }
    if id in q.Lookup() {
      var i := IndexOf(q, id);
      SameIdAndOutput(p.nodes[i], q.nodes[i]);
      NodeAt(p, i);
    }
  }

  lemma TablesAgree(p: PipelineConfig, q: PipelineConfig)
    requires SamePipelines(p, q)
    ensures SameTables(p.Lookup(), q.Lookup())
    ensures p.Outputs() == q.Outputs()
  {
    hide SameMeaning, Categorize, PipelineConfig.UniqueIds;
    forall id ensures id in p.Lookup() ==> id in q.Lookup() && SameMeaning(p.Lookup()[id], q.Lookup()[id])
              ensures id in q.Lookup() ==> id in p.Lookup() { SameEntries(p, q, id); }
    assert p.Lookup().Keys == q.Lookup().Keys;
    GraphsAgree(p);
    GraphsAgree(q);
    forall id | id in p.Lookup() ensures p.Lookup()[id].output == q.Lookup()[id].output {
      SameIdAndOutput(p.Lookup()[id], q.Lookup()[id]);
    }
    assert GraphOf(p.Lookup()) == GraphOf(q.Lookup());
  }

  lemma SameIdAndOutput(a: Node, b: Node)
    requires SameMeaning(a, b)
    ensures a.id == b.id && a.output == b.output
  {
  }

  lemma {:induction false} VisitsReworded(nodes: Nodes, s: Path, x: NodeId)
    ensures Visits(RewordedPath(nodes, s), x) == Visits(s, x)
  {
    if s != [] {
      VisitsReworded(nodes, s[..|s| - 1], x);
      assert RewordedPath(nodes, s)[..|s| - 1] == RewordedPath(nodes, s[..|s| - 1]);
    }
  }

  lemma EmitsReworded(a: Node, b: Node, bs: Nodes, e: Entry)
    requires SameMeaning(a, b) && Emits(a, e) && b.id in bs && bs[b.id] == b
    ensures Emits(b, Reworded(bs, e)) && Reworded(bs, e).id == e.id
  {
  }

  lemma StepReworded(a: Nodes, b: Nodes, m: Mode, start: NodeId, s: Path, e: Entry)
    requires SameTables(a, b) && !e.Truncated? && e.id in a && Emits(a[e.id], e)
    requires Next(a, start, s, e.id) && Room(a, s, e.id)
    ensures var e', s' := Reworded(b, e), RewordedPath(b, s);
            && !e'.Truncated? && e'.id == e.id && e.id in b && Emits(b[e.id], e')
            && Next(b, start, s', e.id) && Room(b, s', e.id)
    ensures Passes(m, a[e.id]) == Passes(m, b[e.id]) && Ends(m, a[e.id]) == Ends(m, b[e.id])
    ensures StopsBeforePairing(a, m, a[e.id]) ==> StopsBeforePairing(b, m, b[e.id])
  {
    hide Visits, Emits, SameMeaning;
    EmitsReworded(a[e.id], b[e.id], b, e);
    VisitsReworded(b, s, e.id);
    PassesAlike(a[e.id], b[e.id], m);
    forall id | id in a ensures a[id].Pairing? == b[id].Pairing? && a[id].output == b[id].output {
      PassesAlike(a[id], b[id], m);
    }
    if s != [] { assert Reworded(b, s[|s| - 1]).Truncated? == s[|s| - 1].Truncated?; }
  }

  lemma PassesAlike(a: Node, b: Node, m: Mode)
    requires SameMeaning(a, b)
    ensures Passes(m, a) == Passes(m, b) && Ends(m, a) == Ends(m, b)
    ensures a.output == b.output && a.Pairing? == b.Pairing? && a.ManyMethods() == b.ManyMethods() &&
              a.Limited() == b.Limited()
  {
    SameSymmetric(a, b);
  }

  lemma {:induction false} ChainReworded(a: Nodes, b: Nodes, m: Mode, start: NodeId, s: Path)
    requires SameTables(a, b) && Chain(a, m, start, s)
    ensures Chain(b, m, start, RewordedPath(b, s))
  {
    if s != [] {
      var r, e := s[..|s| - 1], s[|s| - 1];
      ChainReworded(a, b, m, start, r);
      StepReworded(a, b, m, start, r, e);
      assert RewordedPath(b, s)[..|s| - 1] == RewordedPath(b, r);
    }
  }

  lemma CutReworded(a: Nodes, b: Nodes, start: NodeId, s: Path, x: NodeId)
    requires SameTables(a, b) && CutAt(a, start, s, x)
    ensures CutAt(b, start, RewordedPath(b, s), x)
  {
    hide Visits;
    VisitsReworded(b, s, x);
    SameSymmetric(a[x], b[x]);
    if s != [] {
      var e := s[|s| - 1];
      SameIdAndOutput(a[e.id], b[e.id]);
      assert Reworded(b, e).id == e.id;
    }
  }

  /** Every run of one table is, reworded, a run of the other. */
  lemma RunReworded(a: Nodes, b: Nodes, m: Mode, start: NodeId, t: Path)
    requires SameTables(a, b) && Run(a, m, start, t)
    ensures Run(b, m, start, RewordedPath(b, t))
  {
    hide Chain, Visits;
    var s, e := t[..|t| - 1], t[|t| - 1];
    ChainReworded(a, b, m, start, s);
    assert RewordedPath(b, t)[..|t| - 1] == RewordedPath(b, s);
    if e.Truncated? {
      var x :| CutAt(a, start, s, x);
      CutReworded(a, b, start, s, x);
    } else {
      StepReworded(a, b, m, start, s, e);
    }
  }

  lemma EntryBack(a: Nodes, b: Nodes, e: Entry)
    requires SameTables(a, b) && !e.Truncated? && e.id in a && Emits(a[e.id], e)
    ensures Reworded(a, Reworded(b, e)) == e
  {
    assert SameMeaning(a[e.id], b[e.id]);
  }

  lemma ExpectedReworded(nodes: Nodes, t: Path, base: string, suffix: string)
    ensures Expected(RewordedPath(nodes, t), base, suffix) == Expected(t, base, suffix)
  {
    OnlyMethodsAndExtensionsMatter(RewordedPath(nodes, t), t, base, suffix, |t|);
  }

  // ------------------------------------------------------------ merging and going onward commute with rewording

  lemma RewordedConcat(nodes: Nodes, s: Path, t: Path)
    ensures RewordedPath(nodes, s + t) == RewordedPath(nodes, s) + RewordedPath(nodes, t)
  {
  }

  lemma {:induction false} RewordedIds(nodes: Nodes, s: Path)
    ensures Ids(RewordedPath(nodes, s)) == Ids(s)
  {
    if s != [] {
      RewordedIds(nodes, s[1..]);
      assert RewordedPath(nodes, s)[1..] == RewordedPath(nodes, s[1..]);
    }
  }

  lemma {:induction false} RewordedNews(nodes: Nodes, s: Path, seen: set<NodeId>)
    ensures News(RewordedPath(nodes, s), seen) == RewordedPath(nodes, News(s, seen))
  {
    if s != [] {
      var e, r := s[0], RewordedPath(nodes, s);
      assert r[1..] == RewordedPath(nodes, s[1..]) && r[0].Truncated? == e.Truncated?;
      if e.Truncated? || e.id in seen {
        RewordedNews(nodes, s[1..], seen);
      } else {
        RewordedNews(nodes, s[1..], seen + {e.id});
        RewordedConcat(nodes, [e], News(s[1..], seen + {e.id}));
        assert RewordedPath(nodes, [e]) == [r[0]];
      }
    }
  }

  lemma RewordedMerge(nodes: Nodes, s: Path, t: Path)
    ensures RewordedPath(nodes, Merge(s, t)) == Merge(RewordedPath(nodes, s), RewordedPath(nodes, t))
  {
    RewordedIds(nodes, s);
    RewordedNews(nodes, t, Ids(s));
    RewordedConcat(nodes, s, News(t, Ids(s)));
  }

  ghost predicate SameCaptures(a: seq<Node>, b: seq<Node>) {
    |a| == |b| && forall i :: 0 <= i < |a| ==> a[i].id == b[i].id
  }

  lemma FromCaptureReworded(a: Nodes, b: Nodes, m: Mode, ca: seq<Node>, cb: seq<Node>, t: Path)
    requires SameTables(a, b) && SameCaptures(ca, cb) && FromCapture(a, m, ca, t)
    ensures FromCapture(b, m, cb, RewordedPath(b, t))
  {
    hide Run, SameTables;
    var i :| 0 <= i < |ca| && Run(a, m, ca[i].id, t);
    RunReworded(a, b, m, ca[i].id, t);
    assert Run(b, m, cb[i].id, RewordedPath(b, t));
  }

  lemma OnwardReworded(a: Nodes, b: Nodes, m: Mode, base: Path, ids: seq<NodeId>, t: Path)
    requires SameTables(a, b) && Onward(a, m, base, ids, t)
    ensures Onward(b, m, RewordedPath(b, base), ids, RewordedPath(b, t))
  {
    hide Run, SameTables;
    var k, q :| 0 <= k < |ids| && Run(a, m, ids[k], q) && t == base + q;
    RunReworded(a, b, m, ids[k], q);
    RewordedConcat(b, base, q);
  }

  lemma TakenToReworded(a: Nodes, b: Nodes, f: Path, v: NodeId, t: Path)
    requires SameTables(a, b) && TakenTo(a, f, v, t)
    ensures TakenTo(b, RewordedPath(b, f), v, RewordedPath(b, t))
  {
    hide Run, SameTables;
    var last, g := f[|f| - 1].id, RewordedPath(b, f);
    assert g[|f| - 1].id == last && !g[|f| - 1].Truncated?;
    if last != v {
      var q :| Run(a, Towards(v), last, q) && t == f[..|f| - 1] + q;
      RunReworded(a, b, Towards(v), last, q);
      RewordedConcat(b, f[..|f| - 1], q);
      assert g[..|f| - 1] == RewordedPath(b, f[..|f| - 1]);
    }
  }

  // ------------------------------------------------------------ the stages of the whole enumeration

  /** The same Captures and Pairing nodes in the same order, with the same inputs. */
  ghost predicate SameSettings(st: Setting, su: Setting) {
    && st.Ok() && su.Ok() && SameTables(st.nodes, su.nodes) && SameCaptures(st.captures, su.captures)
    && |st.order| == |su.order|
    && forall k :: 0 <= k < |st.order| ==> SameMeaning(st.order[k], su.order[k]) && st.Inputs(k) == su.Inputs(k)
  }

  lemma {:induction false} ArrivesReworded(st: Setting, su: Setting, k: nat, v: NodeId, t: Path)
    requires SameSettings(st, su) && k < |st.order| && Arrives(st, k, v, t)
    ensures Arrives(su, k, v, RewordedPath(su.nodes, t))
    decreases k, 0
  {
    hide SameTables, SameMeaning, Setting.Inputs, FromCapture, TakenTo, Onward, Paired, LeftOpen;
    if k == 0 {
      FromCaptureReworded(st.nodes, su.nodes, Towards(v), st.captures, su.captures, t);
    } else {
      var f: Path :| Open(st, k, f) && TakenTo(st.nodes, f, v, t);
      TakenToReworded(st.nodes, su.nodes, f, v, t);
      LeftOpenReworded(su.nodes, f, st.Inputs(k));
      FoundReworded(st, su, k - 1, f);
      assert Open(su, k, RewordedPath(su.nodes, f));
    }
  }

  lemma LeftOpenReworded(nodes: Nodes, f: Path, inputs: seq<NodeId>)
    requires LeftOpen(f, inputs)
    ensures LeftOpen(RewordedPath(nodes, f), inputs)
  {
    assert Reworded(nodes, f[|f| - 1]).id == f[|f| - 1].id;
  }

  lemma PairedReworded(st: Setting, su: Setting, k: nat, b: Path)
    requires SameSettings(st, su) && k < |st.order| && Paired(st, k, b)
    ensures Paired(su, k, RewordedPath(su.nodes, b))
    decreases k, 1
  {
    hide SameTables, Setting.Inputs, Arrives, Merge;
    var pn := st.order[k];
    var p1, p2 {:trigger Merge(p1, p2)} :| Arrives(st, k, st.Inputs(k)[0], p1) && Arrives(st, k, st.Inputs(k)[1], p2)
                   && b == Merge(p1, p2) + [PairingStep(pn.id, pn.pairingType)];
    ArrivesReworded(st, su, k, st.Inputs(k)[0], p1);
    ArrivesReworded(st, su, k, st.Inputs(k)[1], p2);
    RewordedMerge(su.nodes, p1, p2);
    RewordedConcat(su.nodes, Merge(p1, p2), [PairingStep(pn.id, pn.pairingType)]);
    assert su.order[k].id == pn.id && su.order[k].pairingType == pn.pairingType;
    assert RewordedPath(su.nodes, [PairingStep(pn.id, pn.pairingType)]) == [PairingStep(pn.id, pn.pairingType)];
  }

  lemma FoundReworded(st: Setting, su: Setting, k: nat, t: Path)
    requires SameSettings(st, su) && k < |st.order| && FoundBehind(st, k, t)
    ensures FoundBehind(su, k, RewordedPath(su.nodes, t))
    decreases k, 2
  {
    hide SameTables, Setting.Inputs, Paired, Onward;
    var b {:trigger Paired(st, k, b)} :|
        Paired(st, k, b) && Onward(st.nodes, StageMode(st, k), b, st.order[k].output, t);
    PairedReworded(st, su, k, b);
    OnwardReworded(st.nodes, su.nodes, StageMode(st, k), b, st.order[k].output, t);
    SameIdAndOutput(st.order[k], su.order[k]);
    assert StageMode(su, k) == StageMode(st, k);
  }

  lemma EndedReworded(nodes: Nodes, t: Path)
    ensures LooksEnded(RewordedPath(nodes, t)) <==> LooksEnded(t)
  {
    if t != [] { assert Reworded(nodes, t[|t| - 1]).EndStep? == t[|t| - 1].EndStep?; }
  }

  lemma EnumerableReworded(st: Setting, su: Setting, t: Path)
    requires SameSettings(st, su) && Enumerable(st, t)
    ensures Enumerable(su, RewordedPath(su.nodes, t))
  {
    hide SameTables, Setting.Inputs, FoundBehind, FromCapture, SameMeaning, LooksEnded;
    EndedReworded(su.nodes, t);
    if PassesBy(st.nodes, st.captures, t) {
      FromCaptureReworded(st.nodes, su.nodes, AROUND, st.captures, su.captures, t);
    } else {
      var k: nat :| 0 <= k < |st.order| && Leaves(st, k, t);
      FoundReworded(st, su, k, t);
      assert Leaves(su, k, RewordedPath(su.nodes, t));
    }
  }

  // ------------------------------------------------------------ rewording back

  /** Every entry but a truncation marker is one its node emits. */
  ghost predicate Emitted(nodes: Nodes, t: Path) {
    forall e :: e in t && !e.Truncated? ==> e.id in nodes && Emits(nodes[e.id], e)
  }

  lemma EmittedComesBack(a: Nodes, b: Nodes, t: Path)
    requires SameTables(a, b) && Emitted(a, t)
    ensures RewordedPath(a, RewordedPath(b, t)) == t
  {
    hide SameTables, Emits;
    forall i | 0 <= i < |t| ensures Reworded(a, Reworded(b, t[i])) == t[i] {
      assert t[i] in t;
      if !t[i].Truncated? { EntryBack(a, b, t[i]); }
    }
  }

  lemma RunEmitted(nodes: Nodes, m: Mode, start: NodeId, q: Path)
    requires Run(nodes, m, start, q)
    ensures Emitted(nodes, q)
  {
    hide Run, Emits;
    forall e | e in q && !e.Truncated? ensures e.id in nodes && Emits(nodes[e.id], e) {
      var i :| 0 <= i < |q| && q[i] == e;
      RunEntry(nodes, m, start, q, i);
    }
  }

  lemma FromCaptureEmitted(nodes: Nodes, m: Mode, captures: seq<Node>, t: Path)
    requires FromCapture(nodes, m, captures, t)
    ensures Emitted(nodes, t)
  {
    hide Run, Emitted;
    var i :| 0 <= i < |captures| && Run(nodes, m, captures[i].id, t);
    RunEmitted(nodes, m, captures[i].id, t);
  }

  lemma {:induction false} ArrivesEmitted(st: Setting, k: nat, v: NodeId, t: Path)
    requires st.Ok() && st.Consistent() && k < |st.order| && Arrives(st, k, v, t)
    ensures Emitted(st.nodes, t)
    decreases k, 0
  {
    hide Run, Setting.Inputs, Setting.Consistent, Emits, FoundBehind, LeftOpen;
    if k == 0 {
      FromCaptureEmitted(st.nodes, Towards(v), st.captures, t);
    } else {
      var f: Path :| Open(st, k, f) && TakenTo(st.nodes, f, v, t);
      FoundEmitted(st, k - 1, f);
      if t != f {
        var last := f[|f| - 1].id;
        var q :| Run(st.nodes, Towards(v), last, q) && t == f[..|f| - 1] + q;
        RunEmitted(st.nodes, Towards(v), last, q);
      }
    }
  }

  lemma FoundEmitted(st: Setting, k: nat, t: Path)
    requires st.Ok() && st.Consistent() && k < |st.order| && FoundBehind(st, k, t)
    ensures Emitted(st.nodes, t)
    decreases k, 1
  {
    hide Run, Setting.Inputs, Merge, Arrives, Emits;
    var x, j, q := FoundFrom(st, k, t);
    var pn := st.order[k];
    var p1, p2 {:trigger Merge(p1, p2)} :| Arrives(st, k, st.Inputs(k)[0], p1) && Arrives(st, k, st.Inputs(k)[1], p2)
                   && x == Merge(p1, p2) + [PairingStep(pn.id, pn.pairingType)];
    ArrivesEmitted(st, k, st.Inputs(k)[0], p1);
    ArrivesEmitted(st, k, st.Inputs(k)[1], p2);
    RunEmitted(st.nodes, StageMode(st, k), pn.output[j], q);
    MergeEmitted(st.nodes, p1, p2);
    assert Emits(pn, PairingStep(pn.id, pn.pairingType)) by { PairingEmits(pn); }
  }

  lemma PairingEmits(pn: Node)
    requires pn.Pairing?
    ensures Emits(pn, PairingStep(pn.id, pn.pairingType))
  {
  }

  lemma MergeEmitted(nodes: Nodes, p1: Path, p2: Path)
    requires Emitted(nodes, p1) && Emitted(nodes, p2)
    ensures Emitted(nodes, Merge(p1, p2))
  {
    hide Emits;
    NewsAreOld(p2, Ids(p1));
  }

  lemma EnumerableEmitted(st: Setting, t: Path)
    requires st.Ok() && st.Consistent() && Enumerable(st, t)
    ensures Emitted(st.nodes, t)
  {
    hide Emitted, FromCapture, FoundBehind, Setting.Inputs, Setting.Consistent;
    if PassesBy(st.nodes, st.captures, t) {
      FromCaptureEmitted(st.nodes, AROUND, st.captures, t);
    } else {
      var k: nat :| 0 <= k < |st.order| && Leaves(st, k, t);
      FoundEmitted(st, k, t);
    }
  }

  // ------------------------------------------------------------ pipelines of the same meaning

  /** Lists selected by criteria that agree are aligned. */
  lemma {:induction false} SelectAligned(a: seq<Node>, b: seq<Node>, keep: Node -> bool)
    requires SameNodes(a, b) && forall i :: 0 <= i < |a| ==> keep(a[i]) == keep(b[i])
    ensures SameNodes(Select(a, keep), Select(b, keep))
  {
    hide SameMeaning;
    if a != [] { SelectAligned(a[..|a| - 1], b[..|b| - 1], keep); }
  }

  ghost predicate ById(le: (Node, Node) -> bool) {
    forall x: Node, y: Node, x': Node, y': Node {:trigger le(x, y), le(x', y')} ::
      x.id == x'.id && y.id == y'.id ==> le(x, y) == le(x', y')
  }

  lemma {:induction false} InsertAligned(x: Node, y: Node, a: seq<Node>, b: seq<Node>, le: (Node, Node) -> bool)
    requires SameMeaning(x, y) && SameNodes(a, b) && ById(le)
    ensures SameNodes(Insert(x, a, le), Insert(y, b, le))
  {
    if a != [] && !le(x, a[0]) {
      assert SameMeaning(a[0], b[0]);
      InsertAligned(x, y, a[1..], b[1..], le);
    } else if a != [] {
      assert SameMeaning(a[0], b[0]);
    }
  }

  /** A stable sort by ids keeps aligned lists aligned. */
  lemma {:induction false} SortAligned(a: seq<Node>, b: seq<Node>, le: (Node, Node) -> bool)
    requires SameNodes(a, b) && ById(le)
    ensures SameNodes(Sort(a, le), Sort(b, le))
  {
    hide SameMeaning, ById;
    if a != [] {
      SortAligned(a[1..], b[1..], le);
      InsertAligned(a[0], b[0], Sort(a[1..], le), Sort(b[1..], le), le);
    }
  }

  lemma NearerIsById(d: Distances)
    ensures ById(NearerOrAsFar(d))
  {
  }

  lemma AlignedIds(a: seq<Node>, b: seq<Node>)
    requires SameNodes(a, b)
    ensures NodeIds(a) == NodeIds(b) && SameCaptures(a, b)
  {
    forall i | 0 <= i < |a| ensures a[i].id == b[i].id { SameIdAndOutput(a[i], b[i]); }
  }

  lemma KindsAligned(p: PipelineConfig, q: PipelineConfig)
    requires SamePipelines(p, q)
    ensures SameNodes(p.captureNodes, q.captureNodes) && SameNodes(p.pairingNodes, q.pairingNodes)
    ensures forall id :: InputIds(p.nodes, id) == InputIds(q.nodes, id)
  {
    hide Select;
    SelectAligned(p.nodes, q.nodes, (n: Node) => n.Capture?);
    SelectAligned(p.nodes, q.nodes, (n: Node) => n.Pairing?);
    forall id ensures InputIds(p.nodes, id) == InputIds(q.nodes, id) {
      SelectAligned(p.nodes, q.nodes, (n: Node) => id in n.output);
      AlignedIds(Select(p.nodes, (n: Node) => id in n.output), Select(q.nodes, (n: Node) => id in n.output));
    }
  }

  /** The processing orders are aligned: distances depend only on the graph, the ids and the Captures. */
  lemma OrdersAligned(p: PipelineConfig, q: PipelineConfig)
    requires SamePipelines(p, q)
    ensures SameNodes(ProcessingOrder(p), ProcessingOrder(q))
    ensures TwoInputsEach(p) <==> TwoInputsEach(q)
  {
    hide FinalDistances, SameMeaning, InputIds, Categorize, Select, PipelineConfig.UniqueIds;
    TablesAgree(p, q);
    KindsAligned(p, q);
    AlignedIds(p.nodes, q.nodes);
    AlignedIds(p.captureNodes, q.captureNodes);
    AlignedIds(p.pairingNodes, q.pairingNodes);
    assert PipelineDistances(p) == PipelineDistances(q);
    NearerIsById(PipelineDistances(p));
    SortAligned(p.pairingNodes, q.pairingNodes, NearerOrAsFar(PipelineDistances(p)));
    TwoInputsAligned(p, q);
  }

  lemma TwoInputsAligned(p: PipelineConfig, q: PipelineConfig)
    requires SameCaptures(p.pairingNodes, q.pairingNodes)
    requires forall id :: InputIds(p.nodes, id) == InputIds(q.nodes, id)
    ensures TwoInputsEach(p) <==> TwoInputsEach(q)
  {
    hide InputIds;
    if TwoInputsEach(p) {
      forall pn | pn in q.pairingNodes ensures |InputIds(q.nodes, pn.id)| == 2 {
        var i :| 0 <= i < |q.pairingNodes| && q.pairingNodes[i] == pn;
        assert p.pairingNodes[i] in p.pairingNodes;
      }
    }
    if TwoInputsEach(q) {
      forall pn | pn in p.pairingNodes ensures |InputIds(p.nodes, pn.id)| == 2 {
        var i :| 0 <= i < |p.pairingNodes| && p.pairingNodes[i] == pn;
        assert q.pairingNodes[i] in q.pairingNodes;
      }
    }
  }

  lemma SettingsAgree(p: PipelineConfig, q: PipelineConfig)
    requires SamePipelines(p, q) && TwoInputsEach(p)
    ensures SameSettings(SettingOf(p), SettingOf(q))
  {
    hide SameMeaning, InputIds, Categorize, Select, ProcessingOrder, TwoInputsEach, SameTables, Setting.Ok;
    OrdersAligned(p, q);
    KindsAligned(p, q);
    AlignedIds(p.captureNodes, q.captureNodes);
    TablesAgree(p, q);
    SettingIsOk(p);
    SettingIsOk(q);
    var st, su := SettingOf(p), SettingOf(q);
    forall k | 0 <= k < |st.order| ensures st.Inputs(k) == su.Inputs(k) { SameIdAndOutput(st.order[k], su.order[k]); }
  }

  /** A path of one pipeline is, with the other's branch descriptions, a path of the other, with the same expected
      files; and rewording it back gives it back. */
  ghost predicate PathCarriesOver(p: PipelineConfig, q: PipelineConfig, t: Path, base: string, suffix: string)
    requires p.Valid() && q.Valid()
  {
    PathOf(p, t) ==>
      && PathOf(q, RewordedPath(q.Lookup(), t))
      && RewordedPath(p.Lookup(), RewordedPath(q.Lookup(), t)) == t
      && Expected(RewordedPath(q.Lookup(), t), base, suffix) == Expected(t, base, suffix)
  }

  lemma PathReworded(p: PipelineConfig, q: PipelineConfig, t: Path, base: string, suffix: string)
    requires SamePipelines(p, q)
    ensures PathCarriesOver(p, q, t, base, suffix)
  {
    hide SameTables, Expected, Categorize, Enumerable, FromCapture, Emitted, Setting.Consistent, ProcessingOrder;
    hide TwoInputsEach;
    if PathOf(p, t) {
      TablesAgree(p, q);
      ExpectedReworded(q.Lookup(), t, base, suffix);
      KindsAligned(p, q);
      if p.pairingNodes == [] {
        AlignedIds(p.captureNodes, q.captureNodes);
        FromCaptureReworded(p.Lookup(), q.Lookup(), ALL, p.captureNodes, q.captureNodes, t);
        FromCaptureEmitted(p.Lookup(), ALL, p.captureNodes, t);
      } else {
        OrdersAligned(p, q);
        SettingIsOk(p);
        SettingIsOk(q);
        SettingIsConsistent(p);
        SettingsAgree(p, q);
        EnumerableReworded(SettingOf(p), SettingOf(q), t);
        EnumerableEmitted(SettingOf(p), t);
      }
      EmittedComesBack(p.Lookup(), q.Lookup(), t);
    }
  }

  /** Pipelines that mean the same have the same graph, pass or fail the input check alike, and their paths
      correspond one to one, up to branch descriptions, with the same expected files, whatever Pairing nodes there
      are. */
  lemma SameMeaningSamePaths(p: PipelineConfig, q: PipelineConfig, t: Path, base: string, suffix: string)
    requires SamePipelines(p, q)
    ensures p.Outputs() == q.Outputs()
    ensures TwoInputsEach(p) <==> TwoInputsEach(q)
    ensures PathCarriesOver(p, q, t, base, suffix) && PathCarriesOver(q, p, t, base, suffix)
  {
    hide PathCarriesOver, SameMeaning, Categorize, TwoInputsEach;
    TablesAgree(p, q);
    OrdersAligned(p, q);
    PathReworded(p, q, t, base, suffix);
    SamePipelinesSymmetric(p, q);
    PathReworded(q, p, t, base, suffix);
  }

  lemma SamePipelinesSymmetric(p: PipelineConfig, q: PipelineConfig)
    requires SamePipelines(p, q)
    ensures SamePipelines(q, p)
  {
    hide SameMeaning, Categorize;
    forall i | 0 <= i < |p.nodes| ensures SameMeaning(q.nodes[i], p.nodes[i]) { SameSymmetric(p.nodes[i], q.nodes[i]); }
  }

  /** From the raw lists: distinct ids and plain nodes give two configurations with the same graph whose whole
      enumerations correspond, Pairing nodes included. */
  lemma RoutesEnumerateAlike(nodes: seq<RawNode>, edges: seq<RawEdge>, blank: NodeId, parsed: seq<Node>,
                             t: Path, base: string, suffix: string)
    requires Parses(nodes, edges, blank, parsed)
    requires forall i :: 0 <= i < |nodes| ==> Plain(nodes[i], edges, blank)
    requires forall i, j :: 0 <= i < j < |nodes| ==> nodes[i].id != nodes[j].id
    ensures var p, q := Categorize(parsed), Categorize(DirectNodes(nodes, edges, blank));
            && p.Valid() && q.Valid() && p.Outputs() == q.Outputs() && (TwoInputsEach(p) <==> TwoInputsEach(q))
            && PathCarriesOver(p, q, t, base, suffix) && PathCarriesOver(q, p, t, base, suffix)
  {
    hide Plain, DirectNodes, PathCarriesOver, TwoInputsEach;
    ParsedAgrees(nodes, edges, blank, parsed);
    SameMeaningSamePaths(Categorize(parsed), Categorize(DirectNodes(nodes, edges, blank)), t, base, suffix);
  }

  lemma ParsedAgrees(nodes: seq<RawNode>, edges: seq<RawEdge>, blank: NodeId, parsed: seq<Node>)
    requires Parses(nodes, edges, blank, parsed)
    requires forall i :: 0 <= i < |nodes| ==> Plain(nodes[i], edges, blank)
    requires forall i, j :: 0 <= i < j < |nodes| ==> nodes[i].id != nodes[j].id
    ensures SamePipelines(Categorize(parsed), Categorize(DirectNodes(nodes, edges, blank)))
  {
    hide Plain, DirectNodes, Converted, SameMeaning, Select;
    var built := DirectNodes(nodes, edges, blank);
    RoutesAgreeExactly(nodes, edges, blank);
    var other :| Parses(nodes, edges, blank, other) && SameNodes(other, built);
    assert other == parsed;
    forall i | 0 <= i < |parsed| ensures parsed[i].id == nodes[i].id && built[i].id == nodes[i].id {
      ParsedId(nodes[i], edges, blank);
      SameIdAndOutput(parsed[i], built[i]);
    }
  }

  lemma ParsedId(n: RawNode, edges: seq<RawEdge>, blank: NodeId)
    requires ParseNode(Converted(n, edges), blank).Some?
    ensures ParseNode(Converted(n, edges), blank).value.id == n.id
  {
  }
}
