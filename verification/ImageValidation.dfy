/** validate_specific_image: the best-matching path for each termination type. */
module ImageValidation {
  import opened Options
  import opened Text
  import opened Runs
  import opened ExpectedFiles

  datatype Status = Consistent | ConsistentWithWarning | Partial | Inconsistent
  {
    function Priority(): nat {
      match this
      case Consistent => 0
      case ConsistentWithWarning => 1
      case Partial => 2
      case Inconsistent => 3
    }

    predicate Ready() { Consistent? || ConsistentWithWarning? }
  }

  function ToSet(s: seq<string>): set<string> { set x | x in s }

  function ClassifyValidationStatus(actual: set<string>, expected: set<string>): Status {
    if expected == {} then Inconsistent
    else if actual == expected then Consistent
    else if expected <= actual then ConsistentWithWarning
    else if actual <= expected then if actual == {} then Inconsistent else Partial
    else if actual * expected != {} then Partial
    else Inconsistent
  }

  /** The four verdicts, each by what is expected, present and missing. */
  lemma StatusMeaning(actual: set<string>, expected: set<string>)
    ensures var status := ClassifyValidationStatus(actual, expected);
            && (status.Ready() <==> expected != {} && expected - actual == {})
            && (status == Consistent <==> expected != {} && actual == expected)
            && (status == Partial <==> actual * expected != {} && expected - actual != {})
            && (status == Inconsistent <==> actual * expected == {})
  {
    if expected != {} && expected <= actual {
      var x :| x in expected;
      assert x in actual * expected;
    }
    forall x | x in expected && x !in actual ensures x in expected - actual {}
    if actual <= expected { assert actual * expected == actual; }
  }

  // ------------------------------------------------------------ one path

  function Without(s: seq<string>, other: seq<string>): (r: seq<string>)
    ensures forall x :: x in r <==> x in s && x !in other
  {
    if s == [] then []
    else
      var r := Without(s[..|s| - 1], other);
      var x := s[|s| - 1];
      assert s == s[..|s| - 1] + [x];
      if x in other then r else r + [x]
  }

  function LowerAll(s: seq<string>): (r: seq<string>)
    ensures |r| == |s| && forall i :: 0 <= i < |s| ==> r[i] == Lower(s[i])
  {
    seq(|s|, i requires 0 <= i < |s| => Lower(s[i]))
  }

  /** `f.rsplit('/', 1)[-1].lower()` for every file. */
  function ActualNames(files: seq<string>): (r: seq<string>)
    ensures |r| == |files| && forall i :: 0 <= i < |files| ==> r[i] == Lower(BaseName(files[i]))
  {
    seq(|files|, i requires 0 <= i < |files| => Lower(BaseName(files[i])))
  }

  /** Everything the selection loop computes for one path. */
  datatype Candidate = Candidate(expected: seq<string>, matched: nat, length: nat, status: Status,
                                 missing: seq<string>, extra: seq<string>, completion: real)

  function Assess(path: Path, base: string, suffix: string, actual: seq<string>): Candidate {
    var expected := Expected(path, base, suffix);
    var lowered := LowerAll(expected);
    var matched := |ToSet(actual) * ToSet(lowered)|;
    Candidate(
      expected,
      matched,
      |path|,
      ClassifyValidationStatus(ToSet(actual), ToSet(lowered)),
      SortedSet(Without(lowered, actual)),
      SortedSet(Without(actual, lowered)),
      if ToSet(lowered) != {} then (matched as real / |ToSet(lowered)| as real) * 100.0 else 0.0)
  }

  /** Most matched files, then shortest path, then best status, then fewest missing files. */
  predicate Better(a: Candidate, b: Candidate) {
    || a.matched > b.matched
    || (a.matched == b.matched && (
        || a.length < b.length
        || (a.length == b.length && (
            || a.status.Priority() < b.status.Priority()
            || (a.status == b.status && |a.missing| < |b.missing|)))))
  }

  lemma BetterIsStrictWeakOrder(a: Candidate, b: Candidate, c: Candidate)
    ensures !(Better(a, b) && Better(b, a))
    ensures Better(a, b) && Better(b, c) ==> Better(a, c)
    ensures Better(a, c) ==> Better(a, b) || Better(b, c)
  {
  }

  /** `k` is the first of the best paths. */
  ghost predicate FirstBest(paths: seq<Path>, base: string, suffix: string, actual: seq<string>, k: nat) {
    && k < |paths|
    && (forall j :: 0 <= j < |paths| ==>
        !Better(Assess(paths[j], base, suffix, actual), Assess(paths[k], base, suffix, actual)))
    && (forall j :: 0 <= j < k ==>
        Better(Assess(paths[k], base, suffix, actual), Assess(paths[j], base, suffix, actual)))
  }

  // ------------------------------------------------------------ one termination type

  datatype TerminationMatch = TerminationMatch(terminationType: string, status: Status, expectedFiles: seq<string>,
                                               missingFiles: seq<string>, extraFiles: seq<string>,
                                               completion: real, isArchivalReady: bool)

  function MatchOf(termType: string, best: Candidate): TerminationMatch {
    TerminationMatch(termType, best.status, best.expected, best.missing, best.extra, best.completion,
        best.status.Ready())
  }

  /** The selection loop, its `best_*` variables starting out as no path at all. */
  method SelectBest(termType: string, paths: seq<Path>, base: string, suffix: string, actual: seq<string>)
    returns (m: TerminationMatch)
    requires paths != []
    ensures exists k: nat ::
              FirstBest(paths, base, suffix, actual, k) &&
                  m == MatchOf(termType, Assess(paths[k], base, suffix, actual))
  {
    hide Assess;
    var bestStatus, bestExpected, bestMissing, bestExtra := Inconsistent, [], [], [];
    var bestCompletion := 0.0;
    var bestLength: Option<nat> := None;
    var bestMatched := 0;
    ghost var k: nat := 0;
    for i := 0 to |paths|
      invariant k < |paths|
      invariant bestLength == None <==> i == 0
      invariant i == 0 ==> bestMatched == 0
      invariant i > 0 ==>
        && k < i
        && Assess(paths[k], base, suffix, actual) ==
           Candidate(bestExpected, bestMatched, bestLength.value, bestStatus, bestMissing, bestExtra, bestCompletion)
      invariant forall j :: 0 <= j < i ==>
        !Better(Assess(paths[j], base, suffix, actual), Assess(paths[k], base, suffix, actual))
      invariant forall j :: 0 <= j < k ==>
        Better(Assess(paths[k], base, suffix, actual), Assess(paths[j], base, suffix, actual))
    {
      var c := Assess(paths[i], base, suffix, actual);
      var isBetter := false;
      if c.matched > bestMatched {
        isBetter := true;
      } else if c.matched == bestMatched {
        if bestLength == None || c.length < bestLength.value {
          isBetter := true;
        } else if c.length == bestLength.value {
          if c.status.Priority() < bestStatus.Priority() {
            isBetter := true;
          } else if c.status == bestStatus {
            if |c.missing| < |bestMissing| { isBetter := true; }
          }
        }
      }
      if isBetter {
        bestStatus, bestExpected, bestMissing, bestExtra := c.status, c.expected, c.missing, c.extra;
        bestCompletion, bestLength, bestMatched := c.completion, Some(c.length), c.matched;
        k := i;
      }
    }
    m := TerminationMatch(termType, bestStatus, bestExpected, bestMissing, bestExtra, bestCompletion,
        bestStatus.Ready());
    assert FirstBest(paths, base, suffix, actual, k);
  }

  /** Archival-ready means: the path expects at least one file and none is missing. */
  lemma ReadyExactly(path: Path, base: string, suffix: string, actual: seq<string>)
    ensures var c := Assess(path, base, suffix, actual);
            && (c.status.Ready() <==> c.expected != [] && c.missing == [])
            && (c.missing == [] <==> forall name :: name in c.expected ==> Lower(name) in actual)
  {
    hide Expected, SortedSet, Without;
    var expected := Expected(path, base, suffix);
    var lowered := LowerAll(expected);
    StatusMeaning(ToSet(actual), ToSet(lowered));
    assert expected != [] ==> lowered[0] in ToSet(lowered);
    MissingExactly(lowered, actual);
    LoweredIn(expected, actual);
  }

  /** The missing list is empty exactly when every expected name is present. */
  lemma MissingExactly(lowered: seq<string>, actual: seq<string>)
    ensures var missing := SortedSet(Without(lowered, actual));
            && (missing == [] <==> forall x :: x in lowered ==> x in actual)
            && (missing == [] <==> ToSet(lowered) - ToSet(actual) == {})
  {
    hide SortedSet;
    var without := Without(lowered, actual);
    SortedSetMembers(without);
    var missing := SortedSet(without);
    if missing == [] {
      forall x | x in lowered ensures x in actual {
        assert x in missing <==> x in without;
      }
    } else {
      assert missing[0] in missing && missing[0] in without;
      assert missing[0] in ToSet(lowered) - ToSet(actual);
    }
  }

  lemma LoweredIn(expected: seq<string>, actual: seq<string>)
    ensures (forall x :: x in LowerAll(expected) ==> x in actual) <==>
              forall name :: name in expected ==> Lower(name) in actual
  {
    var lowered := LowerAll(expected);
    if forall name :: name in expected ==> Lower(name) in actual {
      forall x | x in lowered ensures x in actual {
        var i :| 0 <= i < |lowered| && lowered[i] == x;
        assert expected[i] in expected;
      }
    }
    if forall x :: x in lowered ==> x in actual {
      forall name | name in expected ensures Lower(name) in actual {
        var i :| 0 <= i < |expected| && expected[i] == name;
        assert lowered[i] in lowered;
      }
    }
  }

  // ------------------------------------------------------------ a whole image

  predicate EndsWith(path: Path, termType: string) {
    path != [] && path[|path| - 1].EndStep? && path[|path| - 1].termType == termType
  }

  /** The paths to one termination type, in order; truncated paths belong to none. */
  function PathsTo(paths: seq<Path>, termType: string): (r: seq<Path>)
    ensures forall t :: t in r <==> t in paths && EndsWith(t, termType)
  {
    if paths == [] then []
    else
      var r := PathsTo(paths[..|paths| - 1], termType);
      var t := paths[|paths| - 1];
      assert paths == paths[..|paths| - 1] + [t];
      if EndsWith(t, termType) then r + [t] else r
  }

  datatype SpecificImage = SpecificImage(cameraId: string, counter: string, suffix: string, files: seq<string>)

  /** `m` describes the best path to its termination type. */
  ghost predicate IsBestMatch(m: TerminationMatch, paths: seq<Path>, image: SpecificImage) {
    var base, actual := image.cameraId + image.counter, ActualNames(image.files);
    exists k: nat :: FirstBest(paths, base, image.suffix, actual, k) &&
                m == MatchOf(m.terminationType, Assess(paths[k], base, image.suffix, actual))
  }

  /** The types the paths end with, each where it first occurs. */
  function TypesOf(paths: seq<Path>): seq<string> {
    if paths == [] then []
    else
      var r, t := TypesOf(paths[..|paths| - 1]), paths[|paths| - 1];
      if t != [] && t[|t| - 1].EndStep? && t[|t| - 1].termType !in r then r + [t[|t| - 1].termType] else r
  }

  ghost predicate Grouped(paths: seq<Path>, order: seq<string>, groups: map<string, seq<Path>>) {
    && order == TypesOf(paths)
    && (forall x :: x in order <==> x in groups)
    && (forall i, j :: 0 <= i < j < |order| ==> order[i] != order[j])
    && (forall x :: x in groups <==> PathsTo(paths, x) != [])
    && (forall x :: x in groups ==> groups[x] == PathsTo(paths, x))
  }

  lemma TypesOfStep(paths: seq<Path>, path: Path)
    ensures var r := TypesOf(paths);
            TypesOf(paths + [path]) ==
            if path != [] && path[|path| - 1].EndStep? && path[|path| - 1].termType !in r
            then r + [path[|path| - 1].termType]
            else r
  {
    assert (paths + [path])[..|paths|] == paths;
  }

  lemma PathsToStep(paths: seq<Path>, path: Path, x: string)
    ensures PathsTo(paths + [path], x) == if EndsWith(path, x) then PathsTo(paths, x) + [path] else PathsTo(paths, x)
  {
    assert (paths + [path])[..|paths|] == paths;
  }

  lemma GroupedSkip(paths: seq<Path>, path: Path, order: seq<string>, groups: map<string, seq<Path>>)
    requires Grouped(paths, order, groups) && !(path != [] && path[|path| - 1].EndStep?)
    ensures Grouped(paths + [path], order, groups)
  {
    hide PathsTo, TypesOf;
    TypesOfStep(paths, path);
    forall x ensures PathsTo(paths + [path], x) == PathsTo(paths, x) { PathsToStep(paths, path, x); }
  }

  lemma EndsWithOne(path: Path)
    requires path != [] && path[|path| - 1].EndStep?
    ensures forall y :: EndsWith(path, y) <==> y == path[|path| - 1].termType
  {
  }

  lemma GroupedStep(paths: seq<Path>, path: Path, order: seq<string>, groups: map<string, seq<Path>>)
    requires Grouped(paths, order, groups) && path != [] && path[|path| - 1].EndStep?
    ensures var x := path[|path| - 1].termType;
            if x in groups then Grouped(paths + [path], order, groups[x := groups[x] + [path]])
            else Grouped(paths + [path], order + [x], groups[x := [path]])
  {
    hide PathsTo, EndsWith, TypesOf;
    TypesOfStep(paths, path);
    assert forall y :: EndsWith(path, y) <==> y == path[|path| - 1].termType by { EndsWithOne(path); }
    var x := path[|path| - 1].termType;
    forall y ensures PathsTo(paths + [path], y) == if y == x then PathsTo(paths, y) + [path] else PathsTo(paths, y) {
      PathsToStep(paths, path, y);
    }
  }

  method GroupByTermination(allPaths: seq<Path>) returns (order: seq<string>, groups: map<string, seq<Path>>)
    ensures Grouped(allPaths, order, groups)
  {
    hide Grouped;
    order, groups := [], map[];
    NothingGrouped();
    for i := 0 to |allPaths|
      invariant Grouped(allPaths[..i], order, groups)
    {
      var path := allPaths[i];
      assert allPaths[..i + 1] == allPaths[..i] + [path];
      if path == [] || !path[|path| - 1].EndStep? {
        GroupedSkip(allPaths[..i], path, order, groups);
      } else {
        GroupedStep(allPaths[..i], path, order, groups);
        var termType := path[|path| - 1].termType;
        ghost var before := groups;
        if termType !in groups {
          groups := groups[termType := []];
          order := order + [termType];
          assert groups[termType] + [path] == [path];
        }
        groups := groups[termType := groups[termType] + [path]];
        assert groups == before[termType := if termType in before then before[termType] + [path] else [path]];
      }
    }
    assert allPaths[..|allPaths|] == allPaths;
  }

  lemma NothingGrouped()
    ensures Grouped([], [], map[])
  {
  }

  datatype ValidationResult = ValidationResult(matches: seq<TerminationMatch>, overallStatus: Status,
                                               overallReady: bool)

  /** One best match per termination type that has paths, in the order they first occur, the worst status, and whether
      any type is ready. */
  ghost predicate IsVerdict(r: ValidationResult, allPaths: seq<Path>, image: SpecificImage) {
    && |r.matches| == |TypesOf(allPaths)|
    && (forall i :: 0 <= i < |r.matches| ==> r.matches[i].terminationType == TypesOf(allPaths)[i])
    && (forall m :: m in r.matches ==> IsBestMatch(m, PathsTo(allPaths, m.terminationType), image))
    && (forall x :: PathsTo(allPaths, x) != [] <==> exists m :: m in r.matches && m.terminationType == x)
    && (forall i, j :: 0 <= i < j < |r.matches| ==> r.matches[i].terminationType != r.matches[j].terminationType)
    && IsOverall(r.matches, r.overallStatus, r.overallReady)
  }

  lemma FirstBestIsUnique(paths: seq<Path>, base: string, suffix: string, actual: seq<string>, j: nat, k: nat)
    requires FirstBest(paths, base, suffix, actual, j) && FirstBest(paths, base, suffix, actual, k)
    ensures j == k
  {
    hide Assess, Better;
    var c, d := Assess(paths[j], base, suffix, actual), Assess(paths[k], base, suffix, actual);
    assert !Better(c, d) && !Better(d, c);
  }

  lemma BestMatchIsUnique(m: TerminationMatch, n: TerminationMatch, paths: seq<Path>, image: SpecificImage)
    requires IsBestMatch(m, paths, image) && IsBestMatch(n, paths, image) && m.terminationType == n.terminationType
    ensures m == n
  {
    hide Assess, Better;
    var base, actual := image.cameraId + image.counter, ActualNames(image.files);
    var j: nat :| FirstBest(paths, base, image.suffix, actual, j) &&
                  m == MatchOf(m.terminationType, Assess(paths[j], base, image.suffix, actual));
    var k: nat :| FirstBest(paths, base, image.suffix, actual, k) &&
                  n == MatchOf(n.terminationType, Assess(paths[k], base, image.suffix, actual));
    FirstBestIsUnique(paths, base, image.suffix, actual, j, k);
  }

  /** The verdict is determined by the list of paths and the image, ties included. */
  lemma VerdictIsUnique(r: ValidationResult, s: ValidationResult, allPaths: seq<Path>, image: SpecificImage)
    requires IsVerdict(r, allPaths, image) && IsVerdict(s, allPaths, image)
    ensures r == s
  {
    hide IsBestMatch, IsOverall, TypesOf, PathsTo;
    forall i | 0 <= i < |r.matches| ensures r.matches[i] == s.matches[i] {
      assert r.matches[i] in r.matches && s.matches[i] in s.matches;
      BestMatchIsUnique(r.matches[i], s.matches[i], PathsTo(allPaths, r.matches[i].terminationType), image);
    }
    assert r.matches == s.matches;
    OverallIsUnique(r.matches, r.overallStatus, r.overallReady, s.overallStatus, s.overallReady);
  }

  lemma OverallIsUnique(matches: seq<TerminationMatch>, a: Status, ready: bool, b: Status, alsoReady: bool)
    requires IsOverall(matches, a, ready) && IsOverall(matches, b, alsoReady)
    ensures a == b && ready == alsoReady
  {
    assert a.Priority() == b.Priority();
  }

  ghost predicate IsOverall(matches: seq<TerminationMatch>, status: Status, ready: bool) {
    && (ready <==> exists m :: m in matches && m.isArchivalReady)
    && (matches == [] ==> status == Inconsistent)
    && (matches != [] ==> exists m :: m in matches && m.status == status)
    && forall m :: m in matches ==> m.status.Priority() <= status.Priority()
  }

  /** The part of validate_specific_image behind the enumeration. */
  method JudgeAgainst(image: SpecificImage, allPaths: seq<Path>) returns (r: ValidationResult)
    ensures IsVerdict(r, allPaths, image)
  {
    hide FirstBest, Assess, IsBestMatch, IsOverall, PathsTo, Grouped, IsVerdict, TypesOf;
    var order, groups := GroupByTermination(allPaths);
    var matches: seq<TerminationMatch> := [];
    for i := 0 to |order|
      invariant |matches| == i
      invariant forall j :: 0 <= j < i ==> matches[j].terminationType == order[j]
      invariant forall j :: 0 <= j < i ==> IsBestMatch(matches[j], PathsTo(allPaths, order[j]), image)
    {
      GroupIs(allPaths, order, groups, i);
      var m := BestMatch(order[i], groups[order[i]], image);
      matches := matches + [m];
    }
    var status, ready := Overall(matches);
    r := ValidationResult(matches, status, ready);
    MatchesMakeVerdict(image, allPaths, order, groups, r);
  }

  lemma GroupIs(allPaths: seq<Path>, order: seq<string>, groups: map<string, seq<Path>>, i: nat)
    requires Grouped(allPaths, order, groups) && i < |order|
    ensures order[i] in groups && groups[order[i]] == PathsTo(allPaths, order[i]) != []
  {
    hide PathsTo;
    assert order[i] in order;
  }

  lemma MatchesMakeVerdict(image: SpecificImage, allPaths: seq<Path>, order: seq<string>,
                           groups: map<string, seq<Path>>, r: ValidationResult)
    requires Grouped(allPaths, order, groups) && |r.matches| == |order|
    requires forall j :: 0 <= j < |order| ==> r.matches[j].terminationType == order[j]
    requires forall j :: 0 <= j < |order| ==> IsBestMatch(r.matches[j], PathsTo(allPaths, order[j]), image)
    requires IsOverall(r.matches, r.overallStatus, r.overallReady)
    ensures IsVerdict(r, allPaths, image)
  {
    hide IsBestMatch, IsOverall, PathsTo, TypesOf;
    MatchesCoverOrder(order, r.matches);
    forall m | m in r.matches ensures IsBestMatch(m, PathsTo(allPaths, m.terminationType), image) {
      var j :| 0 <= j < |r.matches| && r.matches[j] == m;
    }
  }

  lemma MatchesCoverOrder(order: seq<string>, matches: seq<TerminationMatch>)
    requires |matches| == |order| && forall j :: 0 <= j < |order| ==> matches[j].terminationType == order[j]
    ensures forall x :: x in order <==> exists m :: m in matches && m.terminationType == x
  {
    forall x | x in order ensures exists m :: m in matches && m.terminationType == x {
      var j :| 0 <= j < |order| && order[j] == x;
      assert matches[j] in matches;
    }
    forall m | m in matches ensures m.terminationType in order {
      var j :| 0 <= j < |matches| && matches[j] == m;
    }
  }

  method BestMatch(termType: string, paths: seq<Path>, image: SpecificImage) returns (m: TerminationMatch)
    requires paths != []
    ensures m.terminationType == termType && IsBestMatch(m, paths, image)
  {
    hide FirstBest, Assess;
    m := SelectBest(termType, paths, image.cameraId + image.counter, image.suffix, ActualNames(image.files));
  }

  /** The worst status, and whether any termination is ready. */
  method Overall(matches: seq<TerminationMatch>) returns (status: Status, ready: bool)
    ensures IsOverall(matches, status, ready)
  {
    if matches == [] { return Inconsistent, false; }
    status, ready := matches[0].status, false;
    ghost var worst := matches[0];
    for i := 0 to |matches|
      invariant worst in matches && worst.status == status
      invariant ready <==> exists j :: 0 <= j < i && matches[j].isArchivalReady
      invariant forall j :: 0 <= j < i ==> matches[j].status.Priority() <= status.Priority()
    {
      if status.Priority() < matches[i].status.Priority() { status, worst := matches[i].status, matches[i]; }
      if matches[i].isArchivalReady { ready := true; }
    }
  }
}
