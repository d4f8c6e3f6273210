/** FilenamePreviewGenerator and CollectionValidator, and how the bulk verdict relates to the per-image one. */
module CollectionValidation {
  import opened Options
  import opened Sorting
  import opened Text
  import opened Runs
  import opened ExpectedFiles
  import opened ImageValidation

  // ------------------------------------------------------------ previews

  /** The termination type of a path's last entry; a truncation marker counts as type TRUNCATED. */
  function TerminationType(path: Path): Option<string> {
    if path == [] then None
    else
      match path[|path| - 1]
      case EndStep(_, termType) => Some(termType)
      case Truncated => Some("TRUNCATED")
      case _ => None
  }

  /** Some path to the non-empty type `termType` expects `name`. */
  ghost predicate Previews(paths: seq<Path>, base: string, termType: string, name: string) {
    && termType != ""
    && exists i :: 0 <= i < |paths| && TerminationType(paths[i]) == Some(termType) &&
                   name in Expected(paths[i], base, "")
  }

  ghost predicate PreviewOf(paths: seq<Path>, base: string, previews: map<string, seq<string>>) {
    forall termType, name :: (termType in previews && name in previews[termType]) <==>
        Previews(paths, base, termType, name)
  }

  lemma PreviewsSkip(paths: seq<Path>, path: Path, base: string, previews: map<string, seq<string>>)
    requires PreviewOf(paths, base, previews)
    requires TerminationType(path) == None || TerminationType(path) == Some("")
    ensures PreviewOf(paths + [path], base, previews)
  {
    hide Expected;
    forall x, name ensures Previews(paths + [path], base, x, name) <==> Previews(paths, base, x, name) {
      PreviewsLast(paths, path, base, x, name);
    }
  }

  lemma PreviewsLast(paths: seq<Path>, path: Path, base: string, x: string, name: string)
    ensures Previews(paths + [path], base, x, name) <==>
            Previews(paths, base, x, name) ||
                (x != "" && TerminationType(path) == Some(x) && name in Expected(path, base, ""))
  {
    hide Expected;
    var all := paths + [path];
    assert all[|paths|] == path;
    if Previews(paths, base, x, name) {
      var i :| 0 <= i < |paths| && TerminationType(paths[i]) == Some(x) && name in Expected(paths[i], base, "");
      assert all[i] == paths[i];
    }
    if Previews(all, base, x, name) {
      var i :| 0 <= i < |all| && TerminationType(all[i]) == Some(x) && name in Expected(all[i], base, "");
      if i < |paths| { assert all[i] == paths[i]; }
    }
  }

  lemma PreviewsStep(paths: seq<Path>, path: Path, base: string, previews: map<string, seq<string>>, x: string)
    requires PreviewOf(paths, base, previews) && TerminationType(path) == Some(x) && x != ""
    ensures PreviewOf(paths + [path], base,
                      previews[x := (if x in previews then previews[x] else []) + Expected(path, base, "")])
  {
    hide Expected, Previews;
    forall y, name
      ensures Previews(paths + [path], base, y, name) <==>
              Previews(paths, base, y, name) || (y != "" && y == x && name in Expected(path, base, ""))
    {
      PreviewsLast(paths, path, base, y, name);
    }
  }

  /** The part of generate_preview behind the enumeration. */
  method PreviewPaths(paths: seq<Path>, cameraId: string, counter: string) returns (previews: map<string, seq<string>>)
    ensures PreviewOf(paths, cameraId + counter, previews)
    ensures forall x :: x in previews ==> Sorted(previews[x], StrLe)
  {
    hide PreviewOf, Expected, Sorted, SortedSet;
    var base := cameraId + counter;
    var collected: map<string, seq<string>> := map[];
    NothingPreviewed(base);
    for i := 0 to |paths|
      invariant PreviewOf(paths[..i], base, collected)
    {
      var path := paths[i];
      assert paths[..i + 1] == paths[..i] + [path];
      var termType := TerminationType(path);
      if termType == None || termType.value == "" {
        PreviewsSkip(paths[..i], path, base, collected);
      } else {
        var x := termType.value;
        PreviewsStep(paths[..i], path, base, collected, x);
        var files := GenerateExpectedFiles(path, base, "");
        collected := collected[x := (if x in collected then collected[x] else []) + files];
      }
    }
    assert paths[..|paths|] == paths;
    previews := map x | x in collected :: SortedSet(collected[x]);
    forall x | x in collected ensures Sorted(previews[x], StrLe) { SortedSetMembers(collected[x]); }
    SortingKeepsPreviews(paths, base, collected, previews);
  }

  lemma NothingPreviewed(base: string)
    ensures PreviewOf([], base, map[])
  {
  }

  lemma SortingKeepsPreviews(paths: seq<Path>, base: string, collected: map<string, seq<string>>,
                             previews: map<string, seq<string>>)
    requires PreviewOf(paths, base, collected)
    requires previews.Keys == collected.Keys && forall x :: x in collected ==> previews[x] == SortedSet(collected[x])
    ensures PreviewOf(paths, base, previews)
  {
    hide SortedSet, Previews;
    forall x, name | x in collected ensures name in previews[x] <==> name in collected[x] {
      SortedSetMembers(collected[x]);
    }
  }

  // ------------------------------------------------------------ groups

  datatype GroupStatus = GroupConsistent | GroupPartial | GroupInconsistent

  /** Extra files are fine for a group. */
  function ClassifyGroup(actual: set<string>, expected: set<string>): GroupStatus {
    if actual == expected then GroupConsistent
    else if expected <= actual then GroupConsistent
    else if actual <= expected then if actual != {} then GroupPartial else GroupInconsistent
    else if actual * expected != {} then GroupPartial
    else GroupInconsistent
  }

  datatype ImageGroup = ImageGroup(base: string, files: seq<string>, status: GroupStatus, missingFiles: set<string>)

  /** The base is cut into four and four characters; a shorter one is replaced by a stock base. */
  function CameraOf(base: string): string { if |base| >= 8 then base[..4] else "ABCD" }
  function CounterOf(base: string): string { if |base| >= 8 then base[4..8] else "0001" }

  /** All expected names of the group, in lower case. */
  ghost predicate IsAllExpected(paths: seq<Path>, base: string, all: set<string>) {
    forall low :: low in all <==> exists termType, name :: Previews(paths, base, termType, name) && low == Lower(name)
  }

  /** The part of _validate_group behind the enumeration. */
  method GroupAgainst(paths: seq<Path>, base: string, files: seq<string>)
    returns (g: ImageGroup, ghost allExpected: set<string>)
    ensures IsAllExpected(paths, CameraOf(base) + CounterOf(base), allExpected)
    ensures g.base == base && g.files == files
    ensures g.status == ClassifyGroup(ToSet(LowerAll(files)), allExpected)
    ensures g.missingFiles == allExpected - ToSet(LowerAll(files))
  {
    hide Previews;
    var previews := PreviewPaths(paths, CameraOf(base), CounterOf(base));
    var all := set x, name | x in previews && name in previews[x] :: Lower(name);
    var actual := ToSet(LowerAll(files));
    allExpected := all;
    g := ImageGroup(base, files, ClassifyGroup(actual, all), all - actual);
  }

  lemma SlashFreeNames(files: seq<string>)
    requires forall f :: f in files ==> SLASH !in f
    ensures LowerAll(files) == ActualNames(files)
  {
    forall i | 0 <= i < |files| ensures LowerAll(files)[i] == ActualNames(files)[i] {
      assert files[i] in files;
      BaseNameOfPlainName(files[i]);
    }
  }

  /** A CONSISTENT group has every file that any non-empty termination type expects. */
  lemma ConsistentGroupMissesNothing(paths: seq<Path>, base: string, files: seq<string>, all: set<string>, path: Path)
    requires IsAllExpected(paths, base, all)
    requires ClassifyGroup(ToSet(LowerAll(files)), all) == GroupConsistent
    requires path in paths && path != [] && path[|path| - 1].EndStep? && path[|path| - 1].termType != ""
    requires forall f :: f in files ==> SLASH !in f
    ensures forall name :: name in Expected(path, base, "") ==> Lower(name) in ActualNames(files)
  {
    hide Expected;
    SlashFreeNames(files);
    forall name | name in Expected(path, base, "") ensures Lower(name) in ActualNames(files) {
      var i :| 0 <= i < |paths| && paths[i] == path;
      assert Previews(paths, base, path[|path| - 1].termType, name);
      assert Lower(name) in all;
    }
  }

  /** The path with most matched files, when none misses any, expects a file as soon as one of them does. */
  lemma BestExpectsSomething(paths: seq<Path>, base: string, actual: seq<string>, k: nat, j: nat)
    requires FirstBest(paths, base, "", actual, k) && j < |paths|
    requires Expected(paths[j], base, "") != []
    requires forall name :: name in Expected(paths[j], base, "") ==> Lower(name) in actual
    ensures Expected(paths[k], base, "") != []
  {
    hide Expected, SortedSet;
    var c, b := Assess(paths[j], base, "", actual), Assess(paths[k], base, "", actual);
    assert !Better(c, b);
    var name := Expected(paths[j], base, "")[0];
    var low := LowerAll(Expected(paths[j], base, ""));
    assert low[0] in ToSet(actual) * ToSet(low);
    assert c.matched > 0;
    MatchNeedsExpectation(paths[k], base, actual);
  }

  lemma MatchNeedsExpectation(path: Path, base: string, actual: seq<string>)
    ensures Assess(path, base, "", actual).matched > 0 ==> Expected(path, base, "") != []
  {
    hide Expected, SortedSet;
    var low := LowerAll(Expected(path, base, ""));
    assert low == [] ==> ToSet(actual) * ToSet(low) == {};
  }

  lemma BestIsReady(paths: seq<Path>, base: string, actual: seq<string>, k: nat, j: nat)
    requires FirstBest(paths, base, "", actual, k) && j < |paths|
    requires Expected(paths[j], base, "") != []
    requires forall name :: name in Expected(paths[j], base, "") ==> Lower(name) in actual
    requires forall name :: name in Expected(paths[k], base, "") ==> Lower(name) in actual
    ensures Assess(paths[k], base, "", actual).status.Ready()
  {
    hide Expected, Better, SortedSet;
    BestExpectsSomething(paths, base, actual, k, j);
    ReadyExactly(paths[k], base, "", actual);
  }

  /** Which path a best match describes. */
  lemma BestMatchIndex(m: TerminationMatch, paths: seq<Path>, image: SpecificImage) returns (k: nat)
    requires IsBestMatch(m, paths, image)
    ensures k < |paths| && paths[k] in paths
    ensures var base, actual := image.cameraId + image.counter, ActualNames(image.files);
            && FirstBest(paths, base, image.suffix, actual, k)
            && m == MatchOf(m.terminationType, Assess(paths[k], base, image.suffix, actual))
  {
    hide Assess;
    var base, actual := image.cameraId + image.counter, ActualNames(image.files);
    k :| FirstBest(paths, base, image.suffix, actual, k) &&
         m == MatchOf(m.terminationType, Assess(paths[k], base, image.suffix, actual));
  }

  /** The bulk verdict CONSISTENT is never better than what the per-image validator finds:
      every non-empty termination type with a path that expects a file is archival-ready. */
  lemma BulkRefinesPerImage(paths: seq<Path>, image: SpecificImage, all: set<string>, m: TerminationMatch, path: Path)
    requires |image.cameraId| == 4 && |image.counter| == 4 && image.suffix == ""
    requires forall f :: f in image.files ==> SLASH !in f
    requires var base := image.cameraId + image.counter;
             IsAllExpected(paths, CameraOf(base) + CounterOf(base), all)
    requires ClassifyGroup(ToSet(LowerAll(image.files)), all) == GroupConsistent
    requires m.terminationType != "" && IsBestMatch(m, PathsTo(paths, m.terminationType), image)
    requires path in PathsTo(paths, m.terminationType) && Expected(path, image.cameraId + image.counter, "") != []
    ensures m.isArchivalReady
  {
    hide Expected, FirstBest, IsAllExpected, ClassifyGroup, Assess, ActualNames, LowerAll, Status.Ready;
    var base, actual := image.cameraId + image.counter, ActualNames(image.files);
    assert CameraOf(base) + CounterOf(base) == base;
    var own := PathsTo(paths, m.terminationType);
    var k := BestMatchIndex(m, own, image);
    var j: nat :| 0 <= j < |own| && own[j] == path;
    ConsistentGroupMissesNothing(paths, base, image.files, all, path);
    ConsistentGroupMissesNothing(paths, base, image.files, all, own[k]);
    BestIsReady(own, base, actual, k, j);
  }
}
