/** generate_expected_files: the file names a path through the pipeline stands for. */
module ExpectedFiles {
  import opened Sorting
  import opened Text
  import opened Runs

  /** Each part with a dash in front. */
  function Dashed(parts: seq<string>): string {
    if parts == [] then "" else Dashed(parts[..|parts| - 1]) + "-" + parts[|parts| - 1]
  }

  lemma DashedAppend(parts: seq<string>, x: string)
    ensures Dashed(parts + [x]) == Dashed(parts) + "-" + x
  {
    assert (parts + [x])[..|parts|] == parts;
  }

  /** The non-empty method ids of the Process steps among the first `n` entries. */
  function MethodsBefore(path: Path, n: nat): seq<string>
    requires n <= |path|
  {
    if n == 0 then []
    else
      var e := path[n - 1];
      MethodsBefore(path, n - 1) + if e.ProcessStep? && e.methodId != "" then [e.methodId] else []
  }

  function Suffixed(methods: seq<string>, suffix: string): seq<string> {
    if suffix == "" then methods else methods + [suffix]
  }

  /** The name expected at the File entry `i`: base, methods so far, suffix, extension. */
  function NameAt(path: Path, base: string, suffix: string, i: nat): string
    requires i < |path| && path[i].FileStep?
  {
    base + Dashed(Suffixed(MethodsBefore(path, i), suffix)) + path[i].extension
  }

  ghost predicate Expects(path: Path, base: string, suffix: string, name: string) {
    exists i :: 0 <= i < |path| && path[i].FileStep? && path[i].extension != "" && name == NameAt(path, base, suffix, i)
  }

  function NamesUpTo(path: Path, base: string, suffix: string, n: nat): seq<string>
    requires n <= |path|
  {
    if n == 0 then []
    else
      NamesUpTo(path, base, suffix, n - 1) +
      if path[n - 1].FileStep? && path[n - 1].extension != "" then [NameAt(path, base, suffix, n - 1)] else []
  }

  function Expected(path: Path, base: string, suffix: string): seq<string> {
    SortedSet(NamesUpTo(path, base, suffix, |path|))
  }

  lemma {:induction false} NamesUpToMembers(path: Path, base: string, suffix: string, n: nat, name: string)
    requires n <= |path|
    ensures name in NamesUpTo(path, base, suffix, n) <==>
            exists i :: 0 <= i < n && path[i].FileStep? && path[i].extension != "" &&
                name == NameAt(path, base, suffix, i)
  {
    hide NameAt;
    if n > 0 { NamesUpToMembers(path, base, suffix, n - 1, name); }
  }

  /** The list holds exactly the names the File entries stand for, sorted, each once. */
  lemma ExpectedExactly(path: Path, base: string, suffix: string)
    ensures forall name :: name in Expected(path, base, suffix) <==> Expects(path, base, suffix, name)
    ensures Sorted(Expected(path, base, suffix), StrLe)
    ensures forall i, j :: 0 <= i < j < |Expected(path, base, suffix)| ==>
                           Expected(path, base, suffix)[i] != Expected(path, base, suffix)[j]
  {
    hide Expects, NamesUpTo, Sorted;
    SortedSetMembers(NamesUpTo(path, base, suffix, |path|));
    forall name ensures name in Expected(path, base, suffix) <==> Expects(path, base, suffix, name) {
      ExpectsIsListed(path, base, suffix, name);
    }
  }

  lemma ExpectsIsListed(path: Path, base: string, suffix: string, name: string)
    ensures name in NamesUpTo(path, base, suffix, |path|) <==> Expects(path, base, suffix, name)
  {
    NamesUpToMembers(path, base, suffix, |path|, name);
  }

  /** What one entry does to the accumulator. */
  lemma AccumulatorEffect(path: Path, base: string, i: nat)
    requires i < |path|
    ensures var before, after := base + Dashed(MethodsBefore(path, i)), base + Dashed(MethodsBefore(path, i + 1));
            after == if path[i].ProcessStep? && path[i].methodId != "" then before + "-" + path[i].methodId else before
  {
    hide Dashed;
    var e, methods := path[i], MethodsBefore(path, i);
    if e.ProcessStep? && e.methodId != "" {
      DashedAppend(methods, e.methodId);
      assert base + (Dashed(methods) + "-" + e.methodId) == base + Dashed(methods) + "-" + e.methodId;
    } else {
      assert methods + [] == methods;
    }
  }

  /** And to the names: one more for a File with an extension, made from the accumulator. */
  lemma NamesEffect(path: Path, base: string, suffix: string, i: nat)
    requires i < |path|
    ensures var before, after := NamesUpTo(path, base, suffix, i), NamesUpTo(path, base, suffix, i + 1);
            var accumulator := base + Dashed(MethodsBefore(path, i));
            after == if path[i].FileStep? && path[i].extension != ""
                     then before + [if suffix != "" then accumulator + "-" + suffix + path[i].extension
                                    else accumulator + path[i].extension]
                     else before
  {
    hide Dashed, MethodsBefore;
    var e, methods := path[i], MethodsBefore(path, i);
    assert NamesUpTo(path, base, suffix, i) + [] == NamesUpTo(path, base, suffix, i);
    if suffix != "" {
      DashedAppend(methods, suffix);
      assert base + (Dashed(methods) + "-" + suffix) == base + Dashed(methods) + "-" + suffix;
    }
  }

  method GenerateExpectedFiles(path: Path, base: string, suffix: string) returns (files: seq<string>)
    ensures files == Expected(path, base, suffix)
  {
    hide SortedSet, Dashed, MethodsBefore, NamesUpTo;
    var expected: seq<string> := [];
    var accumulator := base;
    assert Dashed(MethodsBefore(path, 0)) == "" && NamesUpTo(path, base, suffix, 0) == [] by {
      NothingYet(path, base, suffix);
    }
    for i := 0 to |path|
      invariant accumulator == base + Dashed(MethodsBefore(path, i))
      invariant expected == NamesUpTo(path, base, suffix, i)
    {
      var e := path[i];
      AccumulatorEffect(path, base, i);
      NamesEffect(path, base, suffix, i);
      if e.ProcessStep? {
        if e.methodId != "" { accumulator := accumulator + "-" + e.methodId; }
      } else if e.FileStep? {
        if e.extension != "" {
          if suffix != "" {
            expected := expected + [accumulator + "-" + suffix + e.extension];
          } else {
            expected := expected + [accumulator + e.extension];
          }
        }
      }
    }
    files := SortedSet(expected);
  }

  lemma NothingYet(path: Path, base: string, suffix: string)
    ensures Dashed(MethodsBefore(path, 0)) == "" && NamesUpTo(path, base, suffix, 0) == []
  {
  }

  /** Branch steps, and whatever a Branch step says, leave the expected files alone. */
  lemma {:induction false} OnlyMethodsAndExtensionsMatter(p: Path, q: Path, base: string, suffix: string, n: nat)
    requires |p| == |q| && n <= |p|
    requires forall i :: 0 <= i < |p| ==>
      && (p[i].ProcessStep? <==> q[i].ProcessStep?) && (p[i].ProcessStep? ==> p[i].methodId == q[i].methodId)
      && (p[i].FileStep? <==> q[i].FileStep?) && (p[i].FileStep? ==> p[i].extension == q[i].extension)
    ensures MethodsBefore(p, n) == MethodsBefore(q, n)
    ensures NamesUpTo(p, base, suffix, n) == NamesUpTo(q, base, suffix, n)
  {
    if n > 0 { OnlyMethodsAndExtensionsMatter(p, q, base, suffix, n - 1); }
  }
}
