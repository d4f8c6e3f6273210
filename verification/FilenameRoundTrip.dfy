/** From a path through the pipeline to a file name and back to its group: three components agree on one grammar. */
module FilenameRoundTrip {
  import opened Options
  import opened Text
  import opened Runs
  import opened ExpectedFiles
  import opened FilenameParsing
  import opened PhotoPairing

  /** A method id the parser can tell from a separate-image number. */
  predicate MethodOk(m: string) { PropertyOk(m) && !AllDigits(m) }

  /** The path's method ids are in the property alphabet and not numeric, its extensions a dot and letters or digits. */
  predicate Printable(path: Path) {
    forall i :: 0 <= i < |path| ==>
      && (path[i].ProcessStep? && path[i].methodId != "" ==> MethodOk(path[i].methodId))
      && (path[i].FileStep? && path[i].extension != "" ==>
            path[i].extension[0] == '.' && ExtensionOk(path[i].extension[1..]))
  }

  predicate SuffixOk(suffix: string) { suffix == "" || AllDigits(suffix) }

  lemma {:induction false} MethodsArePrintable(path: Path, n: nat)
    requires Printable(path) && n <= |path|
    ensures forall m :: m in MethodsBefore(path, n) ==> MethodOk(m)
  {
    if n > 0 { MethodsArePrintable(path, n - 1); }
  }

  lemma {:induction false} FirstNumberIsTheSuffix(methods: seq<string>, suffix: string)
    requires SuffixOk(suffix) && forall m :: m in methods ==> !AllDigits(m)
    ensures SeparateImage(Suffixed(methods, suffix)) == suffix
    ensures ProcessingMethods(Suffixed(methods, suffix), "") == methods
  {
    hide AllDigits;
    var all := Suffixed(methods, suffix);
    if methods != [] {
      assert all[0] == methods[0];
      assert methods[0] in methods && forall m :: m in methods[1..] ==> m in methods;
      FirstNumberIsTheSuffix(methods[1..], suffix);
      assert all[1..] == Suffixed(methods[1..], suffix);
      assert [methods[0]] + methods[1..] == methods;
    } else {
      assert ProcessingMethods([], suffix) == [];
    }
  }

  lemma DigitsAreProperties(s: string)
    requires AllDigits(s)
    ensures PropertyOk(s)
  {
  }

  /** A printed name holds no slash, so it is its own base name. */
  lemma {:induction false} DashedHasNoSlash(parts: seq<string>)
    requires forall p :: p in parts ==> PropertyOk(p)
    ensures SLASH !in Dashed(parts)
  {
    if parts != [] {
      var r, x := parts[..|parts| - 1], parts[|parts| - 1];
      DashedHasNoSlash(r);
      assert PropertyOk(x);
    }
  }

  lemma PrintedNameHasNoSlash(camera: string, counter: string, parts: seq<string>, ext: string)
    requires CameraOk(camera) && CounterOk(counter) && ExtensionOk(ext)
    requires forall p :: p in parts ==> PropertyOk(p)
    ensures SLASH !in camera + counter + Dashed(parts) + "." + ext
  {
    DashedHasNoSlash(parts);
    assert SLASH !in camera && SLASH !in counter && SLASH !in ext;
  }

  /** Every file a path expects parses back to camera, counter, its methods and suffix, and extension,
      and the grouping files it under the base, with the suffix as separate image and the methods as methods. */
  lemma ExpectedNameRoundTrip(path: Path, camera: string, counter: string, suffix: string, name: string)
    requires CameraOk(camera) && CounterOk(counter) && SuffixOk(suffix) && Printable(path)
    requires name in Expected(path, camera + counter, suffix)
    ensures exists i :: 0 <= i < |path| && path[i].FileStep? &&
              var methods := MethodsBefore(path, i);
              && ParseFilename(name) == Parsed(camera, counter, Suffixed(methods, suffix), path[i].extension)
              && KeyOf(name) == Some(Key(camera + counter, suffix, set m | m in methods))
  {
    hide Expected, KeyOf, ParseFilename, Dashed, CameraOk, CounterOk;
    ExpectedExactly(path, camera + counter, suffix);
    var i :| 0 <= i < |path| && path[i].FileStep? && path[i].extension != "" &&
             name == NameAt(path, camera + counter, suffix, i);
    NameAtRoundTrip(path, camera, counter, suffix, i);
  }

  lemma NameAtRoundTrip(path: Path, camera: string, counter: string, suffix: string, i: nat)
    requires CameraOk(camera) && CounterOk(counter) && SuffixOk(suffix) && Printable(path)
    requires i < |path| && path[i].FileStep? && path[i].extension != ""
    ensures var name, methods := NameAt(path, camera + counter, suffix, i), MethodsBefore(path, i);
            && ParseFilename(name) == Parsed(camera, counter, Suffixed(methods, suffix), path[i].extension)
            && KeyOf(name) == Some(Key(camera + counter, suffix, set m | m in methods))
  {
    hide ParseFilename, Dashed, CameraOk, CounterOk, PropertyOk, BaseName;
    var methods, ext := MethodsBefore(path, i), path[i].extension[1..];
    var parts := Suffixed(methods, suffix);
    MethodsArePrintable(path, i);
    forall p | p in parts ensures PropertyOk(p) { if p == suffix && suffix != "" { DigitsAreProperties(p); } }
    assert path[i].extension == "." + ext;
    assert NameAt(path, camera + counter, suffix, i) == camera + counter + Dashed(parts) + "." + ext;
    PrintedNameParsesBack(camera, counter, parts, ext);
    PrintedNameHasNoSlash(camera, counter, parts, ext);
    BaseNameOfPlainName(NameAt(path, camera + counter, suffix, i));
    FirstNumberIsTheSuffix(methods, suffix);
  }

  /** The separate image is the printed suffix exactly when no method in front of it reads as another number. */
  lemma {:induction false} SuffixSurvivesExactly(methods: seq<string>, suffix: string)
    requires SuffixOk(suffix)
    ensures SeparateImage(Suffixed(methods, suffix)) == suffix <==>
            SeparateImage(methods) == "" || SeparateImage(methods) == suffix
  {
    var all := Suffixed(methods, suffix);
    if methods != [] {
      assert all[0] == methods[0];
      assert all[1..] == Suffixed(methods[1..], suffix);
      SuffixSurvivesExactly(methods[1..], suffix);
    }
  }
}
