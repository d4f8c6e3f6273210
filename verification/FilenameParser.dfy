/** FilenameParser: the naming convention, its validation and its parsing. */
module FilenameParsing {
  import opened Text
  import opened ExpectedFiles

  // ------------------------------------------------------------ the pieces of the pattern

  predicate CameraOk(s: string) { |s| == 4 && forall i :: 0 <= i < 4 ==> IsUpper(s[i]) || IsDigit(s[i]) }

  /** Four digits, but not 0000. */
  predicate CounterOk(s: string) { |s| == 4 && (forall i :: 0 <= i < 4 ==> IsDigit(s[i])) && s != "0000" }

  predicate PropertyChar(c: char) { IsAlnum(c) || c == ' ' || c == '_' }

  predicate PropertyOk(s: string) { s != "" && forall i :: 0 <= i < |s| ==> PropertyChar(s[i]) }

  /** `(-[A-Za-z0-9 _]+)*` */
  predicate PropertiesOk(s: string) {
    s == "" || (s[0] == DASH && forall p :: p in Split(s[1..], DASH) ==> PropertyOk(p))
  }

  predicate ExtensionOk(s: string) { s != "" && forall i :: 0 <= i < |s| ==> IsAlnum(s[i]) }

  predicate StemOk(s: string) { |s| >= 8 && CameraOk(s[..4]) && CounterOk(s[4..8]) && PropertiesOk(s[8..]) }

  /** A regular expression ending in `$` also matches in front of one final newline. */
  function Chomp(s: string): string { if s != "" && s[|s| - 1] == NEWLINE then s[..|s| - 1] else s }

  function Dot(s: string): int { LastIndex(s, '.') }

  /** `rsplit('.', 1)[0]`, or the whole name when it has no dot. */
  function Stem(f: string): string { if Dot(f) >= 0 then f[..Dot(f)] else f }

  predicate FullMatch(f: string) { Dot(f) >= 0 && StemOk(f[..Dot(f)]) && ExtensionOk(f[Dot(f) + 1..]) }

  predicate PatternMatches(f: string) { FullMatch(Chomp(f)) }

  predicate HasDoubleDash(s: string) { exists i :: 0 <= i < |s| - 1 && s[i] == DASH && s[i + 1] == DASH }

  // ------------------------------------------------------------ validate_filename and parse_filename

  /** Accepted outright when the pattern matches; otherwise each part but the extension is checked for a reason to
      refuse. */
  predicate ValidateFilename(f: string) {
    PatternMatches(f) ||
    var stem := Stem(f);
    && |stem| >= 4 && CameraOk(stem[..4])
    && |stem| >= 8 && CounterOk(stem[4..8])
    && !HasDoubleDash(stem) && stem[|stem| - 1] != DASH
    && (|stem| > 8 ==> PropertiesOk(Chomp(stem[8..])))
  }

  datatype Outcome = Parsed(cameraId: string, counter: string, properties: seq<string>, extension: string)
                   | Invalid
                   | UnpackError

  function NonEmpty(parts: seq<string>): seq<string> {
    if parts == [] then [] else (if parts[0] == "" then [] else [parts[0]]) + NonEmpty(parts[1..])
  }

  function ParseFilename(f: string): Outcome {
    if !ValidateFilename(f) then Invalid
    else if Dot(f) < 0 then UnpackError
    else
      var stem := f[..Dot(f)];
      if |stem| < 8 then Parsed(stem[..Least(|stem|, 4)], stem[Least(|stem|, 4)..], [], f[Dot(f)..])
      else Parsed(stem[..4], stem[4..8], if |stem| > 8 then NonEmpty(Split(stem[8..], DASH)) else [], f[Dot(f)..])
  }

  function Least(a: nat, b: nat): nat { if a < b then a else b }

  // ------------------------------------------------------------ dashes

  /** A dash at the end or two in a row leave an empty part behind the first. */
  lemma {:induction false} EmptyPartLater(t: string)
    requires t != "" && (t[|t| - 1] == DASH || HasDoubleDash(t))
    ensures "" in Split(t, DASH)[1..]
  {
    var rest := Split(t[1..], DASH);
    if t[0] == DASH {
      assert Split(t, DASH)[1..] == rest;
      if |t| == 1 {
      } else if t[1] == DASH {
        assert rest[0] == "";
      } else {
        DoubleDashInTail(t);
        EmptyPartLater(t[1..]);
        assert "" in rest[1..];
      }
    } else {
      DoubleDashInTail(t);
      EmptyPartLater(t[1..]);
      assert Split(t, DASH)[1..] == rest[1..];
    }
  }

  lemma DoubleDashInTail(t: string)
    requires |t| > 0 && !(|t| > 1 && t[0] == DASH && t[1] == DASH)
    ensures HasDoubleDash(t) ==> HasDoubleDash(t[1..])
    ensures t[|t| - 1] == DASH && |t| > 1 ==> t[1..][|t| - 2] == DASH
  {
    if HasDoubleDash(t) {
      var i :| 0 <= i < |t| - 1 && t[i] == DASH && t[i + 1] == DASH;
      assert t[1..][i - 1] == DASH && t[1..][i - 1 + 1] == DASH;
    }
  }

  /** Well-formed properties have neither a double nor a trailing dash, so the separate check for those decides
      nothing. */
  lemma PropertiesHaveNoStrayDash(s: string)
    requires s != "" && PropertiesOk(s)
    ensures !HasDoubleDash(s) && s[|s| - 1] != DASH
  {
    if HasDoubleDash(s) || s[|s| - 1] == DASH { StrayDashLeavesEmptyPart(s); }
  }

  lemma StrayDashLeavesEmptyPart(s: string)
    requires s != "" && s[0] == DASH && (HasDoubleDash(s) || s[|s| - 1] == DASH)
    ensures "" in Split(s[1..], DASH)
  {
    if |s| > 1 && s[1] != DASH {
      DoubleDashInTail(s);
      EmptyPartLater(s[1..]);
    } else {
      assert Split(s[1..], DASH)[0] == "";
    }
  }

  /** Exactly what is accepted: any name whose stem is well-formed, whatever follows the last dot, or with no dot at
      all. */
  lemma AcceptsExactly(f: string)
    ensures ValidateFilename(f) <==>
            var stem := Stem(f);
            |stem| >= 8 && CameraOk(stem[..4]) && CounterOk(stem[4..8]) && PropertiesOk(Chomp(stem[8..]))
  {
    assert PropertiesOk("");
    hide PropertiesOk, CameraOk, CounterOk;
    var stem := Stem(f);
    if |stem| == 8 { assert Chomp(stem[8..]) == ""; }
    if PatternMatches(f) { MatchHasGoodStem(f); }
    if |stem| >= 8 && CameraOk(stem[..4]) && CounterOk(stem[4..8]) && PropertiesOk(Chomp(stem[8..])) {
      GoodStemHasNoStrayDash(stem);
    }
  }

  lemma MatchHasGoodStem(f: string)
    requires PatternMatches(f)
    ensures StemOk(Stem(f)) && Dot(f) >= 0 && Chomp(Stem(f)[8..]) == Stem(f)[8..]
  {
    var g := Chomp(f);
    var k := Dot(g);
    assert f[k] == '.' && forall i :: k < i < |f| ==> f[i] != '.';
    assert Dot(f) == k;
    assert f[..k] == g[..k];
    var props := Stem(f)[8..];
    if props != "" {
      PropertiesHaveNoNewline(props);
    }
  }

  lemma {:induction false} PropertiesHaveNoNewline(s: string)
    requires s != "" && PropertiesOk(s)
    ensures s[|s| - 1] != NEWLINE
  {
    if |s| > 1 && s[|s| - 1] != DASH {
      var parts := Split(s[1..], DASH);
      LastCharInLastPart(s[1..]);
      assert PropertyOk(parts[|parts| - 1]);
    }
  }

  /** The last character, unless it is a dash, ends the last part. */
  lemma {:induction false} LastCharInLastPart(t: string)
    requires t != "" && t[|t| - 1] != DASH
    ensures var parts := Split(t, DASH); var last := parts[|parts| - 1]; last != "" && last[|last| - 1] == t[|t| - 1]
  {
    var rest := Split(t[1..], DASH);
    if |t| == 1 {
      assert rest == [[]];
    } else {
      LastCharInLastPart(t[1..]);
      var parts := Split(t, DASH);
      assert parts == if t[0] == DASH then [[]] + rest else [[t[0]] + rest[0]] + rest[1..];
      assert parts[|parts| - 1] == if t[0] != DASH && |rest| == 1 then [t[0]] + rest[0] else rest[|rest| - 1];
    }
  }

  lemma GoodStemHasNoStrayDash(stem: string)
    requires |stem| >= 8 && CameraOk(stem[..4]) && CounterOk(stem[4..8]) && PropertiesOk(Chomp(stem[8..]))
    ensures !HasDoubleDash(stem) && stem[|stem| - 1] != DASH
  {
    var props := stem[8..];
    forall i | 0 <= i < 8 ensures stem[i] != DASH {
      if i < 4 { assert stem[..4][i] == stem[i]; } else { assert stem[4..8][i - 4] == stem[i]; }
    }
    if Chomp(props) != "" { PropertiesHaveNoStrayDash(Chomp(props)); }
    var inner := Chomp(props);
    assert !HasDoubleDash(inner);
    forall i | 0 <= i < |stem| - 1 ensures !(stem[i] == DASH && stem[i + 1] == DASH) {
      if 0 <= i - 8 < |inner| - 1 { assert !(inner[i - 8] == DASH && inner[i - 8 + 1] == DASH); }
    }
  }

  /** parse_filename raises exactly on the names without a dot whose camera id, counter and properties are
      well-formed. */
  lemma RaisesExactly(f: string)
    ensures ParseFilename(f) == UnpackError <==>
            && '.' !in f
            && |f| >= 8 && CameraOk(f[..4]) && CounterOk(f[4..8]) && PropertiesOk(Chomp(f[8..]))
  {
    hide ValidateFilename, CameraOk, CounterOk, PropertiesOk;
    AcceptsExactly(f);
    if Dot(f) >= 0 { assert f[Dot(f)] == '.'; } else { assert '.' !in f && Stem(f) == f; }
  }

  // ------------------------------------------------------------ round trip

  lemma {:induction false} DashedIsJoined(parts: seq<string>)
    requires parts != []
    ensures Dashed(parts) == [DASH] + Join(parts, DASH)
  {
    if |parts| == 1 {
      assert parts[..0] == [];
    } else {
      var r, x := parts[..|parts| - 1], parts[|parts| - 1];
      DashedIsJoined(r);
      JoinAppend(r, x);
      assert r + [x] == parts;
    }
  }

  lemma {:induction false} JoinAppend(parts: seq<string>, x: string)
    requires parts != []
    ensures Join(parts + [x], DASH) == Join(parts, DASH) + [DASH] + x
  {
    if |parts| == 1 {
      assert (parts + [x])[1..] == [x];
    } else {
      JoinAppend(parts[1..], x);
      assert (parts + [x])[1..] == parts[1..] + [x];
    }
  }

  lemma {:induction false} NonEmptyKeepsAll(parts: seq<string>)
    requires forall p :: p in parts ==> p != ""
    ensures NonEmpty(parts) == parts
  {
    if parts != [] {
      assert parts[0] in parts && forall p :: p in parts[1..] ==> p in parts;
      NonEmptyKeepsAll(parts[1..]);
      assert parts == [parts[0]] + parts[1..];
    }
  }

  /** Printing properties and splitting them again gives them back. */
  lemma DashedParses(parts: seq<string>)
    requires forall p :: p in parts ==> PropertyOk(p)
    ensures PropertiesOk(Dashed(parts))
    ensures NonEmpty(Split(Dashed(parts), DASH)) == parts
  {
    if parts == [] {
      assert Split("", DASH) == [""];
    } else {
      var j := Join(parts, DASH);
      DashedIsJoined(parts);
      forall p | p in parts ensures DASH !in p {
        assert PropertyOk(p);
      }
      SplitUndoesJoin(parts, DASH);
      assert Dashed(parts)[1..] == j;
      SplitAtSeparator("", j, DASH);
      assert "" + [DASH] + j == Dashed(parts);
      NonEmptyKeepsAll(parts);
      assert ([""] + parts)[1..] == parts;
    }
  }

  /** A name whose stem is well-formed and that has an alphanumeric extension parses into its parts. */
  lemma StemParses(stem: string, ext: string)
    requires StemOk(stem) && ExtensionOk(ext)
    ensures ParseFilename(stem + ("." + ext)) ==
            Parsed(stem[..4], stem[4..8], if |stem| > 8 then NonEmpty(Split(stem[8..], DASH)) else [], "." + ext)
  {
    hide PropertiesOk, Split, NonEmpty, CameraOk, CounterOk, ExtensionOk;
    var f := stem + ("." + ext);
    StemAndExtension(stem, ext);
    assert PatternMatches(f);
  }

  /** Every name printed from a valid base, valid properties and an alphanumeric extension parses back to them. */
  lemma PrintedNameParsesBack(camera: string, counter: string, parts: seq<string>, ext: string)
    requires CameraOk(camera) && CounterOk(counter) && ExtensionOk(ext)
    requires forall p :: p in parts ==> PropertyOk(p)
    ensures var f := camera + counter + Dashed(parts) + "." + ext;
            ParseFilename(f) == Parsed(camera, counter, parts, "." + ext)
  {
    assert |camera| == 4 && |counter| == 4;
    hide PropertiesOk, Split, NonEmpty, CameraOk, CounterOk, Dashed, ParseFilename, ExtensionOk, PropertyOk;
    var stem := camera + counter + Dashed(parts);
    DashedParses(parts);
    assert stem[..4] == camera && stem[4..8] == counter && stem[8..] == Dashed(parts);
    StemParses(stem, ext);
    assert camera + counter + Dashed(parts) + "." + ext == stem + ("." + ext);
    if |stem| == 8 { DashedNothing(parts); }
  }

  lemma DashedNothing(parts: seq<string>)
    requires Dashed(parts) == ""
    ensures parts == []
  {
  }

  lemma StemAndExtension(stem: string, ext: string)
    requires ExtensionOk(ext)
    ensures var f := stem + ("." + ext);
            && Dot(f) == |stem| && f[..|stem|] == stem && f[|stem|..] == "." + ext
            && f[|stem| + 1..] == ext && Chomp(f) == f
  {
    var f := stem + ("." + ext);
    assert '.' !in ext;
    LastIndexOf(stem, '.', ext);
    assert f == stem + ['.'] + ext;
    assert f[|f| - 1] == ext[|ext| - 1];
  }
}
