/** InputStateComputer and check_no_change: canonical texts whose hashes stand for a collection's state. */
module InputState {
  import opened Options
  import opened Sorting
  import opened Text

  const BAR := '|'

  datatype FileEntry = FileEntry(path: string, size: int, mtime: int)

  // ------------------------------------------------------------ the file list

  function ByPath(): (FileEntry, FileEntry) -> bool { (a: FileEntry, b: FileEntry) => StrLe(a.path, b.path) }

  function Line(f: FileEntry): string { f.path + [BAR] + Numeral(f.size) + [BAR] + Numeral(f.mtime) }

  function Lines(files: seq<FileEntry>): (r: seq<string>)
    ensures |r| == |files| && forall i :: 0 <= i < |files| ==> r[i] == Line(files[i])
  {
    seq(|files|, i requires 0 <= i < |files| => Line(files[i]))
  }

  /** The text that is hashed: one line per file, sorted by path. */
  function Content(files: seq<FileEntry>): string { Join(Lines(Sort(files, ByPath())), NEWLINE) }

  method FileListContent(files: seq<FileEntry>) returns (content: string)
    ensures content == Content(files)
  {
    var sortedFiles := Sort(files, ByPath());
    var lines: seq<string> := [];
    for i := 0 to |sortedFiles|
      invariant |lines| == i && forall k :: 0 <= k < i ==> lines[k] == Line(sortedFiles[k])
    {
      lines := lines + [Line(sortedFiles[i])];
    }
    assert lines == Lines(sortedFiles);
    content := Join(lines, NEWLINE);
  }

  lemma ByPathIsOrder()
    ensures TotalPreorder(ByPath())
  {
    StrLeIsOrder();
    forall a: FileEntry, b: FileEntry ensures ByPath()(a, b) || ByPath()(b, a) { StrLeTotal(a.path, b.path); }
    forall a: FileEntry, b: FileEntry, c: FileEntry | ByPath()(a, b) && ByPath()(b, c) ensures ByPath()(a, c) {
      StrLeTransitive(a.path, b.path, c.path);
    }
  }

  /** A path names one file: entries with the same path are the same entry. */
  ghost predicate PathsIdentify(files: seq<FileEntry>) {
    forall a, b :: a in files && b in files && a.path == b.path ==> a == b
  }

  ghost predicate NewlineFree(files: seq<FileEntry>) { forall f :: f in files ==> NEWLINE !in f.path }

  /** The text does not depend on the order in which the files were listed. */
  lemma ContentIgnoresOrder(a: seq<FileEntry>, b: seq<FileEntry>)
    requires multiset(a) == multiset(b) && PathsIdentify(a)
    ensures Content(a) == Content(b)
  {
    ByPathIsOrder();
    forall x, y | x in multiset(a) && y in multiset(a) && ByPath()(x, y) && ByPath()(y, x) ensures x == y {
      StrLeAntisymmetric(x.path, y.path);
      assert x in a && y in a;
    }
    SortIgnoresOrder(a, b, ByPath());
  }

  lemma LastBar(a: string, b: string, a': string, b': string)
    requires a + [BAR] + b == a' + [BAR] + b' && BAR !in b && BAR !in b'
    ensures a == a' && b == b'
  {
    LastIndexOf(a, BAR, b);
    LastIndexOf(a', BAR, b');
    var s := a + [BAR] + b;
    assert a == s[..|a|] && b == s[|a| + 1..];
    assert a' == s[..|a'|] && b' == s[|a'| + 1..];
  }

  /** A line can be read backwards: size and time hold no bar, so bars in the path do no harm. */
  lemma LineInjective(f: FileEntry, g: FileEntry)
    requires Line(f) == Line(g)
    ensures f == g
  {
    hide Numeral;
    LastBar(f.path + [BAR] + Numeral(f.size), Numeral(f.mtime), g.path + [BAR] + Numeral(g.size), Numeral(g.mtime));
    LastBar(f.path, Numeral(f.size), g.path, Numeral(g.size));
    NumeralInjective(f.size, g.size);
    NumeralInjective(f.mtime, g.mtime);
  }

  lemma LineHasNoNewline(f: FileEntry)
    requires NEWLINE !in f.path
    ensures NEWLINE !in Line(f) && Line(f) != ""
  {
    hide Numeral;
    assert NEWLINE !in Numeral(f.size) && NEWLINE !in Numeral(f.mtime);
  }

  lemma LinesHaveNoNewline(files: seq<FileEntry>)
    requires NewlineFree(files)
    ensures forall l :: l in Lines(files) ==> NEWLINE !in l && l != ""
  {
    hide Line;
    forall i | 0 <= i < |files| ensures NEWLINE !in Lines(files)[i] && Lines(files)[i] != "" {
      assert files[i] in files;
      LineHasNoNewline(files[i]);
    }
  }

  lemma {:induction false} LinesInjective(a: seq<FileEntry>, b: seq<FileEntry>)
    requires Lines(a) == Lines(b)
    ensures a == b
  {
    assert |a| == |Lines(a)| == |b|;
    forall i | 0 <= i < |a| ensures a[i] == b[i] {
      assert Lines(a)[i] == Lines(b)[i];
      LineInjective(a[i], b[i]);
    }
  }

  lemma JoinedLinesInjective(a: seq<string>, b: seq<string>)
    requires forall l :: l in a || l in b ==> NEWLINE !in l && l != ""
    requires Join(a, NEWLINE) == Join(b, NEWLINE)
    ensures a == b
  {
    assert a != [] ==> a[0] in a;
    assert b != [] ==> b[0] in b;
    if a != [] && b != [] {
      SplitUndoesJoin(a, NEWLINE);
      SplitUndoesJoin(b, NEWLINE);
    }
  }

  /** On newline-free paths, equal texts mean the same files with the same sizes and times, and nothing else. */
  lemma ContentInjective(a: seq<FileEntry>, b: seq<FileEntry>)
    requires NewlineFree(a) && NewlineFree(b) && Content(a) == Content(b)
    ensures multiset(a) == multiset(b)
  {
    hide Line, Join;
    var sa, sb := Sort(a, ByPath()), Sort(b, ByPath());
    SortIsPermutation(a, ByPath());
    SortIsPermutation(b, ByPath());
    MembersFromMultisets(sa, a);
    MembersFromMultisets(sb, b);
    LinesHaveNoNewline(sa);
    LinesHaveNoNewline(sb);
    JoinedLinesInjective(Lines(sa), Lines(sb));
    LinesInjective(sa, sb);
  }

  // ------------------------------------------------------------ the configuration

  const RELEVANT_KEYS := {"photo_extensions", "metadata_extensions", "require_sidecar", "camera_mappings",
                          "processing_methods", "pipeline", "pipeline_tool_config"}
  const VERSION_KEY := "_hash_version"

  /** The analysis-relevant part of a configuration, and the version of the scheme. */
  function ExtractRelevantConfig<V>(config: map<string, V>, version: V): map<string, V> {
    (map k | k in config && k in RELEVANT_KEYS :: config[k])[VERSION_KEY := version]
  }

  /** The extracted parts agree exactly when the configurations agree on every relevant key. */
  lemma ExtractionExactly<V>(c: map<string, V>, d: map<string, V>, version: V)
    ensures ExtractRelevantConfig(c, version) == ExtractRelevantConfig(d, version) <==>
            forall k :: k in RELEVANT_KEYS ==> (k in c <==> k in d) && (k in c ==> c[k] == d[k])
  {
    var x, y := ExtractRelevantConfig(c, version), ExtractRelevantConfig(d, version);
    assert VERSION_KEY !in RELEVANT_KEYS;
    if x == y {
      forall k | k in RELEVANT_KEYS ensures (k in c <==> k in d) && (k in c ==> c[k] == d[k]) {
        assert k != VERSION_KEY;
        assert k in x <==> k in c;
        assert k in y <==> k in d;
        if k in c { assert x[k] == y[k]; }
      }
    }
  }

  // ------------------------------------------------------------ the combined state

  /** An absent and an empty tool name are treated alike. */
  function StateText(tool: string, fileHash: string, configHash: string): string {
    if tool != "" then tool + [BAR] + fileHash + [BAR] + configHash else fileHash + [BAR] + configHash
  }

  lemma StateTextInjective(tool: string, fh: string, ch: string, tool': string, fh': string, ch': string)
    requires BAR !in fh && BAR !in ch && BAR !in fh' && BAR !in ch'
    requires StateText(tool, fh, ch) == StateText(tool', fh', ch')
    ensures tool == tool' && fh == fh' && ch == ch'
  {
    var rest := if tool != "" then tool + [BAR] + fh else fh;
    var rest' := if tool' != "" then tool' + [BAR] + fh' else fh';
    assert tool != "" ==> rest[|tool|] == BAR;
    assert tool' != "" ==> rest'[|tool'|] == BAR;
    LastBar(rest, ch, rest', ch');
    if tool != "" && tool' != "" { LastBar(tool, fh, tool', fh'); }
  }

  /** SHA-256 in hexadecimal, taken as free of collisions; JSON with sorted keys, taken as faithful. */
  ghost predicate CollisionFree(hash: string -> string) {
    (forall a, b :: hash(a) == hash(b) ==> a == b) && (forall a :: BAR !in hash(a) && hash(a) != "")
  }

  ghost predicate Faithful<V(!new)>(json: map<string, V> -> string) { forall c, d :: json(c) == json(d) ==> c == d }

  function StateHash<V>(hash: string -> string, json: map<string, V> -> string, version: V,
                        tool: string, files: seq<FileEntry>, config: map<string, V>): string
  {
    hash(StateText(tool, hash(Content(files)), hash(json(ExtractRelevantConfig(config, version)))))
  }

  ghost predicate SameRelevant<V>(c: map<string, V>, d: map<string, V>) {
    forall k :: k in RELEVANT_KEYS ==> (k in c <==> k in d) && (k in c ==> c[k] == d[k])
  }

  /** Two states of a file collection have the same hash exactly when tool, files and relevant configuration agree. */
  lemma StateHashExactly<V(!new)>(hash: string -> string, json: map<string, V> -> string, version: V,
                                  tool: string, files: seq<FileEntry>, config: map<string, V>,
                                  tool': string, files': seq<FileEntry>, config': map<string, V>)
    requires CollisionFree(hash) && Faithful(json)
    requires NewlineFree(files) && NewlineFree(files') && PathsIdentify(files)
    ensures StateHash(hash, json, version, tool, files, config) ==
              StateHash(hash, json, version, tool', files', config') <==>
            tool == tool' && multiset(files) == multiset(files') && SameRelevant(config, config')
  {
    hide Content, StateText;
    var c, c' := ExtractRelevantConfig(config, version), ExtractRelevantConfig(config', version);
    ExtractionExactly(config, config', version);
    if StateHash(hash, json, version, tool, files, config) == StateHash(hash, json, version, tool', files', config') {
      StateTextInjective(tool, hash(Content(files)), hash(json(c)), tool', hash(Content(files')), hash(json(c')));
      ContentInjective(files, files');
    }
    if multiset(files) == multiset(files') { ContentIgnoresOrder(files, files'); }
  }

  // ------------------------------------------------------------ the decision

  /** A previous result may be missing, or lack a hash. */
  datatype Previous = Previous(guid: string, inputStateHash: string)

  predicate CheckNoChange(previous: Option<Previous>, currentHash: string) {
    previous.Some? && previous.value.inputStateHash != "" && previous.value.inputStateHash == currentHash
  }

  /** Against a previous result recorded for a file collection, "no change" is exactly that:
      same tool, same files with sizes and times, same relevant configuration. */
  lemma NoChangeExactly<V(!new)>(hash: string -> string, json: map<string, V> -> string, version: V, guid: string,
                                 tool: string, files: seq<FileEntry>, config: map<string, V>,
                                 tool': string, files': seq<FileEntry>, config': map<string, V>)
    requires CollisionFree(hash) && Faithful(json)
    requires NewlineFree(files) && NewlineFree(files') && PathsIdentify(files)
    ensures CheckNoChange(Some(Previous(guid, StateHash(hash, json, version, tool', files', config'))),
                          StateHash(hash, json, version, tool, files, config)) <==>
            tool == tool' && multiset(files) == multiset(files') && SameRelevant(config, config')
  {
    hide StateHash, SameRelevant;
    StateHashExactly(hash, json, version, tool, files, config, tool', files', config');
    assert StateHash(hash, json, version, tool', files', config') != "" by {
      HashIsNotEmpty(hash, json, version, tool', files', config');
    }
  }

  lemma HashIsNotEmpty<V(!new)>(hash: string -> string, json: map<string, V> -> string, version: V,
                                tool: string, files: seq<FileEntry>, config: map<string, V>)
    requires CollisionFree(hash)
    ensures StateHash(hash, json, version, tool, files, config) != ""
  {
  }
}
