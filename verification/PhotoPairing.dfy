/** build_imagegroups with the legacy parser, and calculate_analytics. */
module PhotoPairing {
  import opened Options
  import opened Sorting
  import opened Text
  import opened FilenameParsing

  // ------------------------------------------------------------ where one file belongs

  /** The group, the separate image inside it, and the processing methods of one file. */
  datatype Key = Key(groupId: string, separateImage: string, methods: set<string>)

  /** The first all-numeric property, or "" when there is none. */
  function SeparateImage(properties: seq<string>): string {
    if properties == [] then ""
    else if AllDigits(properties[0]) then properties[0]
    else SeparateImage(properties[1..])
  }

  /** Every other property is a processing method, later all-numeric ones included. */
  function ProcessingMethods(properties: seq<string>, separateImage: string): seq<string> {
    if properties == [] then []
    else if AllDigits(properties[0]) && separateImage == "" then ProcessingMethods(properties[1..], properties[0])
    else [properties[0]] + ProcessingMethods(properties[1..], separateImage)
  }

  /** None for a file whose name does not follow the convention. */
  function KeyOf(path: string): Option<Key> {
    match ParseFilename(BaseName(path))
    case Parsed(cameraId, counter, properties, _) =>
      Some(Key(cameraId + counter, SeparateImage(properties), set m | m in ProcessingMethods(properties, "")))
    case _ => None
  }

  predicate Raises(path: string) { ParseFilename(BaseName(path)) == UnpackError }

  /** What the loop has found in the first `i` properties. */
  ghost predicate SplitSoFar(properties: seq<string>, i: nat, separateImage: string, methods: seq<string>)
    requires i <= |properties|
  {
    && (separateImage == "" ==> SeparateImage(properties[i..]) == SeparateImage(properties))
    && (separateImage != "" ==> separateImage == SeparateImage(properties))
    && methods + ProcessingMethods(properties[i..], separateImage) == ProcessingMethods(properties, "")
  }

  lemma SplitBegins(properties: seq<string>)
    ensures SplitSoFar(properties, 0, "", [])
  {
    assert properties[0..] == properties;
  }

  /** The first number becomes the separate image, everything else a method. */
  lemma SplitNext(properties: seq<string>, i: nat, separateImage: string, methods: seq<string>)
    requires i < |properties| && SplitSoFar(properties, i, separateImage, methods)
    ensures var p := properties[i];
            if AllDigits(p) && separateImage == "" then SplitSoFar(properties, i + 1, p, methods)
            else SplitSoFar(properties, i + 1, separateImage, methods + [p])
  {
    hide AllDigits;
    var p, here, onward := properties[i], properties[i..], properties[i + 1..];
    assert here[0] == p && here[1..] == onward;
    assert AllDigits(p) ==> p != "" by { DigitsAreThere(p); }
    var rest := ProcessingMethods(onward, separateImage);
    assert methods + ([p] + rest) == (methods + [p]) + rest;
  }

  lemma DigitsAreThere(p: string)
    ensures AllDigits(p) ==> p != ""
  {
  }

  lemma SplitEnds(properties: seq<string>, separateImage: string, methods: seq<string>)
    requires SplitSoFar(properties, |properties|, separateImage, methods)
    ensures separateImage == SeparateImage(properties) && methods == ProcessingMethods(properties, "")
  {
    assert properties[|properties|..] == [];
    assert methods + [] == methods;
  }

  /** The loop over one file's properties. */
  method SplitProperties(properties: seq<string>) returns (separateImage: string, methods: seq<string>)
    ensures separateImage == SeparateImage(properties)
    ensures methods == ProcessingMethods(properties, "")
  {
    hide SplitSoFar, AllDigits;
    separateImage, methods := "", [];
    SplitBegins(properties);
    for i := 0 to |properties|
      invariant SplitSoFar(properties, i, separateImage, methods)
    {
      var p := properties[i];
      SplitNext(properties, i, separateImage, methods);
      if AllDigits(p) {
        if separateImage == "" { separateImage := p; } else { methods := methods + [p]; }
      } else {
        methods := methods + [p];
      }
    }
    SplitEnds(properties, separateImage, methods);
  }

  // ------------------------------------------------------------ the expected grouping

  function Filter(files: seq<string>, keep: string -> bool): seq<string> {
    if files == [] then []
    else
      var f := files[|files| - 1];
      Filter(files[..|files| - 1], keep) + if keep(f) then [f] else []
  }

  function InBucket(groupId: string, separateImage: string): string -> bool {
    (f: string) => KeyOf(f).Some? && KeyOf(f).value.groupId == groupId && KeyOf(f).value.separateImage == separateImage
  }

  function InGroup(groupId: string): string -> bool {
    (f: string) => KeyOf(f).Some? && KeyOf(f).value.groupId == groupId
  }
  function IsInvalid(): string -> bool { (f: string) => KeyOf(f).None? }

  function GroupIds(files: seq<string>): set<string> { set f | f in files && KeyOf(f).Some? :: KeyOf(f).value.groupId }

  function Separates(files: seq<string>, groupId: string): set<string> {
    set f | f in files && InGroup(groupId)(f) :: KeyOf(f).value.separateImage
  }

  function MethodsIn(files: seq<string>, groupId: string, separateImage: string): set<string> {
    set f, m | f in files && InBucket(groupId, separateImage)(f) && m in KeyOf(f).value.methods :: m
  }

  datatype Image = Image(files: seq<string>, properties: set<string>)
  datatype Group = Group(groupId: string, cameraId: string, counter: string, images: map<string, Image>)
  datatype Grouping = Grouping(imagegroups: seq<Group>, invalidFiles: seq<string>)

  /** The state of one group while files are still being added; files stand in order of arrival. */
  function RawImages(files: seq<string>, groupId: string): map<string, Image> {
    map s | s in Separates(files, groupId) :: Image(Filter(files, InBucket(groupId, s)), MethodsIn(files, groupId, s))
  }

  function SortImages(images: map<string, Image>): map<string, Image> {
    map s | s in images :: images[s].(files := SortStrings(images[s].files))
  }

  function SortedGroup(group: Group): Group { group.(images := SortImages(group.images)) }

  function RawGroup(files: seq<string>, groupId: string): Group
    requires |groupId| == 8
  {
    Group(groupId, groupId[..4], groupId[4..], RawImages(files, groupId))
  }

  function FinishedGroup(files: seq<string>, groupId: string): Group
    requires |groupId| == 8
  {
    SortedGroup(RawGroup(files, groupId))
  }

  /** Groups by ascending id, files sorted inside each separate image, invalid files in order of arrival. */
  ghost predicate IsGroupingOf(g: Grouping, files: seq<string>) {
    var ids := SortedIds(files);
    && |g.imagegroups| == |ids|
    && (forall i :: 0 <= i < |ids| ==> |ids[i]| == 8 && g.imagegroups[i] == FinishedGroup(files, ids[i]))
    && g.invalidFiles == Filter(files, IsInvalid())
  }

  function IdList(files: seq<string>): seq<string> {
    if files == [] then []
    else
      var f := files[|files| - 1];
      IdList(files[..|files| - 1]) + if KeyOf(f).Some? then [KeyOf(f).value.groupId] else []
  }

  function SortedIds(files: seq<string>): seq<string> { SortedSet(IdList(files)) }

  // ------------------------------------------------------------ filters

  lemma FilterAppend(files: seq<string>, f: string, keep: string -> bool)
    ensures Filter(files + [f], keep) == Filter(files, keep) + if keep(f) then [f] else []
  {
    assert (files + [f])[..|files|] == files;
  }

  lemma {:induction false} FilterMultiplicity(files: seq<string>, keep: string -> bool, x: string)
    ensures multiset(Filter(files, keep))[x] == if keep(x) then multiset(files)[x] else 0
  {
    if files != [] {
      FilterMultiplicity(files[..|files| - 1], keep, x);
      assert files == files[..|files| - 1] + [files[|files| - 1]];
    }
  }

  lemma FilterIgnoresOrder(a: seq<string>, b: seq<string>, keep: string -> bool)
    requires multiset(a) == multiset(b)
    ensures multiset(Filter(a, keep)) == multiset(Filter(b, keep))
  {
    forall x ensures multiset(Filter(a, keep))[x] == multiset(Filter(b, keep))[x] {
      FilterMultiplicity(a, keep, x);
      FilterMultiplicity(b, keep, x);
    }
  }

  lemma {:induction false} IdListMembers(files: seq<string>)
    ensures forall x :: x in IdList(files) <==> x in GroupIds(files)
    ensures forall x :: x in IdList(files) ==> |x| == 8
  {
    hide KeyOf;
    if files != [] {
      var r, f := files[..|files| - 1], files[|files| - 1];
      IdListMembers(r);
      assert files == r + [f];
      GroupIdHasEight(f);
      GroupIdsAppend(r, f);
    }
  }

  lemma GroupIdsAppend(files: seq<string>, f: string)
    ensures GroupIds(files + [f]) == GroupIds(files) + if KeyOf(f).Some? then {KeyOf(f).value.groupId} else {}
  {
    hide KeyOf;
  }

  lemma SeparatesAppend(files: seq<string>, f: string, id: string)
    ensures Separates(files + [f], id) ==
            Separates(files, id) + if InGroup(id)(f) then {KeyOf(f).value.separateImage} else {}
  {
    hide KeyOf;
  }

  lemma MethodsAppend(files: seq<string>, f: string, id: string, s: string)
    ensures MethodsIn(files + [f], id, s) ==
            MethodsIn(files, id, s) + if InBucket(id, s)(f) then KeyOf(f).value.methods else {}
  {
    hide KeyOf;
    var all := files + [f];
    forall m | m in MethodsIn(files, id, s) ensures m in MethodsIn(all, id, s) {
      var g :| g in files && InBucket(id, s)(g) && m in KeyOf(g).value.methods;
      assert g in all;
    }
  }

  lemma GroupIdHasEight(f: string)
    ensures KeyOf(f).Some? ==> |KeyOf(f).value.groupId| == 8
  {
    AcceptsExactly(BaseName(f));
  }

  // ------------------------------------------------------------ main results about the grouping

  /** Conservation: every file occurs, with its multiplicity, in exactly one place: the invalid list or one bucket. */
  lemma EveryFileLandsOnce(files: seq<string>, x: string, groupId: string, separateImage: string)
    ensures multiset(Filter(files, IsInvalid()))[x] == if KeyOf(x) == None then multiset(files)[x] else 0
    ensures multiset(Filter(files, InBucket(groupId, separateImage)))[x] ==
            if KeyOf(x).Some? && KeyOf(x).value.groupId == groupId && KeyOf(x).value.separateImage == separateImage
            then multiset(files)[x] else 0
    ensures x in files && KeyOf(x).Some? ==>
              KeyOf(x).value.groupId in GroupIds(files) &&
                  KeyOf(x).value.separateImage in Separates(files, KeyOf(x).value.groupId)
  {
    hide KeyOf;
    FilterMultiplicity(files, IsInvalid(), x);
    FilterMultiplicity(files, InBucket(groupId, separateImage), x);
  }

  lemma ImagesIgnoreOrder(a: seq<string>, b: seq<string>, groupId: string)
    requires multiset(a) == multiset(b)
    ensures SortImages(RawImages(a, groupId)) == SortImages(RawImages(b, groupId))
  {
    hide KeyOf, SortStrings, Filter;
    MembersFromMultisets(a, b);
    assert Separates(a, groupId) == Separates(b, groupId);
    forall s | s in Separates(a, groupId)
      ensures SortImages(RawImages(a, groupId))[s] == SortImages(RawImages(b, groupId))[s]
    {
      FilterIgnoresOrder(a, b, InBucket(groupId, s));
      SortStringsIgnoresOrder(Filter(a, InBucket(groupId, s)), Filter(b, InBucket(groupId, s)));
      assert MethodsIn(a, groupId, s) == MethodsIn(b, groupId, s);
    }
  }

  lemma IdsIgnoreOrder(a: seq<string>, b: seq<string>)
    requires multiset(a) == multiset(b)
    ensures SortedIds(a) == SortedIds(b)
  {
    hide KeyOf, SortedSet, GroupIds;
    IdListMembers(a);
    IdListMembers(b);
    MembersFromMultisets(a, b);
    assert GroupIds(a) == GroupIds(b) by { SameMembersSameIds(a, b); }
    SameMembersSameSortedSet(IdList(a), IdList(b));
  }

  lemma SameMembersSameIds(a: seq<string>, b: seq<string>)
    requires forall x :: x in a <==> x in b
    ensures GroupIds(a) == GroupIds(b)
  {
    hide KeyOf;
  }

  lemma SameMembersSameSortedSet(a: seq<string>, b: seq<string>)
    requires forall x :: x in a <==> x in b
    ensures SortedSet(a) == SortedSet(b)
  {
    hide SortStrings;
    DistinctSameMembers(Distinct(a), Distinct(b));
    SortStringsIgnoresOrder(Distinct(a), Distinct(b));
  }

  lemma DistinctSameMembers(a: seq<string>, b: seq<string>)
    requires forall x :: x in a <==> x in b
    requires forall i, j :: 0 <= i < j < |a| ==> a[i] != a[j]
    requires forall i, j :: 0 <= i < j < |b| ==> b[i] != b[j]
    ensures multiset(a) == multiset(b)
  {
    forall x ensures multiset(a)[x] == multiset(b)[x] {
      AtMostOnce(a, x);
      AtMostOnce(b, x);
      assert x in a <==> x in multiset(a);
      assert x in b <==> x in multiset(b);
    }
  }

  /** Permuting the files gives the very same groups, and the same invalid files up to order. */
  lemma GroupingIgnoresOrder(g: Grouping, h: Grouping, a: seq<string>, b: seq<string>)
    requires multiset(a) == multiset(b) && IsGroupingOf(g, a) && IsGroupingOf(h, b)
    ensures g.imagegroups == h.imagegroups
    ensures multiset(g.invalidFiles) == multiset(h.invalidFiles)
  {
    hide SortedIds, RawImages, SortImages;
    IdsIgnoreOrder(a, b);
    FilterIgnoresOrder(a, b, IsInvalid());
    forall i | 0 <= i < |g.imagegroups| ensures g.imagegroups[i] == h.imagegroups[i] {
      ImagesIgnoreOrder(a, b, SortedIds(a)[i]);
    }
  }

  // ------------------------------------------------------------ build_imagegroups

  /** The nested dictionaries after the files so far. */
  ghost predicate GroupsSoFar(groups: map<string, Group>, files: seq<string>) {
    && groups.Keys == GroupIds(files)
    && (forall id :: id in groups ==> |id| == 8 && groups[id] == RawGroup(files, id))
  }

  function Added(image: Image, f: string, methods: set<string>): Image {
    Image(image.files + [f], image.properties + methods)
  }

  /** A file of another group, or of none, changes nothing here. */
  lemma ImagesElsewhere(files: seq<string>, f: string, id: string)
    requires !InGroup(id)(f)
    ensures RawImages(files + [f], id) == RawImages(files, id)
  {
    hide KeyOf, Separates, MethodsIn, Filter;
    SeparatesAppend(files, f, id);
    var before, after := RawImages(files, id), RawImages(files + [f], id);
    forall s | s in before ensures after[s] == before[s] {
      FilterAppend(files, f, InBucket(id, s));
      MethodsAppend(files, f, id, s);
      assert Filter(files, InBucket(id, s)) + [] == Filter(files, InBucket(id, s));
    }
  }

  lemma ImagesHere(files: seq<string>, f: string, k: Key)
    requires KeyOf(f) == Some(k)
    ensures var before := RawImages(files, k.groupId);
            RawImages(files + [f], k.groupId) ==
            before[k.separateImage :=
                     Added(if k.separateImage in before then before[k.separateImage] else Image([], {}), f, k.methods)]
  {
    hide KeyOf, Separates, MethodsIn, Filter;
    SeparatesAppend(files, f, k.groupId);
    var before, after := RawImages(files, k.groupId), RawImages(files + [f], k.groupId);
    if k.separateImage !in before { NothingThere(files, k.groupId, k.separateImage); }
    forall s | s in after
      ensures after[s] == if s == k.separateImage
                          then Added(if s in before then before[s] else Image([], {}), f, k.methods) else before[s]
    {
      FilterAppend(files, f, InBucket(k.groupId, s));
      MethodsAppend(files, f, k.groupId, s);
      assert Filter(files, InBucket(k.groupId, s)) + [] == Filter(files, InBucket(k.groupId, s));
    }
  }

  lemma NothingThere(files: seq<string>, id: string, s: string)
    requires s !in Separates(files, id)
    ensures Filter(files, InBucket(id, s)) == [] && MethodsIn(files, id, s) == {}
  {
    hide KeyOf;
    forall f | f in files ensures !InBucket(id, s)(f) {
      assert InGroup(id)(f) ==> KeyOf(f).value.separateImage in Separates(files, id);
    }
    FilterNothing(files, InBucket(id, s));
  }

  lemma {:induction false} FilterNothing(files: seq<string>, keep: string -> bool)
    requires forall f :: f in files ==> !keep(f)
    ensures Filter(files, keep) == []
  {
    if files != [] {
      assert files[|files| - 1] in files;
      assert forall f :: f in files[..|files| - 1] ==> f in files;
      FilterNothing(files[..|files| - 1], keep);
    }
  }

  lemma GroupsSkip(groups: map<string, Group>, files: seq<string>, f: string)
    requires GroupsSoFar(groups, files) && KeyOf(f) == None
    ensures GroupsSoFar(groups, files + [f])
  {
    hide KeyOf, RawImages;
    GroupIdsAppend(files, f);
    forall id ensures RawImages(files + [f], id) == RawImages(files, id) { ImagesElsewhere(files, f, id); }
  }

  lemma GroupsStep(groups: map<string, Group>, files: seq<string>, f: string, k: Key, g: Group)
    requires GroupsSoFar(groups, files) && KeyOf(f) == Some(k) && |k.groupId| == 8
    requires g == RawGroup(files + [f], k.groupId)
    ensures GroupsSoFar(groups[k.groupId := g], files + [f])
  {
    hide KeyOf, RawImages, GroupIds;
    GroupIdsAppend(files, f);
    forall id | id in groups && id != k.groupId ensures groups[id] == RawGroup(files + [f], id) {
      ImagesElsewhere(files, f, id);
    }
  }

  /** What a parse tells the grouping. */
  lemma KeyFromParse(f: string)
    ensures var parsed := ParseFilename(BaseName(f));
            && (parsed.UnpackError? <==> Raises(f))
            && (!parsed.Parsed? ==> KeyOf(f) == None)
            && (parsed.Parsed? ==>
                 && KeyOf(f) == Some(Key(parsed.cameraId + parsed.counter, SeparateImage(parsed.properties),
                                         set m | m in ProcessingMethods(parsed.properties, "")))
                 && |parsed.cameraId| == 4 && |parsed.counter| == 4)
  {
    AcceptsExactly(BaseName(f));
  }

  function UpdatedGroup(groups: map<string, Group>, cameraId: string, counter: string, separateImage: string,
                        methods: set<string>, f: string): Group
  {
    var id := cameraId + counter;
    var group := if id in groups then groups[id] else Group(id, cameraId, counter, map[]);
    var image := if separateImage in group.images then group.images[separateImage] else Image([], {});
    group.(images := group.images[separateImage := Added(image, f, methods)])
  }

  lemma UpdatedGroupIsRaw(groups: map<string, Group>, files: seq<string>, f: string, cameraId: string, counter: string,
                          separateImage: string, methods: set<string>)
    requires GroupsSoFar(groups, files) && |cameraId| == 4 && |counter| == 4
    requires KeyOf(f) == Some(Key(cameraId + counter, separateImage, methods))
    ensures UpdatedGroup(groups, cameraId, counter, separateImage, methods, f) ==
              RawGroup(files + [f], cameraId + counter)
  {
    hide KeyOf, RawImages;
    var id := cameraId + counter;
    assert id[..4] == cameraId && id[4..] == counter;
    ImagesHere(files, f, Key(id, separateImage, methods));
    if id !in groups { NoSuchGroup(files, id); }
  }

  lemma NoSuchGroup(files: seq<string>, id: string)
    requires id !in GroupIds(files)
    ensures RawImages(files, id) == map[]
  {
    hide KeyOf;
    assert Separates(files, id) == {};
  }

  lemma NoGroupsYet()
    ensures GroupsSoFar(map[], [])
  {
  }

  method BuildImagegroups(files: seq<string>) returns (r: Option<Grouping>)
    ensures r == None <==> exists f :: f in files && Raises(f)
    ensures r.Some? ==> IsGroupingOf(r.value, files)
  {
    hide KeyOf, GroupsSoFar, UpdatedGroup, RawGroup, SeparateImage, ProcessingMethods, ParseFilename, IsGroupingOf;
    hide Raises;
    var groups: map<string, Group> := map[];
    var order: seq<string> := [];
    var invalid: seq<string> := [];
    NoGroupsYet();
    for i := 0 to |files|
      invariant GroupsSoFar(groups, files[..i]) && ListsKeys(order, groups)
      invariant invalid == Filter(files[..i], IsInvalid())
      invariant forall f :: f in files[..i] ==> !Raises(f)
    {
      var f := files[i];
      assert files[..i + 1] == files[..i] + [f];
      FilterAppend(files[..i], f, IsInvalid());
      KeyFromParse(f);
      var parsed := ParseFilename(BaseName(f));
      if parsed.UnpackError? { return None; }
      if parsed.Invalid? {
        GroupsSkip(groups, files[..i], f);
        invalid := invalid + [f];
      } else {
        var separateImage, methods := SplitProperties(parsed.properties);
        var groupId := parsed.cameraId + parsed.counter;
        var added := set m | m in methods;
        var group := UpdatedGroup(groups, parsed.cameraId, parsed.counter, separateImage, added, f);
        UpdatedGroupIsRaw(groups, files[..i], f, parsed.cameraId, parsed.counter, separateImage, added);
        GroupsStep(groups, files[..i], f, Key(groupId, separateImage, added), group);
        if groupId !in groups { order := order + [groupId]; }
        groups := groups[groupId := group];
      }
    }
    assert files[..|files|] == files;
    var finished := Finish(order, groups);
    r := Some(Grouping(finished, invalid));
    GroupingMeets(files, order, groups, r.value);
  }

  /** The keys of a dictionary in the order they were inserted. */
  ghost predicate ListsKeys(order: seq<string>, groups: map<string, Group>) {
    && (forall x :: x in order <==> x in groups)
    && (forall i, j :: 0 <= i < j < |order| ==> order[i] != order[j])
  }

  /** The conversion to sorted lists. */
  method Finish(order: seq<string>, groups: map<string, Group>) returns (imagegroups: seq<Group>)
    requires ListsKeys(order, groups)
    ensures |imagegroups| == |SortStrings(order)|
    ensures forall i :: 0 <= i < |imagegroups| ==>
              SortStrings(order)[i] in groups &&
              imagegroups[i] == SortedGroup(groups[SortStrings(order)[i]])
  {
    hide SortStrings, SortImages;
    SortStringsProperties(order);
    var ids := SortStrings(order);
    imagegroups := [];
    for i := 0 to |ids|
      invariant |imagegroups| == i
      invariant forall k :: 0 <= k < i ==>
        ids[k] in groups && imagegroups[k] == SortedGroup(groups[ids[k]])
    {
      assert ids[i] in ids;
      var group := groups[ids[i]];
      imagegroups := imagegroups + [SortedGroup(group)];
    }
  }

  lemma GroupingMeets(files: seq<string>, order: seq<string>, groups: map<string, Group>, g: Grouping)
    requires GroupsSoFar(groups, files) && ListsKeys(order, groups)
    requires |g.imagegroups| == |SortStrings(order)| && g.invalidFiles == Filter(files, IsInvalid())
    requires forall i :: 0 <= i < |g.imagegroups| ==>
               SortStrings(order)[i] in groups &&
               g.imagegroups[i] == SortedGroup(groups[SortStrings(order)[i]])
    ensures IsGroupingOf(g, files)
  {
    hide KeyOf, SortStrings, SortImages, RawImages, GroupIds;
    IdListMembers(files);
    DistinctSameMembers(order, Distinct(IdList(files)));
    SortStringsIgnoresOrder(order, Distinct(IdList(files)));
    assert SortStrings(order) == SortedIds(files);
  }

  // ------------------------------------------------------------ calculate_analytics

  ghost function Sum(keys: set<string>, f: map<string, int>): int
    requires keys <= f.Keys
  {
    if keys == {} then 0
    else
      var k :| k in keys;
      f[k] + Sum(keys - {k}, f)
  }

  lemma {:induction false} SumSplit(keys: set<string>, f: map<string, int>, k: string)
    requires keys <= f.Keys && k in keys
    ensures Sum(keys, f) == f[k] + Sum(keys - {k}, f)
  {
    var j :| j in keys && Sum(keys, f) == f[j] + Sum(keys - {j}, f);
    if j != k {
      SumSplit(keys - {j}, f, k);
      SumSplit(keys - {k}, f, j);
      assert keys - {j} - {k} == keys - {k} - {j};
    }
  }

  lemma {:induction false} SumSame(keys: set<string>, f: map<string, int>, g: map<string, int>)
    requires keys <= f.Keys && keys <= g.Keys && forall k :: k in keys ==> f[k] == g[k]
    ensures Sum(keys, f) == Sum(keys, g)
  {
    if keys != {} {
      var k :| k in keys;
      SumSplit(keys, f, k);
      SumSplit(keys, g, k);
      SumSame(keys - {k}, f, g);
    }
  }

  /** `usage[name] += n` on a dictionary of counters. */
  lemma SumCount(usage: map<string, int>, name: string, n: int)
    ensures var before := if name in usage then usage[name] else 0;
            var after := usage[name := before + n];
            Sum(after.Keys, after) == Sum(usage.Keys, usage) + n
  {
    var before := if name in usage then usage[name] else 0;
    var after := usage[name := before + n];
    SumSplit(after.Keys, after, name);
    assert after.Keys - {name} == usage.Keys - {name};
    SumSame(usage.Keys - {name}, usage, after);
    if name in usage { SumSplit(usage.Keys, usage, name); } else { assert usage.Keys - {name} == usage.Keys; }
  }

  function Sizes(images: map<string, Image>): (r: map<string, int>)
    ensures r.Keys == images.Keys && forall s :: s in images ==> r[s] == |images[s].files|
  {
    map s | s in images :: |images[s].files|
  }

  ghost function FilesIn(group: Group): int { Sum(group.images.Keys, Sizes(group.images)) }

  ghost function FilesInAll(groups: seq<Group>): int {
    if groups == [] then 0 else FilesInAll(groups[..|groups| - 1]) + FilesIn(groups[|groups| - 1])
  }

  function ImagesInAll(groups: seq<Group>): int {
    if groups == [] then 0 else ImagesInAll(groups[..|groups| - 1]) + |groups[|groups| - 1].images|
  }

  /** The images of the groups whose camera resolves to `name`. */
  ghost function ImagesOfCamera(groups: seq<Group>, cameraName: string -> string, name: string): int {
    if groups == [] then 0
    else
      var g := groups[|groups| - 1];
      ImagesOfCamera(groups[..|groups| - 1], cameraName, name) +
      if cameraName(g.cameraId) == name then |g.images| else 0
  }

  datatype Analytics = Analytics(cameraUsage: map<string, int>, imageCount: int, groupCount: int, fileCount: int)

  /** The inner loop over a group's separate images, in whatever order the dictionary yields them. */
  method CountFiles(images: map<string, Image>) returns (n: int)
    ensures n == Sum(images.Keys, Sizes(images))
  {
    n := 0;
    var left := images.Keys;
    while left != {}
      invariant left <= images.Keys
      invariant n + Sum(left, Sizes(images)) == Sum(images.Keys, Sizes(images))
      decreases |left|
    {
      var s :| s in left;
      SumSplit(left, Sizes(images), s);
      n := n + |images[s].files|;
      left := left - {s};
    }
  }

  lemma NothingToSum(usage: map<string, int>)
    requires usage == map[]
    ensures Sum(usage.Keys, usage) == 0
  {
  }

  method CalculateAnalytics(groups: seq<Group>, cameraName: string -> string) returns (a: Analytics)
    ensures a.groupCount == |groups| && a.imageCount == ImagesInAll(groups) && a.fileCount == FilesInAll(groups)
    ensures Sum(a.cameraUsage.Keys, a.cameraUsage) == a.imageCount
    ensures forall name :: ImagesOfCamera(groups, cameraName, name) ==
                           if name in a.cameraUsage then a.cameraUsage[name] else 0
  {
    hide Sum, UsageSoFar, ImagesInAll, FilesInAll, FilesIn;
    var usage: map<string, int> := map[];
    var totalImages, totalFiles := 0, 0;
    NothingUsed(cameraName);
    for i := 0 to |groups|
      invariant UsageSoFar(groups[..i], cameraName, usage, totalImages, totalFiles)
    {
      var group := groups[i];
      assert groups[..i + 1] == groups[..i] + [group];
      var name := cameraName(group.cameraId);
      var n := CountFiles(group.images);
      UsageGrows(groups[..i], group, cameraName, usage, totalImages, totalFiles, n);
      usage := usage[name := (if name in usage then usage[name] else 0) + |group.images|];
      totalImages := totalImages + |group.images|;
      totalFiles := totalFiles + n;
    }
    assert groups[..|groups|] == groups;
    UsageMeans(groups, cameraName, usage, totalImages, totalFiles);
    a := Analytics(usage, totalImages, |groups|, totalFiles);
  }

  /** The counters after some groups. */
  ghost predicate UsageSoFar(groups: seq<Group>, cameraName: string -> string, usage: map<string, int>,
                             totalImages: int, totalFiles: int)
  {
    && totalImages == ImagesInAll(groups) && totalFiles == FilesInAll(groups)
    && Sum(usage.Keys, usage) == totalImages
    && forall name :: ImagesOfCamera(groups, cameraName, name) == if name in usage then usage[name] else 0
  }

  lemma NothingUsed(cameraName: string -> string)
    ensures UsageSoFar([], cameraName, map[], 0, 0)
  {
    var usage: map<string, int> := map[];
    NothingToSum(usage);
  }

  lemma UsageMeans(groups: seq<Group>, cameraName: string -> string, usage: map<string, int>, images: int, files: int)
    requires UsageSoFar(groups, cameraName, usage, images, files)
    ensures images == ImagesInAll(groups) && files == FilesInAll(groups) && Sum(usage.Keys, usage) == images
    ensures forall name :: ImagesOfCamera(groups, cameraName, name) == if name in usage then usage[name] else 0
  {
  }

  lemma UsageGrows(groups: seq<Group>, group: Group, cameraName: string -> string, usage: map<string, int>,
                   images: int, files: int, n: int)
    requires UsageSoFar(groups, cameraName, usage, images, files) && n == Sum(group.images.Keys, Sizes(group.images))
    ensures var name, k := cameraName(group.cameraId), |group.images|;
            UsageSoFar(groups + [group], cameraName, usage[name := (if name in usage then usage[name] else 0) + k],
                       images + k, files + n)
  {
    hide Sum, Sizes;
    assert (groups + [group])[..|groups|] == groups;
    SumCount(usage, cameraName(group.cameraId), |group.images|);
  }

  // ------------------------------------------------------------ nothing is lost between the two

  lemma {:induction false} FilterSplits(files: seq<string>, p: string -> bool, q: string -> bool, r: string -> bool)
    requires forall f :: f in files ==> (p(f) <==> q(f) || r(f)) && !(q(f) && r(f))
    ensures |Filter(files, p)| == |Filter(files, q)| + |Filter(files, r)|
  {
    if files != [] {
      assert files[|files| - 1] in files && forall f :: f in files[..|files| - 1] ==> f in files;
      FilterSplits(files[..|files| - 1], p, q, r);
    }
  }

  lemma {:induction false} FilterAll(files: seq<string>, p: string -> bool)
    requires forall f :: f in files ==> p(f)
    ensures Filter(files, p) == files
  {
    if files != [] {
      assert files[|files| - 1] in files && forall f :: f in files[..|files| - 1] ==> f in files;
      FilterAll(files[..|files| - 1], p);
      assert files == files[..|files| - 1] + [files[|files| - 1]];
    }
  }

  function InBuckets(id: string, separates: set<string>): string -> bool {
    (f: string) => KeyOf(f).Some? && KeyOf(f).value.groupId == id && KeyOf(f).value.separateImage in separates
  }

  lemma BucketOrRest(id: string, separates: set<string>, s: string, f: string)
    requires s in separates
    ensures InBuckets(id, separates)(f) <==> InBucket(id, s)(f) || InBuckets(id, separates - {s})(f)
    ensures !(InBucket(id, s)(f) && InBuckets(id, separates - {s})(f))
  {
    hide KeyOf;
    if KeyOf(f).Some? {
      var x := KeyOf(f).value.separateImage;
      if x == s {
        assert x in separates && x !in separates - {s};
      } else {
        assert x in separates <==> x in separates - {s};
      }
    }
  }

  /** The buckets' sizes add up. */
  lemma {:induction false} BucketsAddUp(files: seq<string>, id: string, separates: set<string>, sizes: map<string, int>)
    requires separates <= sizes.Keys
    requires forall s :: s in separates ==> sizes[s] == |Filter(files, InBucket(id, s))|
    ensures Sum(separates, sizes) == |Filter(files, InBuckets(id, separates))|
  {
    hide KeyOf;
    if separates == {} {
      FilterNothing(files, InBuckets(id, {}));
    } else {
      var s :| s in separates;
      SumSplit(separates, sizes, s);
      BucketsAddUp(files, id, separates - {s}, sizes);
      forall f | f in files
        ensures InBuckets(id, separates)(f) <==> InBucket(id, s)(f) || InBuckets(id, separates - {s})(f)
        ensures !(InBucket(id, s)(f) && InBuckets(id, separates - {s})(f))
      {
        BucketOrRest(id, separates, s, f);
      }
      FilterSplits(files, InBuckets(id, separates), InBucket(id, s), InBuckets(id, separates - {s}));
    }
  }

  lemma GroupHoldsItsFiles(files: seq<string>, id: string)
    requires |id| == 8
    ensures FilesIn(FinishedGroup(files, id)) == |Filter(files, InGroup(id))|
  {
    hide KeyOf, Sum, SortStrings, MethodsIn;
    var seps, images := Separates(files, id), FinishedGroup(files, id).images;
    forall s | s in seps ensures Sizes(images)[s] == |Filter(files, InBucket(id, s))| {
      SortStringsProperties(Filter(files, InBucket(id, s)));
    }
    BucketsAddUp(files, id, seps, Sizes(images));
    FilterSplits(files, InGroup(id), InBuckets(id, seps), Nothing());
    FilterNothing(files, Nothing());
    assert images.Keys == seps;
  }

  function Nothing(): string -> bool { (f: string) => false }

  function InGroups(ids: seq<string>): string -> bool {
    (f: string) => KeyOf(f).Some? && KeyOf(f).value.groupId in ids
  }

  lemma {:induction false} GroupsAddUp(files: seq<string>, ids: seq<string>, groups: seq<Group>)
    requires |groups| == |ids| && forall i :: 0 <= i < |ids| ==>
              |ids[i]| == 8 && groups[i] == FinishedGroup(files, ids[i])
    requires forall i, j :: 0 <= i < j < |ids| ==> ids[i] != ids[j]
    ensures FilesInAll(groups) == |Filter(files, InGroups(ids))|
  {
    hide KeyOf, FilesIn, FinishedGroup;
    if ids == [] {
      FilterNothing(files, InGroups([]));
    } else {
      var rest, id := ids[..|ids| - 1], ids[|ids| - 1];
      GroupsAddUp(files, rest, groups[..|groups| - 1]);
      GroupHoldsItsFiles(files, id);
      assert ids == rest + [id] && id !in rest;
      FilterSplits(files, InGroups(ids), InGroups(rest), InGroup(id));
    }
  }

  /** The analytics' file count and the invalid files account for every input file. */
  lemma FilesAreConserved(files: seq<string>, g: Grouping)
    requires IsGroupingOf(g, files)
    ensures FilesInAll(g.imagegroups) + |g.invalidFiles| == |files|
  {
    hide KeyOf, FinishedGroup, FilesInAll, SortedSet;
    var ids := SortedIds(files);
    IdListMembers(files);
    SortedSetMembers(IdList(files));
    GroupsAddUp(files, ids, g.imagegroups);
    forall f | f in files ensures KeyOf(f).Some? ==> KeyOf(f).value.groupId in ids {
      assert KeyOf(f).Some? ==> KeyOf(f).value.groupId in GroupIds(files);
    }
    FilterAll(files, Anything());
    FilterSplits(files, Anything(), InGroups(ids), IsInvalid());
  }

  function Anything(): string -> bool { (f: string) => true }
}
