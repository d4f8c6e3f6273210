/** merge_two_paths: the union of two paths at a Pairing node. */
module Merging {
  import opened Walks
  import opened Runs

  /** The ids on a path; a truncation marker has none. */
  ghost function IdSet(s: Path): set<NodeId> { set e | e in s && !e.Truncated? :: e.id }

  /** The entries of `s` whose id is new, each id once, given the ids already `seen`. */
  function News(s: Path, seen: set<NodeId>): Path {
    if s == [] then []
    else if s[0].Truncated? || s[0].id in seen then News(s[1..], seen)
    else [s[0]] + News(s[1..], seen + {s[0].id})
  }

  function Ids(s: Path): set<NodeId> {
    if s == [] then {} else (if s[0].Truncated? then {} else {s[0].id}) + Ids(s[1..])
  }

  function Merge(path1: Path, path2: Path): Path { path1 + News(path2, Ids(path1)) }

  lemma {:induction false} IdsAreIdSet(s: Path)
    ensures Ids(s) == IdSet(s)
  {
    if s != [] {
      IdsAreIdSet(s[1..]);
      assert s == [s[0]] + s[1..];
    }
  }

  lemma {:induction false} IdsConcat(a: Path, b: Path)
    ensures Ids(a + b) == Ids(a) + Ids(b)
  {
    if a == [] {
      assert a + b == b;
    } else {
      IdsConcat(a[1..], b);
      assert (a + b)[1..] == a[1..] + b;
    }
  }

  lemma {:induction false} NewsIds(s: Path, seen: set<NodeId>)
    ensures Ids(News(s, seen)) == Ids(s) - seen
  {
    if s != [] {
      if s[0].Truncated? || s[0].id in seen {
        NewsIds(s[1..], seen);
      } else {
        NewsIds(s[1..], seen + {s[0].id});
        assert ([s[0]] + News(s[1..], seen + {s[0].id}))[1..] == News(s[1..], seen + {s[0].id});
      }
    }
  }

  lemma {:induction false} NewsConcat(a: Path, b: Path, seen: set<NodeId>)
    ensures News(a + b, seen) == News(a, seen) + News(b, seen + Ids(a))
  {
    if a == [] {
      assert a + b == b;
      assert seen + {} == seen;
    } else {
      assert (a + b)[1..] == a[1..] + b;
      if a[0].Truncated? || a[0].id in seen {
        NewsConcat(a[1..], b, seen);
        assert seen + Ids(a) == seen + Ids(a[1..]);
      } else {
        NewsConcat(a[1..], b, seen + {a[0].id});
        assert seen + Ids(a) == seen + {a[0].id} + Ids(a[1..]);
      }
    }
  }

  /** Filtering twice is filtering once against everything seen. */
  lemma {:induction false} NewsTwice(s: Path, small: set<NodeId>, big: set<NodeId>)
    requires small <= big
    ensures News(News(s, small), big) == News(s, big)
  {
    if s != [] {
      if s[0].Truncated? || s[0].id in small {
        NewsTwice(s[1..], small, big);
      } else {
        var rest := News(s[1..], small + {s[0].id});
        assert ([s[0]] + rest)[1..] == rest;
        if s[0].id in big {
          NewsTwice(s[1..], small + {s[0].id}, big);
        } else {
          NewsTwice(s[1..], small + {s[0].id}, big + {s[0].id});
        }
      }
    }
  }

  /** The merge keeps the first path as a prefix and visits exactly the nodes either path visits. */
  lemma MergeIsUnion(path1: Path, path2: Path)
    ensures path1 <= Merge(path1, path2)
    ensures IdSet(Merge(path1, path2)) == IdSet(path1) + IdSet(path2)
  {
    IdsAreIdSet(path1);
    IdsAreIdSet(path2);
    IdsAreIdSet(Merge(path1, path2));
    IdsConcat(path1, News(path2, Ids(path1)));
    NewsIds(path2, Ids(path1));
  }

  lemma {:induction false} NewsEachOnce(s: Path, seen: set<NodeId>)
    ensures forall i :: 0 <= i < |News(s, seen)| ==> !News(s, seen)[i].Truncated? && News(s, seen)[i].id !in seen
    ensures forall i, j :: 0 <= i < j < |News(s, seen)| ==> News(s, seen)[i].id != News(s, seen)[j].id
  {
    if s != [] {
      if s[0].Truncated? || s[0].id in seen {
        NewsEachOnce(s[1..], seen);
      } else {
        NewsEachOnce(s[1..], seen + {s[0].id});
      }
    }
  }

  /** What the second path adds, it adds once, and never a node the first path visits. */
  lemma MergeAddsEachNodeOnce(path1: Path, path2: Path, i: nat)
    requires |path1| <= i < |Merge(path1, path2)|
    ensures !Merge(path1, path2)[i].Truncated?
    ensures forall k :: 0 <= k < i && !Merge(path1, path2)[k].Truncated? ==>
              Merge(path1, path2)[k].id != Merge(path1, path2)[i].id
  {
    var news := News(path2, Ids(path1));
    NewsEachOnce(path2, Ids(path1));
    IdsAreIdSet(path1);
    forall k | 0 <= k < i && !Merge(path1, path2)[k].Truncated?
      ensures Merge(path1, path2)[k].id != Merge(path1, path2)[i].id
    {
      if k < |path1| {
        assert path1[k] in path1;
      } else {
        assert news[k - |path1|].id != news[i - |path1|].id;
      }
    }
  }

  /** Merging three branches gives the same path in either grouping. */
  lemma MergeIsAssociative(a: Path, b: Path, c: Path)
    ensures Merge(Merge(a, b), c) == Merge(a, Merge(b, c))
  {
    hide News, Ids;
    var ab := News(b, Ids(a));
    IdsConcat(a, ab);
    NewsIds(b, Ids(a));
    assert Ids(Merge(a, b)) == Ids(a) + Ids(b);
    NewsConcat(b, News(c, Ids(b)), Ids(a));
    NewsTwice(c, Ids(b), Ids(a) + Ids(b));
  }

  method MergeTwoPaths(path1: Path, path2: Path) returns (merged: Path)
    ensures merged == Merge(path1, path2)
  {
    merged := path1;
    var included := Ids(path1);
    for i := 0 to |path2|
      invariant merged + News(path2[i..], included) == Merge(path1, path2)
    {
      var e := path2[i];
      assert path2[i..][1..] == path2[i + 1..];
      if !e.Truncated? && e.id !in included {
        merged := merged + [e];
        included := included + {e.id};
      }
    }
  }
}
