/**
 * The path-list utilities of the Go front end: the default exclusion list,
 * Filter (drop every path that is an excluded entry or ends with one, or
 * with the entry's last element) and Unique (drop repeated paths, in an
 * unspecified order).
 */
module Patterns {

  /** The entries main.go appends to every exclude list. */
  const DefaultExcludes: seq<string> := [
    ".git", "node_modules", ".idea", ".cache", ".vscode", ".DS_Store",
    ".gitignore", ".gitmodules", ".gitattributes", ".travis.yml", "vendor"
  ]

  // ---------------------------------------------------------------- strings and paths

  /** strings.HasSuffix */
  predicate HasSuffix(s: string, suffix: string) {
    |suffix| <= |s| && s[|s| - |suffix|..] == suffix
  }

  /** `p` without its trailing separators. */
  function TrimTrailingSlashes(p: string): string {
    if p != [] && p[|p| - 1] == '/' then TrimTrailingSlashes(p[..|p| - 1]) else p
  }

  /** Trimming keeps a prefix that does not end with a separator, and removes only separators. */
  lemma {:induction false} TrimShape(p: string)
    ensures var r := TrimTrailingSlashes(p);
      && |r| <= |p| && r == p[..|r|]
      && (r == [] || r[|r| - 1] != '/')
      && forall i :: |r| <= i < |p| ==> p[i] == '/'
    decreases |p|
  {
    if p != [] && p[|p| - 1] == '/' {
      TrimShape(p[..|p| - 1]);
    }
  }

  /** What follows the last separator of `p`; all of `p` when it has none. */
  function AfterLastSlash(p: string): string {
    if p == [] then []
    else if p[|p| - 1] == '/' then []
    else AfterLastSlash(p[..|p| - 1]) + [p[|p| - 1]]
  }

  /** The part after the last separator is a suffix without separators, preceded by one when shorter. */
  lemma {:induction false} AfterLastSlashShape(p: string)
    ensures var r := AfterLastSlash(p);
      && |r| <= |p| && r == p[|p| - |r|..]
      && '/' !in r
      && (|r| < |p| ==> p[|p| - |r| - 1] == '/')
    decreases |p|
  {
    if p != [] && p[|p| - 1] != '/' {
      var q := p[..|p| - 1];
      AfterLastSlashShape(q);
      var r0 := AfterLastSlash(q);
      var r := r0 + [p[|p| - 1]];
      assert AfterLastSlash(p) == r;
      forall j | 0 <= j < |r|
        ensures r[j] == p[|p| - |r| + j]
      {
        if j < |r0| {
          assert r[j] == r0[j] == q[|q| - |r0| + j] == p[|p| - |r| + j];
        }
      }
    }
  }

  /**
   * filepath.Base on a system whose separator is '/': "." for the empty
   * path, "/" for a path of separators only, and otherwise the last element
   * once trailing separators are removed.
   */
  function Base(p: string): string {
    if p == [] then "."
    else
      var t := TrimTrailingSlashes(p);
      var b := AfterLastSlash(t);
      if b == [] then "/" else b
  }

  /** The last element is never empty, and is the root or a name without separators. */
  lemma BaseShape(p: string)
    ensures var r := Base(p);
      r != [] && (r == "/" || '/' !in r)
  {
    if p != [] {
      AfterLastSlashShape(TrimTrailingSlashes(p));
    }
  }

  /** The last element of a path that does not end with a separator is a suffix of it. */
  lemma BaseIsSuffix(p: string)
    requires p != [] && p[|p| - 1] != '/'
    ensures HasSuffix(p, Base(p))
  {
    assert TrimTrailingSlashes(p) == p;
    AfterLastSlashShape(p);
    var b := AfterLastSlash(p);
    assert b != [] by {
      assert b == AfterLastSlash(p[..|p| - 1]) + [p[|p| - 1]];
    }
  }

  /** A plain name is its own last element. */
  lemma BaseOfName(p: string)
    requires p != [] && '/' !in p
    ensures Base(p) == p
  {
    assert TrimTrailingSlashes(p) == p by {
      assert p[|p| - 1] != '/';
    }
    AfterLastSlashShape(p);
    var b := AfterLastSlash(p);
    if |b| < |p| {
      assert false;
    }
  }

  // ---------------------------------------------------------------- Filter

  /** `path` ends with the entry `e` or with its last element. */
  predicate EndsWith(path: string, e: string) {
    HasSuffix(path, e) || HasSuffix(path, Base(e))
  }

  /** The inner closure of Filter: `path` ends with an entry of `exc` or with that entry's last element. */
  predicate EndsWithExcluded(path: string, exc: seq<string>) {
    exists i :: 0 <= i < |exc| && EndsWith(path, exc[i])
  }

  /** Filter keeps `path` when it is not an entry of `exc` and does not end with one. */
  predicate Keep(path: string, exc: seq<string>) {
    path !in exc && !EndsWithExcluded(path, exc)
  }

  /** The paths of `list` Filter keeps, in their order. */
  function Kept(list: seq<string>, exc: seq<string>): seq<string> {
    if list == [] then []
    else
      var f := list[|list| - 1];
      Kept(list[..|list| - 1], exc) + (if Keep(f, exc) then [f] else [])
  }

  /** The positions in `list` of the paths Filter keeps. */
  function KeptAt(list: seq<string>, exc: seq<string>): seq<nat> {
    if list == [] then []
    else
      KeptAt(list[..|list| - 1], exc) + (if Keep(list[|list| - 1], exc) then [|list| - 1] else [])
  }

  /** The closure's loop over `exc`, returning at the first entry that matches. */
  method EndsWithExcludedPath(path: string, exc: seq<string>) returns (b: bool)
    ensures b <==> EndsWithExcluded(path, exc)
  {
    for i := 0 to |exc|
      invariant forall j :: 0 <= j < i ==> !EndsWith(path, exc[j])
    {
      if EndsWith(path, exc[i]) {
        return true;
      }
    }
    return false;
  }

  /** Filter(list, exc): the paths of `list` that are neither entries of `exc` nor end with one. */
  method Filter(list: seq<string>, exc: seq<string>) returns (results: seq<string>)
    ensures results == Kept(list, exc)
  {
    results := [];
    for i := 0 to |list|
      invariant results == Kept(list[..i], exc)
    {
      var f := list[i];
      var excluded := EndsWithExcludedPath(f, exc);
      if f !in exc && !excluded {
        results := results + [f];
      }
      assert list[..i + 1][..i] == list[..i];
    }
    assert list[..|list|] == list;
  }

  /** Filter's i-th path is the path of `list` at the i-th kept position. */
  lemma {:induction false} KeptAtPositions(list: seq<string>, exc: seq<string>)
    ensures |KeptAt(list, exc)| == |Kept(list, exc)| <= |list|
    ensures forall j :: 0 <= j < |KeptAt(list, exc)| ==>
      KeptAt(list, exc)[j] < |list| && Kept(list, exc)[j] == list[KeptAt(list, exc)[j]]
    decreases |list|
  {
    if list != [] {
      var init := list[..|list| - 1];
      KeptAtPositions(init, exc);
      assert forall i :: 0 <= i < |init| ==> init[i] == list[i];
    }
  }

  /** The kept positions increase strictly: Filter preserves the order of `list`. */
  lemma {:induction false} KeptAtIncreasing(list: seq<string>, exc: seq<string>)
    ensures forall j :: 0 <= j < |KeptAt(list, exc)| ==> KeptAt(list, exc)[j] < |list|
    ensures forall j, k :: 0 <= j < k < |KeptAt(list, exc)| ==> KeptAt(list, exc)[j] < KeptAt(list, exc)[k]
    decreases |list|
  {
    if list != [] {
      var n := |list|;
      var at0 := KeptAt(list[..n - 1], exc);
      KeptAtIncreasing(list[..n - 1], exc);
      var at := KeptAt(list, exc);
      if Keep(list[n - 1], exc) {
        assert at == at0 + [n - 1];
        assert forall j :: 0 <= j < |at0| ==> at[j] == at0[j] < n - 1;
      } else {
        assert at == at0;
      }
    }
  }

  /** The kept positions are exactly those of the paths Filter keeps. */
  lemma {:induction false} KeptAtComplete(list: seq<string>, exc: seq<string>)
    ensures forall i :: 0 <= i < |list| ==> (i in KeptAt(list, exc) <==> Keep(list[i], exc))
    decreases |list|
  {
    if list != [] {
      var n := |list|;
      var init := list[..n - 1];
      var at0 := KeptAt(init, exc);
      KeptAtComplete(init, exc);
      KeptAtIncreasing(init, exc);
      assert n - 1 !in at0;
      forall i | 0 <= i < n
        ensures i in KeptAt(list, exc) <==> Keep(list[i], exc)
      {
        if Keep(list[n - 1], exc) {
          assert KeptAt(list, exc) == at0 + [n - 1];
        } else {
          assert KeptAt(list, exc) == at0;
        }
        if i < n - 1 {
          assert init[i] == list[i];
        }
      }
    }
  }

  /** A path is in Filter's result iff it is in `list` and Filter keeps it. */
  lemma {:induction false} KeptMembers(list: seq<string>, exc: seq<string>, x: string)
    ensures x in Kept(list, exc) <==> x in list && Keep(x, exc)
    decreases |list|
  {
    if list != [] {
      var init := list[..|list| - 1];
      KeptMembers(init, exc, x);
      assert list == init + [list[|list| - 1]];
    }
  }

  /** Nothing Filter returns is an entry of `exc` or ends with one. */
  lemma KeptAvoidsExcluded(list: seq<string>, exc: seq<string>)
    ensures forall x :: x in Kept(list, exc) ==> x !in exc && !EndsWithExcluded(x, exc)
  {
    forall x | x in Kept(list, exc)
      ensures x !in exc && !EndsWithExcluded(x, exc)
    {
      KeptMembers(list, exc, x);
    }
  }

  /** With nothing to exclude, Filter returns `list` unchanged. */
  lemma {:induction false} KeptNoExcludes(list: seq<string>)
    ensures Kept(list, []) == list
    decreases |list|
  {
    if list != [] {
      KeptNoExcludes(list[..|list| - 1]);
      assert Keep(list[|list| - 1], []);
    }
  }

  /** Filter on a concatenation is Filter on each part, in order. */
  lemma {:induction false} KeptAppend(a: seq<string>, b: seq<string>, exc: seq<string>)
    ensures Kept(a + b, exc) == Kept(a, exc) + Kept(b, exc)
    decreases |b|
  {
    if b == [] {
      assert a + b == a;
    } else {
      var b' := b[..|b| - 1];
      assert (a + b)[..|a + b| - 1] == a + b';
      KeptAppend(a, b', exc);
    }
  }

  /** Filtering twice with the same entries changes nothing the second time. */
  lemma {:induction false} KeptIdempotent(list: seq<string>, exc: seq<string>)
    ensures Kept(Kept(list, exc), exc) == Kept(list, exc)
    decreases |list|
  {
    if list != [] {
      var init, f := list[..|list| - 1], list[|list| - 1];
      KeptIdempotent(init, exc);
      var tail := if Keep(f, exc) then [f] else [];
      KeptAppend(Kept(init, exc), tail, exc);
      if Keep(f, exc) {
        assert [f][..0] == [];
      }
    }
  }

  /**
   * The membership test is implied by the suffix test: every path ends
   * with itself, so a path that is an entry of `exc` is also caught by the
   * closure.
   */
  lemma MembershipImpliedBySuffix(path: string, exc: seq<string>)
    ensures Keep(path, exc) <==> !EndsWithExcluded(path, exc)
  {
    if path in exc {
      var i :| 0 <= i < |exc| && exc[i] == path;
      assert HasSuffix(path, exc[i]);
    }
  }

  /** An empty entry is a suffix of every path, so it makes Filter drop everything. */
  lemma {:induction false} EmptyEntryDropsAll(list: seq<string>, exc: seq<string>)
    requires "" in exc
    ensures Kept(list, exc) == []
    decreases |list|
  {
    if list != [] {
      EmptyEntryDropsAll(list[..|list| - 1], exc);
      var i :| 0 <= i < |exc| && exc[i] == "";
      assert HasSuffix(list[|list| - 1], exc[i]);
    }
  }

  /** An entry with a directory part also excludes every path ending with its last element. */
  lemma EntryExcludesItsBase(list: seq<string>, exc: seq<string>, path: string)
    requires path in list
    requires exists i :: 0 <= i < |exc| && HasSuffix(path, Base(exc[i]))
    ensures path !in Kept(list, exc)
  {
    KeptMembers(list, exc, path);
  }

  /**
   * Every path ending with one of the default entries is dropped by the
   * default list, wherever it sits: a repository's metadata directory, a
   * dependency directory, an editor's settings.
   */
  lemma DefaultDropsSuffixedPaths(list: seq<string>, path: string)
    requires exists i :: 0 <= i < |DefaultExcludes| && HasSuffix(path, DefaultExcludes[i])
    ensures path !in Kept(list, DefaultExcludes)
  {
    var i :| 0 <= i < |DefaultExcludes| && HasSuffix(path, DefaultExcludes[i]);
    assert EndsWith(path, DefaultExcludes[i]);
    KeptMembers(list, DefaultExcludes, path);
  }

  /** In particular, every path ending with ".git" is dropped by the default list. */
  lemma DefaultDropsGitDirectory(list: seq<string>, path: string)
    requires HasSuffix(path, ".git")
    ensures path !in Kept(list, DefaultExcludes)
  {
    assert DefaultExcludes[0] == ".git";
    DefaultDropsSuffixedPaths(list, path);
  }

  // ---------------------------------------------------------------- Unique

  /** The distinct paths of a list. */
  function Elems(list: seq<string>): set<string> {
    set x | x in list
  }

  /** No path occurs twice. */
  predicate NoDuplicates(list: seq<string>) {
    forall i, j :: 0 <= i < j < |list| ==> list[i] != list[j]
  }

  /** `u` holds each distinct path of `list` once, and nothing else, in any order. */
  predicate UniqueOf(u: seq<string>, list: seq<string>) {
    NoDuplicates(u) && Elems(u) == Elems(list)
  }

  /**
   * Unique(list): first the set of keys of a map from path to true, then
   * one append per key in the map's iteration order, which Go leaves
   * unspecified and is any order here.
   */
  method Unique(list: seq<string>) returns (uniqueList: seq<string>)
    ensures UniqueOf(uniqueList, list)
  {
    var uniqueMap: map<string, bool> := map[];
    for i := 0 to |list|
      invariant uniqueMap.Keys == Elems(list[..i])
      invariant forall k :: k in uniqueMap ==> uniqueMap[k]
    {
      uniqueMap := uniqueMap[list[i] := true];
      assert list[..i + 1] == list[..i] + [list[i]];
    }
    assert list[..|list|] == list;
    uniqueList := [];
    var remaining := uniqueMap.Keys;
    while remaining != {}
      invariant remaining <= uniqueMap.Keys
      invariant Elems(uniqueList) + remaining == uniqueMap.Keys
      invariant Elems(uniqueList) !! remaining
      invariant NoDuplicates(uniqueList)
      decreases |remaining|
    {
      var item :| item in remaining;
      AppendFresh(uniqueList, item);
      uniqueList := uniqueList + [item];
      remaining := remaining - {item};
    }
  }

  /** Appending a path not yet in a list without duplicates keeps it without duplicates. */
  lemma AppendFresh(u: seq<string>, x: string)
    requires NoDuplicates(u) && x !in Elems(u)
    ensures NoDuplicates(u + [x]) && Elems(u + [x]) == Elems(u) + {x}
  {
    assert forall i :: 0 <= i < |u| ==> u[i] in Elems(u);
  }

  /** A list without duplicates has as many paths as distinct paths. */
  lemma {:induction false} DistinctCount(list: seq<string>)
    ensures |Elems(list)| <= |list|
    ensures NoDuplicates(list) ==> |Elems(list)| == |list|
    decreases |list|
  {
    if list != [] {
      var init, x := list[..|list| - 1], list[|list| - 1];
      DistinctCount(init);
      assert list == init + [x];
      assert Elems(list) == Elems(init) + {x};
      if NoDuplicates(list) {
        assert x !in Elems(init);
      }
    }
  }

  /** Unique's result is never longer than its input. */
  lemma UniqueNoLonger(u: seq<string>, list: seq<string>)
    requires UniqueOf(u, list)
    ensures |u| <= |list|
  {
    DistinctCount(u);
    DistinctCount(list);
  }

  /** Any two results Unique may return for the same input are reorderings of each other. */
  lemma UniqueUpToOrder(u: seq<string>, v: seq<string>, list: seq<string>)
    requires UniqueOf(u, list) && UniqueOf(v, list)
    ensures multiset(u) == multiset(v)
  {
    forall x
      ensures multiset(u)[x] == multiset(v)[x]
    {
      OccursOnce(u, x);
      OccursOnce(v, x);
      assert x in u <==> x in Elems(u);
      assert x in v <==> x in Elems(v);
    }
  }

  /** Unique applied to its own result returns a reordering of it. */
  lemma UniqueIdempotent(u: seq<string>, v: seq<string>, list: seq<string>)
    requires UniqueOf(u, list) && UniqueOf(v, u)
    ensures multiset(v) == multiset(u) && |v| == |u|
  {
    assert UniqueOf(u, u);
    UniqueUpToOrder(v, u, u);
    assert |v| == |multiset(v)| == |multiset(u)| == |u|;
  }

  /** In a list without duplicates, each path occurs once or not at all. */
  lemma {:induction false} OccursOnce(list: seq<string>, x: string)
    requires NoDuplicates(list)
    ensures multiset(list)[x] == if x in list then 1 else 0
    decreases |list|
  {
    if list != [] {
      var init, y := list[..|list| - 1], list[|list| - 1];
      assert list == init + [y];
      OccursOnce(init, x);
      assert y !in init;
    }
  }
}
