/** Which paths are intercepted: the include and exclude lists are combined into one table,
    sorted by descending length, and the first entry that a path starts with decides. */
module PathConfig {

  datatype PathEntry = PathEntry(path: string, doInclude: bool)

  predicate OccursAt(s: string, sub: string, i: nat) {
    i + |sub| <= |s| && s[i..i + |sub|] == sub
  }

  /** std::string::find: the first position at or after i where sub occurs, or -1 (npos). */
  function Find(s: string, sub: string, i: nat): (r: int)
    ensures r == -1 || (i <= r && OccursAt(s, sub, r))
    ensures forall k :: i <= k && (r == -1 || k < r) ==> !OccursAt(s, sub, k)
    decreases |s| - i
  {
    if i + |sub| > |s| then -1
    else if OccursAt(s, sub, i) then i
    else Find(s, sub, i + 1)
  }

  /** Finding an entry at position 0 is having it as a textual prefix. */
  lemma FoundAtZeroIffPrefix(s: string, sub: string)
    ensures Find(s, sub, 0) == 0 <==> sub <= s
  {
    assert sub <= s <==> OccursAt(s, sub, 0);
  }

  /** The flag of the first entry that path starts with, false if there is none. */
  function FirstMatch(table: seq<PathEntry>, path: string): bool {
    if table == [] then false
    else if Find(path, table[0].path, 0) == 0 then table[0].doInclude
    else FirstMatch(table[1..], path)
  }

  predicate Descending(table: seq<PathEntry>) {
    forall i, k :: 0 <= i < k < |table| ==> |table[i].path| >= |table[k].path|
  }

  function Tagged(paths: seq<string>, doInclude: bool): seq<PathEntry> {
    if paths == [] then [] else [PathEntry(paths[0], doInclude)] + Tagged(paths[1..], doInclude)
  }

  function Combined(included: seq<string>, excluded: seq<string>): seq<PathEntry> {
    Tagged(included, true) + Tagged(excluded, false)
  }

  /** A table that a configuration can lead to. Entries of equal length may stand in any order:
      the sort is not stable. */
  predicate TableFor(table: seq<PathEntry>, included: seq<string>, excluded: seq<string>) {
    Descending(table) && multiset(table) == multiset(Combined(included, excluded))
  }

  // ----- the configuration manager -----

  predicate LongestAt(s: seq<PathEntry>, i: int) {
    0 <= i < |s| && forall k :: 0 <= k < |s| ==> |s[k].path| <= |s[i].path|
  }

  ghost predicate NoLonger(table: seq<PathEntry>, rest: seq<PathEntry>) {
    forall i, k :: 0 <= i < |table| && 0 <= k < |rest| ==> |table[i].path| >= |rest[k].path|
  }

  /** A sort that is free to order ties as it likes: it picks any longest remaining entry. */
  method SortByLength(entries: seq<PathEntry>) returns (table: seq<PathEntry>)
    ensures Descending(table) && multiset(table) == multiset(entries)
  {
    table := [];
    var rest := entries;
    while rest != []
      invariant Descending(table) && NoLonger(table, rest)
      invariant multiset(table) + multiset(rest) == multiset(entries)
      decreases |rest|
    {
      LongestExists(rest);
      var i :| 0 <= i < |rest| && LongestAt(rest, i);
      RemoveOne(rest, i);
      PickOne(table, rest, i);
      table := table + [rest[i]];
      rest := rest[..i] + rest[i + 1..];
    }
  }

  lemma PickOne(table: seq<PathEntry>, rest: seq<PathEntry>, i: nat)
    requires Descending(table) && NoLonger(table, rest) && LongestAt(rest, i)
    ensures Descending(table + [rest[i]])
    ensures NoLonger(table + [rest[i]], rest[..i] + rest[i + 1..])
  {
    var less := rest[..i] + rest[i + 1..];
    assert forall k :: 0 <= k < |less| ==> less[k] == rest[if k < i then k else k + 1];
  }

  lemma {:induction false} LongestExists(s: seq<PathEntry>)
    requires s != []
    ensures exists i :: 0 <= i < |s| && LongestAt(s, i)
  {
    var n := |s| - 1;
    if n == 0 {
      assert LongestAt(s, 0);
    } else {
      LongestExists(s[..n]);
      var i :| 0 <= i < n && LongestAt(s[..n], i);
      assert forall k :: 0 <= k < n ==> s[..n][k] == s[k];
      if |s[n].path| > |s[i].path| {
        assert LongestAt(s, n);
      } else {
        assert LongestAt(s, i);
      }
    }
  }

  lemma RemoveOne(s: seq<PathEntry>, i: nat)
    requires i < |s|
    ensures multiset(s) == multiset([s[i]]) + multiset(s[..i] + s[i + 1..])
  {
    assert s == s[..i] + [s[i]] + s[i + 1..];
  }

  /** The table without a configuration. */
  const DEFAULT_TABLE := [PathEntry("/tmp", true), PathEntry("/", false)]

  class ConfigurationManager {
    var pathEntries: seq<PathEntry>

    constructor ()
      ensures pathEntries == []
    {
      pathEntries := [];
    }

    method LoadDefault()
      modifies this
      ensures pathEntries == DEFAULT_TABLE
    {
      pathEntries := [];
      pathEntries := pathEntries + [PathEntry("/tmp", true)];
      pathEntries := pathEntries + [PathEntry("/", false)];
    }

    /** ParseYAML, on paths that are expanded and absolute already. */
    method ParseYaml(includePaths: seq<string>, excludePaths: seq<string>)
      modifies this
      ensures TableFor(pathEntries, includePaths, excludePaths)
    {
      pathEntries := [];
      for i := 0 to |includePaths|
        invariant pathEntries == Tagged(includePaths[..i], true)
      {
        TaggedAppend(includePaths[..i], includePaths[i], true);
        assert includePaths[..i + 1] == includePaths[..i] + [includePaths[i]];
        pathEntries := pathEntries + [PathEntry(includePaths[i], true)];
      }
      assert includePaths[..|includePaths|] == includePaths;
      for i := 0 to |excludePaths|
        invariant pathEntries == Tagged(includePaths, true) + Tagged(excludePaths[..i], false)
      {
        TaggedAppend(excludePaths[..i], excludePaths[i], false);
        assert excludePaths[..i + 1] == excludePaths[..i] + [excludePaths[i]];
        pathEntries := pathEntries + [PathEntry(excludePaths[i], false)];
      }
      assert excludePaths[..|excludePaths|] == excludePaths;
      pathEntries := SortByLength(pathEntries);
    }

    method ShouldIntercept(absolutePath: string) returns (r: bool)
      ensures r == FirstMatch(pathEntries, absolutePath)
    {
      for i := 0 to |pathEntries|
        invariant FirstMatch(pathEntries, absolutePath) == FirstMatch(pathEntries[i..], absolutePath)
      {
        if Find(absolutePath, pathEntries[i].path, 0) == 0 {
          return pathEntries[i].doInclude;
        }
      }
      return false;
    }
  }

  lemma {:induction false} TaggedAppend(paths: seq<string>, p: string, doInclude: bool)
    ensures Tagged(paths + [p], doInclude) == Tagged(paths, doInclude) + [PathEntry(p, doInclude)]
  {
    if paths != [] {
      assert (paths + [p])[1..] == paths[1..] + [p];
      TaggedAppend(paths[1..], p, doInclude);
    } else {
      assert paths + [p] == [p];
    }
  }

  // ----- the longest prefix decides -----

  /** e prefixes path and no entry that does is longer. */
  ghost predicate Longest(table: seq<PathEntry>, path: string, e: PathEntry) {
    e in table && e.path <= path && forall f :: f in table && f.path <= path ==> |f.path| <= |e.path|
  }

  /** On a sorted table the first match is a longest prefix, and without a prefix nothing is intercepted. */
  lemma {:induction false} FirstMatchIsLongest(table: seq<PathEntry>, path: string)
    requires Descending(table)
    ensures (exists e :: Longest(table, path, e) && e.doInclude == FirstMatch(table, path))
      || (!FirstMatch(table, path) && forall e :: e in table ==> !(e.path <= path))
  {
    if table != [] {
      var head, rest := table[0], table[1..];
      FoundAtZeroIffPrefix(path, head.path);
      assert table == [head] + rest;
      if head.path <= path {
        forall f | f in table ensures |f.path| <= |head.path| {
          var k :| 0 <= k < |table| && table[k] == f;
        }
        assert Longest(table, path, head);
      } else {
        assert Descending(rest);
        FirstMatchIsLongest(rest, path);
        if e :| Longest(rest, path, e) && e.doInclude == FirstMatch(rest, path) {
          assert Longest(table, path, e);
        }
      }
    }
  }

  /** Longest prefixes of one path are the same path; they can differ in the flag alone. */
  lemma LongestAgree(table: seq<PathEntry>, path: string, e: PathEntry, f: PathEntry)
    requires Longest(table, path, e) && Longest(table, path, f)
    ensures e.path == f.path
  {
    assert e.path == path[..|e.path|] && f.path == path[..|f.path|];
  }

  /** The answer is the flag of the longest prefix, whenever that path has one flag. */
  lemma FlagOfLongest(table: seq<PathEntry>, path: string, e: PathEntry)
    requires Descending(table) && Longest(table, path, e)
    requires PathEntry(e.path, !e.doInclude) !in table
    ensures FirstMatch(table, path) == e.doInclude
  {
    FirstMatchIsLongest(table, path);
    if f :| Longest(table, path, f) && f.doInclude == FirstMatch(table, path) {
      LongestAgree(table, path, e, f);
    }
  }

  lemma {:induction false} TaggedHas(paths: seq<string>, doInclude: bool, e: PathEntry)
    ensures multiset(Tagged(paths, doInclude))[e] == if e.doInclude == doInclude then multiset(paths)[e.path] else 0
  {
    if paths != [] {
      TaggedHas(paths[1..], doInclude, e);
      assert paths == [paths[0]] + paths[1..];
    }
  }

  lemma CombinedHas(included: seq<string>, excluded: seq<string>, e: PathEntry)
    ensures multiset(Combined(included, excluded))[e]
      == if e.doInclude then multiset(included)[e.path] else multiset(excluded)[e.path]
  {
    TaggedHas(included, true, e);
    TaggedHas(excluded, false, e);
  }

  lemma TableHas(table: seq<PathEntry>, included: seq<string>, excluded: seq<string>, e: PathEntry)
    requires TableFor(table, included, excluded)
    ensures e in table <==> if e.doInclude then e.path in included else e.path in excluded
  {
    CombinedHas(included, excluded, e);
    assert e in table <==> e in multiset(table);
    assert e.path in included <==> e.path in multiset(included);
    assert e.path in excluded <==> e.path in multiset(excluded);
  }

  /** One path is both included and excluded. */
  ghost predicate Conflict(included: seq<string>, excluded: seq<string>) {
    exists p :: p in included && p in excluded
  }

  /** Some included prefix of path beats every excluded one. */
  ghost predicate IncludedLonger(included: seq<string>, excluded: seq<string>, path: string) {
    exists p :: p in included && p <= path && forall q :: q in excluded && q <= path ==> |q| < |p|
  }

  /** An included longest prefix beats every excluded one. */
  lemma LongestIncludedWins(table: seq<PathEntry>, included: seq<string>, excluded: seq<string>, path: string, e: PathEntry)
    requires TableFor(table, included, excluded) && !Conflict(included, excluded)
    requires Longest(table, path, e) && e.doInclude
    ensures IncludedLonger(included, excluded, path)
  {
    TableHas(table, included, excluded, e);
    hide TableFor;
    forall q | q in excluded && q <= path ensures |q| < |e.path| {
      TableHas(table, included, excluded, PathEntry(q, false));
      assert q == path[..|q|] && e.path == path[..|e.path|];
    }
  }

  /** An included prefix that beats every excluded one is found. */
  lemma IncludedLongerWins(table: seq<PathEntry>, included: seq<string>, excluded: seq<string>, path: string, p: string)
    requires TableFor(table, included, excluded) && p in included && p <= path
    requires forall q :: q in excluded && q <= path ==> |q| < |p|
    ensures FirstMatch(table, path)
  {
    FirstMatchIsLongest(table, path);
    TableHas(table, included, excluded, PathEntry(p, true));
    hide TableFor, FirstMatch;
    if e :| Longest(table, path, e) && e.doInclude == FirstMatch(table, path) {
      TableHas(table, included, excluded, e);
    }
  }

  /** What a configuration means, in terms of its two lists alone: a path is intercepted exactly
      when some included prefix of it is longer than every excluded one. */
  lemma InterceptsLongestIncluded(table: seq<PathEntry>, included: seq<string>, excluded: seq<string>, path: string)
    requires TableFor(table, included, excluded) && !Conflict(included, excluded)
    ensures FirstMatch(table, path) <==> IncludedLonger(included, excluded, path)
  {
    FirstMatchIsLongest(table, path);
    hide TableFor, FirstMatch, Longest;
    if FirstMatch(table, path) {
      var e :| Longest(table, path, e) && e.doInclude == FirstMatch(table, path);
      LongestIncludedWins(table, included, excluded, path, e);
    }
    if p :| p in included && p <= path && forall q :: q in excluded && q <= path ==> |q| < |p| {
      IncludedLongerWins(table, included, excluded, path, p);
    }
  }

  // ----- order does not matter, unless a path is both included and excluded -----

  /** No two tables that a configuration can lead to ever answer differently. */
  ghost predicate OrderIrrelevant(included: seq<string>, excluded: seq<string>) {
    forall s, t, path :: TableFor(s, included, excluded) && TableFor(t, included, excluded) ==>
      FirstMatch(s, path) == FirstMatch(t, path)
  }

  lemma OrderIrrelevantIffNoConflict(included: seq<string>, excluded: seq<string>)
    ensures OrderIrrelevant(included, excluded) <==> !Conflict(included, excluded)
  {
    if !Conflict(included, excluded) {
      forall s, t, path | TableFor(s, included, excluded) && TableFor(t, included, excluded)
        ensures FirstMatch(s, path) == FirstMatch(t, path)
      {
        InterceptsLongestIncluded(s, included, excluded, path);
        InterceptsLongestIncluded(t, included, excluded, path);
      }
    } else {
      var p :| p in included && p in excluded;
      var s := TableLedBy(included, excluded, PathEntry(p, true));
      var t := TableLedBy(included, excluded, PathEntry(p, false));
      assert FirstMatch(s, p) != FirstMatch(t, p);
    }
  }

  /** Reordering the two lists leads to the same tables. */
  lemma ReorderedSameTables(included: seq<string>, excluded: seq<string>, i2: seq<string>, e2: seq<string>,
                            table: seq<PathEntry>)
    requires multiset(included) == multiset(i2) && multiset(excluded) == multiset(e2)
    ensures TableFor(table, included, excluded) <==> TableFor(table, i2, e2)
  {
    forall e ensures multiset(Combined(included, excluded))[e] == multiset(Combined(i2, e2))[e] {
      CombinedHas(included, excluded, e);
      CombinedHas(i2, e2, e);
    }
    assert multiset(Combined(included, excluded)) == multiset(Combined(i2, e2)) by {
      hide *;
    }
  }

  /** Puts e before the first entry that is not longer. */
  function InsertFirst(e: PathEntry, table: seq<PathEntry>): seq<PathEntry> {
    if table == [] || |table[0].path| <= |e.path| then [e] + table
    else [table[0]] + InsertFirst(e, table[1..])
  }

  lemma {:induction false} InsertFirstSorted(e: PathEntry, table: seq<PathEntry>)
    requires Descending(table)
    ensures Descending(InsertFirst(e, table))
    ensures multiset(InsertFirst(e, table)) == multiset([e]) + multiset(table)
  {
    if table == [] || |table[0].path| <= |e.path| {
    } else {
      var head, rest := table[0], table[1..];
      assert table == [head] + rest;
      assert Descending(rest);
      InsertFirstSorted(e, rest);
      assert InsertFirst(e, table) == [head] + InsertFirst(e, rest);
      HeadStays(head, e, rest, InsertFirst(e, rest));
      hide InsertFirst, Descending;
    }
  }

  /** The inserted entry decides its own path. */
  lemma {:induction false} InsertFirstDecides(e: PathEntry, table: seq<PathEntry>)
    ensures FirstMatch(InsertFirst(e, table), e.path) == e.doInclude
  {
    if table == [] || |table[0].path| <= |e.path| {
      FoundAtZeroIffPrefix(e.path, e.path);
    } else {
      InsertFirstDecides(e, table[1..]);
      FoundAtZeroIffPrefix(e.path, table[0].path);
      var r := InsertFirst(e, table[1..]);
      assert InsertFirst(e, table) == [table[0]] + r && ([table[0]] + r)[1..] == r;
      hide InsertFirst, Find;
    }
  }

  lemma HeadStays(head: PathEntry, e: PathEntry, rest: seq<PathEntry>, r: seq<PathEntry>)
    requires Descending([head] + rest) && Descending(r) && |e.path| <= |head.path|
    requires multiset(r) == multiset([e]) + multiset(rest)
    ensures Descending([head] + r)
  {
    forall k | 0 <= k < |r| ensures |r[k].path| <= |head.path| {
      assert r[k] in multiset(r);
      if r[k] in rest {
        var m :| 0 <= m < |rest| && rest[m] == r[k];
        assert ([head] + rest)[0] == head && ([head] + rest)[m + 1] == rest[m];
      }
    }
  }

  /** Every list of entries can be sorted. */
  lemma {:induction false} SortedExists(entries: seq<PathEntry>) returns (table: seq<PathEntry>)
    ensures Descending(table) && multiset(table) == multiset(entries)
  {
    if entries == [] {
      table := [];
    } else {
      var rest := SortedExists(entries[1..]);
      InsertFirstSorted(entries[0], rest);
      assert entries == [entries[0]] + entries[1..];
      table := InsertFirst(entries[0], rest);
    }
  }

  /** Any entry of the configuration can be the one that decides its own path. */
  lemma TableLedBy(included: seq<string>, excluded: seq<string>, e: PathEntry) returns (table: seq<PathEntry>)
    requires if e.doInclude then e.path in included else e.path in excluded
    ensures TableFor(table, included, excluded) && FirstMatch(table, e.path) == e.doInclude
  {
    var all := Combined(included, excluded);
    CombinedHas(included, excluded, e);
    assert multiset(all)[e] > 0;
    var i :| 0 <= i < |all| && all[i] == e;
    RemoveOne(all, i);
    var rest := SortedExists(all[..i] + all[i + 1..]);
    InsertFirstSorted(e, rest);
    InsertFirstDecides(e, rest);
    table := InsertFirst(e, rest);
  }

  // ----- the default table -----

  /** Without a configuration, exactly the paths that start with the letters of /tmp are
      intercepted; /tmpfile is one of them. */
  lemma DefaultIntercepts(path: string)
    ensures FirstMatch(DEFAULT_TABLE, path) <==> "/tmp" <= path
    ensures FirstMatch(DEFAULT_TABLE, "/tmpfile")
  {
    FoundAtZeroIffPrefix(path, "/tmp");
    FoundAtZeroIffPrefix("/tmpfile", "/tmp");
    assert DEFAULT_TABLE[1..] == [PathEntry("/", false)];
    assert FirstMatch(DEFAULT_TABLE[1..], path) == false;
  }
}
