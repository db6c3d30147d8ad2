/** What the frontier readers promise: completion, contents, and which failure wins. */
module FrontierFacts {
  import opened Outcomes
  import opened Host
  import opened Entries
  import opened Sorting
  import opened DirectoryReader
  import opened DirectoryReaderFacts
  import opened Frontier

  /** Every entry is one that readDir of some frontier path may emit. */
  predicate FromFrontier(env: Env, o: Options, paths: seq<string>, es: seq<Entry>)
  {
    forall e :: e in es ==> exists k :: 0 <= k < |paths| && Emitted(env, o, paths[k], e)
  }

  /** The entries readDir contributes for every frontier path from index `i` on, failures skipped. */
  function FrontierEntries(env: Env, paths: seq<string>, i: nat, o: Options): seq<Entry>
    requires i <= |paths|
    decreases |paths| - i
  {
    if i == |paths| then []
    else TreeEntries(env, paths[i], env.readdir(paths[i]), o) + FrontierEntries(env, paths, i + 1, o)
  }

  /** The first failure met reading the frontier paths from index `i` on, in order. */
  function FrontierFailure(env: Env, paths: seq<string>, i: nat, o: Options): Option<FsError>
    requires i <= |paths|
    decreases |paths| - i
  {
    if i == |paths| then None
    else
      var f := TreeFailure(env, paths[i], env.readdir(paths[i]), o);
      if f.Some? then f else FrontierFailure(env, paths, i + 1, o)
  }

  /** The fan-in always completes, fails only under stopOnErrors, and keeps only what readDir emitted. */
  lemma {:induction false} ReadEachShape(env: Env, paths: seq<string>, i: nat, o: Options, acc: seq<Entry>)
    requires i <= |paths| && FromFrontier(env, o, paths, acc)
    ensures ReadEachFrom(env, paths, i, o, acc) != NoCompletion
    ensures !o.stopOnErrors ==> ReadEachFrom(env, paths, i, o, acc).Ok?
    ensures ReadEachFrom(env, paths, i, o, acc).Ok? ==> FromFrontier(env, o, paths, ReadEachFrom(env, paths, i, o, acc).value)
    decreases |paths| - i
  {
    if i < |paths| {
      var p := paths[i];
      ReadDirWellShaped(env, p, env.readdir(p), o);
      var r := ReadDirSpec(env, p, env.readdir(p), o);
      if r.Ok? {
        forall e | e in acc + r.value
          ensures exists k :: 0 <= k < |paths| && Emitted(env, o, paths[k], e)
        {
          if e !in acc {
            assert Emitted(env, o, paths[i], e);
          }
        }
        ReadEachShape(env, paths, i + 1, o, acc + r.value);
      } else {
        ReadEachShape(env, paths, i + 1, o, acc);
      }
    }
  }

  /** Without stopOnErrors the fan-in returns every entry of every frontier path, as a multiset. */
  lemma {:induction false} ReadEachContents(env: Env, paths: seq<string>, i: nat, o: Options, acc: seq<Entry>)
    requires i <= |paths| && !o.stopOnErrors
    ensures ReadEachFrom(env, paths, i, o, acc).Ok?
    ensures multiset(ReadEachFrom(env, paths, i, o, acc).value) == multiset(acc + FrontierEntries(env, paths, i, o))
    decreases |paths| - i
  {
    if i == |paths| {
      assert acc + [] == acc;
    } else {
      var p := paths[i];
      ReadDirContents(env, p, env.readdir(p), o);
      var found := ReadDirSpec(env, p, env.readdir(p), o).value;
      ReadEachContents(env, paths, i + 1, o, acc + found);
      var rest := FrontierEntries(env, paths, i + 1, o);
      assert multiset(acc + found + rest) == multiset(acc) + multiset(found) + multiset(rest);
      assert multiset(acc + FrontierEntries(env, paths, i, o))
          == multiset(acc) + multiset(TreeEntries(env, p, env.readdir(p), o)) + multiset(rest);
    }
  }

  /** Under stopOnErrors the fan-in fails with the first failure along the frontier, else agrees with the read without it. */
  lemma {:induction false} ReadEachStops(env: Env, paths: seq<string>, i: nat, o: Options, acc: seq<Entry>)
    requires i <= |paths| && o.stopOnErrors
    ensures ReadEachFrom(env, paths, i, o, acc) ==
      match FrontierFailure(env, paths, i, o)
      case Some(e) => Err(e)
      case None => ReadEachFrom(env, paths, i, o.(stopOnErrors := false), acc)
    decreases |paths| - i
  {
    if i < |paths| {
      var p := paths[i];
      var o' := o.(stopOnErrors := false);
      ReadDirStops(env, p, env.readdir(p), o);
      ReadDirWellShaped(env, p, env.readdir(p), o');
      var r := ReadDirSpec(env, p, env.readdir(p), o);
      if r.Ok? {
        ReadEachStops(env, paths, i + 1, o, acc + r.value);
      } else {
        ReadEachStops(env, paths, i + 1, o, acc);
      }
    }
  }

  /**
   * readAndFilterPaths calls back exactly when the frontier is non-empty; it
   * returns, sorted, the non-recursive listing of the frontier paths; it fails
   * only under stopOnErrors, and then with the first failure along the frontier.
   */
  lemma ReadAndFilterPathsFacts(env: Env, paths: seq<string>, o: Options)
    ensures ReadAndFilterPathsSpec(env, paths, o) == NoCompletion <==> paths == []
    ensures ReadAndFilterPathsSpec(env, paths, o).Ok? ==>
      Sorted(ReadAndFilterPathsSpec(env, paths, o).value) &&
      FromFrontier(env, Clone(o).(recursive := false), paths, ReadAndFilterPathsSpec(env, paths, o).value)
    ensures paths != [] && !o.stopOnErrors ==>
      ReadAndFilterPathsSpec(env, paths, o).Ok? &&
      multiset(ReadAndFilterPathsSpec(env, paths, o).value) == multiset(FrontierEntries(env, paths, 0, Clone(o).(recursive := false)))
    ensures o.stopOnErrors ==> (ReadAndFilterPathsSpec(env, paths, o) ==
      match FrontierFailure(env, paths, 0, Clone(o).(recursive := false))
      case Some(e) => Err(e)
      case None => ReadAndFilterPathsSpec(env, paths, o.(stopOnErrors := false)))
  {
    var opt := Clone(o).(recursive := false);
    if paths != [] {
      ReadEachShape(env, paths, 0, opt, []);
      var all := ReadEachFrom(env, paths, 0, opt, []);
      if all.Ok? {
        SortKeepsFrontier(env, opt, paths, all.value);
      }
      if !o.stopOnErrors {
        ReadEachContents(env, paths, 0, opt, []);
      } else {
        ReadEachStops(env, paths, 0, opt, []);
        assert opt.(stopOnErrors := false) == Clone(o.(stopOnErrors := false)).(recursive := false);
      }
    }
  }

  lemma SortKeepsFrontier(env: Env, o: Options, paths: seq<string>, es: seq<Entry>)
    requires FromFrontier(env, o, paths, es)
    ensures Sorted(Sort(es)) && FromFrontier(env, o, paths, Sort(es))
  {
    SortSorted(es);
    forall e | e in Sort(es)
      ensures exists k :: 0 <= k < |paths| && Emitted(env, o, paths[k], e)
    {
      assert e in multiset(Sort(es));
      assert e in es;
    }
  }

  /** Each entry is kept by the pattern filter as often as it occurs, if its path matches. */
  lemma {:induction false} MatchingCount(env: Env, pattern: string, es: seq<Entry>, e: Entry)
    ensures multiset(Matching(env, pattern, es))[e] == if env.globMatch(pattern, e.path) then multiset(es)[e] else 0
  {
    if es != [] {
      assert es == [es[0]] + es[1..];
      MatchingCount(env, pattern, es[1..], e);
    }
  }

  /** The pattern filter depends only on which entries there are, not on their order. */
  lemma MatchingRespectsMultiset(env: Env, pattern: string, a: seq<Entry>, b: seq<Entry>)
    requires multiset(a) == multiset(b)
    ensures multiset(Matching(env, pattern, a)) == multiset(Matching(env, pattern, b))
  {
    forall e
      ensures multiset(Matching(env, pattern, a))[e] == multiset(Matching(env, pattern, b))[e]
    {
      MatchingCount(env, pattern, a, e);
      MatchingCount(env, pattern, b, e);
    }
  }

  /**
   * readAndFilterFiles always calls back (at once with [] for an empty
   * frontier); what it returns is sorted, lies below the frontier, and matches
   * the pattern; without stopOnErrors it is every matching entry below the
   * frontier; under stopOnErrors it fails with the first failure met.
   */
  lemma ReadAndFilterFilesFacts(env: Env, paths: seq<string>, o: Options)
    ensures paths == [] ==> ReadAndFilterFilesSpec(env, paths, o) == Ok([])
    ensures ReadAndFilterFilesSpec(env, paths, o) != NoCompletion
    ensures ReadAndFilterFilesSpec(env, paths, o).Ok? ==>
      var found := ReadAndFilterFilesSpec(env, paths, o).value;
      && Sorted(found)
      && FromFrontier(env, Clone(o).(filter := None), paths, found)
      && (o.filter.Some? ==> forall e :: e in found ==> env.globMatch(o.filter.value, e.path))
    ensures !o.stopOnErrors && o.filter.Some? ==>
      ReadAndFilterFilesSpec(env, paths, o).Ok? &&
      multiset(ReadAndFilterFilesSpec(env, paths, o).value)
        == multiset(Matching(env, o.filter.value, FrontierEntries(env, paths, 0, Clone(o).(filter := None))))
    ensures o.stopOnErrors ==> (ReadAndFilterFilesSpec(env, paths, o) ==
      match FrontierFailure(env, paths, 0, Clone(o).(filter := None))
      case Some(e) => Err(e)
      case None => ReadAndFilterFilesSpec(env, paths, o.(stopOnErrors := false)))
  {
    if paths != [] {
      FilesShape(env, paths, o);
      if !o.stopOnErrors {
        FilesContents(env, paths, o);
      } else {
        FilesStop(env, paths, o);
      }
    }
  }

  lemma FilesShape(env: Env, paths: seq<string>, o: Options)
    requires paths != []
    ensures ReadAndFilterFilesSpec(env, paths, o) != NoCompletion
    ensures ReadAndFilterFilesSpec(env, paths, o).Ok? ==>
      var found := ReadAndFilterFilesSpec(env, paths, o).value;
      && Sorted(found)
      && FromFrontier(env, Clone(o).(filter := None), paths, found)
      && (o.filter.Some? ==> forall e :: e in found ==> env.globMatch(o.filter.value, e.path))
  {
    var opt := Clone(o).(filter := None);
    ReadEachShape(env, paths, 0, opt, []);
    var all := ReadEachFrom(env, paths, 0, opt, []);
    if all.Ok? {
      FilteredShape(env, paths, o, all.value);
    }
  }

  lemma FilesContents(env: Env, paths: seq<string>, o: Options)
    requires paths != [] && !o.stopOnErrors
    ensures ReadAndFilterFilesSpec(env, paths, o).Ok?
    ensures o.filter.Some? ==>
      multiset(ReadAndFilterFilesSpec(env, paths, o).value)
        == multiset(Matching(env, o.filter.value, FrontierEntries(env, paths, 0, Clone(o).(filter := None))))
  {
    var opt := Clone(o).(filter := None);
    ReadEachContents(env, paths, 0, opt, []);
    var all := ReadEachFrom(env, paths, 0, opt, []);
    assert [] + FrontierEntries(env, paths, 0, opt) == FrontierEntries(env, paths, 0, opt);
    if o.filter.Some? {
      MatchingRespectsMultiset(env, o.filter.value, all.value, FrontierEntries(env, paths, 0, opt));
    }
  }

  lemma FilesStop(env: Env, paths: seq<string>, o: Options)
    requires paths != [] && o.stopOnErrors
    ensures ReadAndFilterFilesSpec(env, paths, o) ==
      match FrontierFailure(env, paths, 0, Clone(o).(filter := None))
      case Some(e) => Err(e)
      case None => ReadAndFilterFilesSpec(env, paths, o.(stopOnErrors := false))
  {
    var opt := Clone(o).(filter := None);
    ReadEachStops(env, paths, 0, opt, []);
    assert opt.(stopOnErrors := false) == Clone(o.(stopOnErrors := false)).(filter := None);
  }

  lemma FilteredShape(env: Env, paths: seq<string>, o: Options, all: seq<Entry>)
    requires FromFrontier(env, Clone(o).(filter := None), paths, all)
    ensures var kept := if o.filter.Some? then Matching(env, o.filter.value, all) else all;
      && Sorted(Sort(kept))
      && FromFrontier(env, Clone(o).(filter := None), paths, Sort(kept))
      && (o.filter.Some? ==> forall e :: e in Sort(kept) ==> env.globMatch(o.filter.value, e.path))
  {
    var opt := Clone(o).(filter := None);
    var kept := if o.filter.Some? then Matching(env, o.filter.value, all) else all;
    assert FromFrontier(env, opt, paths, kept);
    SortKeepsFrontier(env, opt, paths, kept);
    forall e | e in Sort(kept)
      ensures e in kept
    {
      assert e in multiset(Sort(kept));
    }
  }
}
