/** What readPattern promises about what it returns. */
module PatternFacts {
  import opened Outcomes
  import opened Host
  import opened Entries
  import opened Sorting
  import opened DirectoryReader
  import opened DirectoryReaderFacts
  import opened Frontier
  import opened FrontierFacts
  import opened PatternResolver

  /**
   * No entry is matched by an ignore rule that survives `clone`, and every
   * entry has the shape the stats option asks for.
   */
  predicate Clean(env: Env, o: Options, es: seq<Entry>)
  {
    forall e :: e in es ==> !Ignored(env, Clone(o), e.path) && (o.stats <==> e.StatsEntry?)
  }

  lemma FrontierIsClean(env: Env, o: Options, o': Options, paths: seq<string>, es: seq<Entry>)
    requires o'.ignore == Clone(o).ignore && o'.stats == o.stats
    requires FromFrontier(env, o', paths, es)
    ensures Clean(env, o, es)
  {
    forall e | e in es
      ensures !Ignored(env, Clone(o), e.path) && (o.stats <==> e.StatsEntry?)
    {
      var k :| 0 <= k < |paths| && Emitted(env, o', paths[k], e);
    }
  }

  /** A `**` segment's read fails only under stopOnErrors, and returns clean sorted entries. */
  lemma GlobstarClean(env: Env, pattern: string, o: Options, frontier: seq<string>)
    ensures var r := ReadAndFilterFilesSpec(env, frontier, Clone(o).(filter := Some(pattern)));
      && (!o.stopOnErrors ==> !r.Err?)
      && (r.Ok? ==> Sorted(r.value) && Clean(env, o, r.value))
  {
    var o' := Clone(o).(filter := Some(pattern));
    CloneIdempotent(o);
    ReadAndFilterFilesFacts(env, frontier, o');
    var r := ReadAndFilterFilesSpec(env, frontier, o');
    if r.Ok? {
      FrontierIsClean(env, o, Clone(o').(filter := None), frontier, r.value);
    }
  }

  /** The last segment's listing fails only under stopOnErrors, and returns clean sorted entries. */
  lemma LastSegmentClean(env: Env, o: Options, part: string, frontier: seq<string>)
    ensures var r := ReadAndFilterPathsSpec(env, frontier, Clone(o).(filter := Some(part)));
      && (!o.stopOnErrors ==> !r.Err?)
      && (r.Ok? ==> Sorted(r.value) && Clean(env, o, r.value))
  {
    var opt := Clone(o).(filter := Some(part));
    CloneIdempotent(o);
    ReadAndFilterPathsFacts(env, frontier, opt);
    var r := ReadAndFilterPathsSpec(env, frontier, opt);
    if r.Ok? {
      FrontierIsClean(env, o, Clone(opt).(recursive := false), frontier, r.value);
    }
  }

  /** One segment keeps the results clean, and fails only under stopOnErrors. */
  lemma StepShape(env: Env, pattern: string, o: Options, part: string, more: bool, paths: seq<string>, results: seq<Entry>)
    requires Clean(env, o, results)
    ensures var s := SegmentStep(env, pattern, o, part, more, paths, results);
      && (s.Next? ==> Clean(env, o, s.results))
      && (s.Done? && !o.stopOnErrors ==> !s.outcome.Err?)
      && (s.Done? && s.outcome.Ok? ==> Sorted(s.outcome.value) && Clean(env, o, s.outcome.value))
  {
    var opt := Clone(o).(filter := Some(part));
    var frontier := if IsPattern(part) && more && paths == [] then ["."] else paths;
    if part == "**" {
      assert opt.(filter := Some(pattern)) == Clone(o).(filter := Some(pattern));
      GlobstarClean(env, pattern, o, frontier);
    } else if more && (IsPattern(part) || frontier != []) {
      ReadAndFilterPathsFacts(env, frontier, opt.(dirOnly := true));
    } else if !more {
      LastSegmentClean(env, o, part, frontier);
    }
  }

  /**
   * A segment listed before the end replaces the frontier by the paths of what
   * the listing found: entries that readDir of a frontier path emits with the
   * segment as filter, directories only and no descent; without stopOnErrors
   * the listing always succeeds and finds every such entry. In stats mode each
   * is a record of a directory directly inside a frontier path, named by the
   * segment.
   */
  lemma MiddleSegmentDescends(env: Env, pattern: string, o: Options, part: string, paths: seq<string>, results: seq<Entry>)
    returns (found: seq<Entry>)
    requires part != "**" && (IsPattern(part) || paths != [])
    ensures var s := SegmentStep(env, pattern, o, part, true, paths, results);
      s.Next? ==> s.paths == PathsOf(found) && s.results == results
    ensures var frontier := if IsPattern(part) && paths == [] then ["."] else paths;
      var listed := Clone(o).(filter := Some(part), dirOnly := true, recursive := false);
      && FromFrontier(env, listed, frontier, found)
      && (!o.stopOnErrors ==>
            SegmentStep(env, pattern, o, part, true, paths, results).Next? &&
            multiset(found) == multiset(FrontierEntries(env, frontier, 0, listed)))
    ensures forall e :: e in found ==> !Ignored(env, Clone(o), e.path) && (o.stats <==> e.StatsEntry?)
    ensures o.stats ==> forall e :: e in found ==>
      && e.StatsEntry? && e.isDirectory && env.globMatch(part, e.name)
      && e.dir in (if IsPattern(part) && paths == [] then ["."] else paths)
  {
    var opt := Clone(o).(filter := Some(part)).(dirOnly := true);
    var frontier := if IsPattern(part) && paths == [] then ["."] else paths;
    var listed := Clone(o).(filter := Some(part), dirOnly := true, recursive := false);
    CloneIdempotent(o);
    assert Clone(opt).(recursive := false) == listed;
    ReadAndFilterPathsFacts(env, frontier, opt);
    var r := ReadAndFilterPathsSpec(env, frontier, opt);
    found := if r.Ok? then r.value else [];
    ListedSubdirectories(env, o, part, frontier, found);
  }

  /** What a listing with the segment as filter, directories only and no descent, emits from a frontier. */
  lemma ListedSubdirectories(env: Env, o: Options, part: string, frontier: seq<string>, found: seq<Entry>)
    requires FromFrontier(env, Clone(o).(filter := Some(part), dirOnly := true, recursive := false), frontier, found)
    ensures forall e :: e in found ==> !Ignored(env, Clone(o), e.path) && (o.stats <==> e.StatsEntry?)
    ensures o.stats ==> forall e :: e in found ==>
      e.StatsEntry? && e.isDirectory && env.globMatch(part, e.name) && e.dir in frontier
  {
    var listed := Clone(o).(filter := Some(part), dirOnly := true, recursive := false);
    forall e | e in found
      ensures !Ignored(env, Clone(o), e.path) && (o.stats <==> e.StatsEntry?)
      ensures o.stats ==> e.StatsEntry? && e.isDirectory && env.globMatch(part, e.name) && e.dir in frontier
    {
      var k :| 0 <= k < |frontier| && Emitted(env, listed, frontier[k], e);
    }
  }

  lemma {:induction false} PatternShape(env: Env, pattern: string, o: Options, parts: seq<string>, paths: seq<string>, results: seq<Entry>)
    requires Clean(env, o, results)
    ensures var r := PatternFrom(env, pattern, o, parts, paths, results);
      && (!o.stopOnErrors ==> !r.Err?)
      && (r.Ok? ==> Sorted(r.value) && Clean(env, o, r.value))
    decreases |parts|
  {
    if parts == [] || parts[0] == "" {
      SortSorted(results);
      forall e | e in Sort(results)
        ensures e in results
      {
        assert e in multiset(Sort(results));
      }
    } else {
      var more := parts[1..] != [];
      StepShape(env, pattern, o, parts[0], more, paths, results);
      var s := SegmentStep(env, pattern, o, parts[0], more, paths, results);
      if s.Next? {
        PatternShape(env, pattern, o, parts[1..], s.paths, s.results);
      }
    }
  }

  /**
   * readPattern returns its entries sorted, none of them matched by an
   * ignore rule, each of the requested shape; without stopOnErrors it never
   * fails.
   */
  lemma ReadPatternShape(env: Env, pattern: string, o: Options)
    ensures !o.stopOnErrors ==> !ReadPatternSpec(env, pattern, o).Err?
    ensures ReadPatternSpec(env, pattern, o).Ok? ==>
      Sorted(ReadPatternSpec(env, pattern, o).value) && Clean(env, o, ReadPatternSpec(env, pattern, o).value)
  {
    PatternShape(env, pattern, o, env.segments(pattern), [], []);
  }

  /**
   * Once a `**` segment lies ahead (and nothing has been listed yet), every
   * path returned matches the whole pattern.
   */
  lemma {:induction false} GlobstarMatchesPattern(env: Env, pattern: string, o: Options, parts: seq<string>, paths: seq<string>)
    requires "**" in parts
    ensures var r := PatternFrom(env, pattern, o, parts, paths, []);
      r.Ok? ==> forall e :: e in r.value ==> env.globMatch(pattern, e.path)
    decreases |parts|
  {
    if parts != [] && parts[0] != "" {
      if parts[0] == "**" {
        GlobstarStep(env, pattern, o, parts[1..] != [], paths);
      } else {
        assert "**" in parts[1..] by {
          var k :| 0 <= k < |parts| && parts[k] == "**";
          assert parts[1..][k - 1] == "**";
        }
        MiddleStepKeepsResults(env, pattern, o, parts[0], paths, []);
        var s := SegmentStep(env, pattern, o, parts[0], true, paths, []);
        if s.Next? {
          GlobstarMatchesPattern(env, pattern, o, parts[1..], s.paths);
        }
      }
    }
  }

  /** The `**` segment calls back with paths matching the whole pattern. */
  lemma GlobstarStep(env: Env, pattern: string, o: Options, more: bool, paths: seq<string>)
    ensures var s := SegmentStep(env, pattern, o, "**", more, paths, []);
      s.Done? && (s.outcome.Ok? ==> forall e :: e in s.outcome.value ==> env.globMatch(pattern, e.path))
  {
    var frontier := if more && paths == [] then ["."] else paths;
    var o' := Clone(o).(filter := Some(pattern));
    assert IsPattern("**") by {
      assert "**"[0] == '*';
    }
    assert Clone(o).(filter := Some("**")).(filter := Some(pattern)) == o';
    assert SegmentStep(env, pattern, o, "**", more, paths, []) == Done(ReadAndFilterFilesSpec(env, frontier, o'));
    if frontier != [] {
      FilesShape(env, frontier, o');
    }
  }

  /** A segment other than `**` before the end lists nothing into the results. */
  lemma MiddleStepKeepsResults(env: Env, pattern: string, o: Options, part: string, paths: seq<string>, results: seq<Entry>)
    requires part != "**"
    ensures var s := SegmentStep(env, pattern, o, part, true, paths, results);
      (s.Next? ==> s.results == results) && (s.Done? ==> !s.outcome.Ok?)
  {
  }

  /** readPattern of a pattern containing a `**` segment (reached before any empty one) returns only paths matching it. */
  lemma ReadPatternGlobstar(env: Env, pattern: string, o: Options)
    requires "**" in env.segments(pattern)
    ensures var r := ReadPatternSpec(env, pattern, o);
      r.Ok? ==> forall e :: e in r.value ==> env.globMatch(pattern, e.path)
  {
    GlobstarMatchesPattern(env, pattern, o, env.segments(pattern), []);
  }

  /**
   * Without a `**` segment, in stats mode, every record returned is named by
   * the last segment: the last segment filters names.
   */
  lemma {:induction false} LastSegmentFiltersNames(env: Env, pattern: string, o: Options, parts: seq<string>, paths: seq<string>)
    requires o.stats && parts != [] && "**" !in parts
    ensures var r := PatternFrom(env, pattern, o, parts, paths, []);
      r.Ok? ==> forall e :: e in r.value ==> e.StatsEntry? && env.globMatch(parts[|parts| - 1], e.name)
    decreases |parts|
  {
    if parts[0] != "" {
      var part, more := parts[0], parts[1..] != [];
      var opt := Clone(o).(filter := Some(part));
      if more {
        var s := SegmentStep(env, pattern, o, part, more, paths, []);
        if s.Next? {
          assert parts[1..][|parts[1..]| - 1] == parts[|parts| - 1];
          LastSegmentFiltersNames(env, pattern, o, parts[1..], s.paths);
        }
      } else {
        ReadAndFilterPathsFacts(env, paths, opt);
        var r := ReadAndFilterPathsSpec(env, paths, opt);
        if r.Ok? {
          var found := r.value;
          assert PatternFrom(env, pattern, o, parts, paths, []) == Ok(Sort(found));
          forall e | e in Sort(found)
            ensures e.StatsEntry? && env.globMatch(part, e.name)
          {
            assert e in multiset(Sort(found));
            assert e in found;
            var k :| 0 <= k < |paths| && Emitted(env, Clone(opt).(recursive := false), paths[k], e);
          }
        }
      }
    }
  }

  /** In stats mode, readPattern of a pattern without `**` returns records named by its last segment. */
  lemma ReadPatternLastSegment(env: Env, pattern: string, o: Options)
    requires o.stats && env.segments(pattern) != [] && "**" !in env.segments(pattern)
    ensures var r := ReadPatternSpec(env, pattern, o);
      var parts := env.segments(pattern);
      r.Ok? ==> forall e :: e in r.value ==> e.StatsEntry? && env.globMatch(parts[|parts| - 1], e.name)
  {
    LastSegmentFiltersNames(env, pattern, o, env.segments(pattern), []);
  }

  /**
   * A last segment other than `**` that meets an empty frontier hands
   * readAndFilterPaths no paths, so its counter never reaches zero and
   * readPattern never calls back.
   */
  lemma LastSegmentEmptyFrontier(env: Env, pattern: string, o: Options, part: string, results: seq<Entry>)
    requires part != "**"
    ensures SegmentStep(env, pattern, o, part, false, [], results) == Done(NoCompletion)
  {
    assert ReadAndFilterPathsSpec(env, [], Clone(o).(filter := Some(part))) == NoCompletion;
  }

  /**
   * A pattern made of a single segment other than `**` (for instance
   * "*.js") lists an empty frontier, so readPattern never calls back.
   */
  lemma SingleSegmentNeverCompletes(env: Env, pattern: string, o: Options)
    requires |env.segments(pattern)| == 1
    requires env.segments(pattern)[0] != "" && env.segments(pattern)[0] != "**"
    ensures ReadPatternSpec(env, pattern, o) == NoCompletion
  {
    LastSegmentEmptyFrontier(env, pattern, o, env.segments(pattern)[0], []);
  }

  /**
   * A small tree for the examples below: the working directory holds `sub`,
   * which holds `a.js`, and `src` holds `foo.js`; only the glob `*.js` matches
   * anything, and it matches every name.
   */
  function ExampleEnv(): Env
  {
    Env(
      p => if p == "src" then Listing([Child("foo.js", FileStat)])
           else if p == "sub" then Listing([Child("a.js", FileStat)])
           else if p == "." then Listing([Child("sub", DirStat(Listing([Child("a.js", FileStat)])))])
           else ListError(FsError("ENOENT")),
      (d, n) => d + "/" + n,
      s => if s == "src/*.js" then ["src", "*.js"]
           else if s == "r*/sub/*.js" then ["r*", "sub", "*.js"]
           else if s == "r*/*.js" then ["r*", "*.js"]
           else [s],
      (p, s) => p == "*.js")
  }

  lemma SortSingleton(x: Entry)
    ensures Sort([x]) == [x]
  {
    assert [x][..0] == [];
  }

  /** readDir of a listing holding one admitted file, in plain mode, returns its joined path. */
  lemma OneFileListing(env: Env, dir: string, name: string, o: Options)
    requires Admits(env, o, env.join(dir, name), name) && !o.dirOnly && !o.stats
    ensures ReadDirSpec(env, dir, Listing([Child(name, FileStat)]), o) == Ok([PathEntry(env.join(dir, name))])
  {
    var node := Listing([Child(name, FileStat)]);
    var found := [PathEntry(env.join(dir, name))];
    assert VisitChild(env, dir, o, node.children[0], []) == Continue(found);
    assert node.children[1..] == [];
    SortSingleton(found[0]);
    assert CollectFrom(env, dir, o, node, node.children[1..], found) == Ok(found);
    assert CollectFrom(env, dir, o, node, node.children, []) == Ok(found);
  }

  /** readDir of a listing holding one rejected child returns nothing. */
  lemma OneRejectedListing(env: Env, dir: string, c: Child, o: Options)
    requires !Admits(env, o, env.join(dir, c.name), c.name)
    ensures ReadDirSpec(env, dir, Listing([c]), o) == Ok([])
  {
    var node := Listing([c]);
    assert VisitChild(env, dir, o, node.children[0], []) == Continue([]);
    assert node.children[1..] == [];
    assert CollectFrom(env, dir, o, node, node.children[1..], []) == Ok([]);
    assert CollectFrom(env, dir, o, node, node.children, []) == Ok([]);
  }

  /** readAndFilterPaths of a one-path frontier returns readDir's result for that path, when it is already sorted. */
  lemma OnePathFrontier(env: Env, path: string, o: Options, found: seq<Entry>)
    requires ReadDirSpec(env, path, env.readdir(path), Clone(o).(recursive := false)) == Ok(found)
    requires Sort(found) == found
    ensures ReadAndFilterPathsSpec(env, [path], o) == Ok(found)
  {
    var opt := Clone(o).(recursive := false);
    assert [] + found == found;
    assert ReadEachFrom(env, [path], 1, opt, found) == Ok(found);
    assert ReadEachFrom(env, [path], 0, opt, []) == Ok(found);
  }

  /** A segment that goes on to the next one moves readPattern on to the rest of the segments. */
  lemma PatternFromNext(env: Env, pattern: string, o: Options, parts: seq<string>, paths: seq<string>, results: seq<Entry>,
                        paths': seq<string>, results': seq<Entry>)
    requires parts != [] && parts[0] != ""
    requires SegmentStep(env, pattern, o, parts[0], parts[1..] != [], paths, results) == Next(paths', results')
    ensures PatternFrom(env, pattern, o, parts, paths, results) == PatternFrom(env, pattern, o, parts[1..], paths', results')
  {
  }

  /** In the example tree, the leading literal "src" is pushed onto the empty frontier. */
  lemma ExampleSrcPushed(o: Options)
    ensures SegmentStep(ExampleEnv(), "src/*.js", o, "src", true, [], []) == Next(["src"], [])
  {
    assert !IsPattern("src");
  }

  /**
   * In the example tree, when every ignore rule is a RegExp, the last segment
   * "*.js" over the frontier ["src"] lists src/foo.js whatever the rules match.
   */
  lemma ExampleSrcListed(o: Options)
    requires forall k :: 0 <= k < |o.ignore| ==> o.ignore[k].RegExp?
    requires !o.stats && !o.dirOnly
    ensures SegmentStep(ExampleEnv(), "src/*.js", o, "*.js", false, ["src"], [])
         == Next(["src"], [PathEntry("src/foo.js")])
  {
    var env := ExampleEnv();
    var found := [PathEntry("src/foo.js")];
    var opt := Clone(o).(filter := Some("*.js"));
    var listed := Clone(opt).(recursive := false);
    assert forall k :: 0 <= k < |listed.ignore| ==> listed.ignore[k] == PlainObject;
    assert !Ignored(env, listed, "src/foo.js");
    assert env.readdir("src") == Listing([Child("foo.js", FileStat)]);
    assert env.join("src", "foo.js") == "src/foo.js";
    OneFileListing(env, "src", "foo.js", listed);
    SortSingleton(found[0]);
    OnePathFrontier(env, "src", opt, found);
  }

  /** Plain-mode options whose one ignore rule is a RegExp that matches every path. */
  function IgnoreAllByRegExp(): Options
  {
    Options([RegExp(f => true)], false, true, true, None, false)
  }

  // In the example tree, when every ignore rule is a RegExp, readPattern of
  // "src/*.js" returns src/foo.js.
  lemma ExamplePatternIgnoresRegExps(o: Options)
    requires forall k :: 0 <= k < |o.ignore| ==> o.ignore[k].RegExp?
    requires !o.stats && !o.dirOnly
    ensures ReadPatternSpec(ExampleEnv(), "src/*.js", o) == Ok([PathEntry("src/foo.js")])
  {
    var env := ExampleEnv();
    var parts := ["src", "*.js"];
    var found := [PathEntry("src/foo.js")];
    assert env.segments("src/*.js") == parts;
    assert parts[1..] == ["*.js"] && parts[2..] == [];
    ExampleSrcPushed(o);
    PatternFromNext(env, "src/*.js", o, parts, [], [], ["src"], []);
    ExampleSrcListed(o);
    PatternFromNext(env, "src/*.js", o, parts[1..], ["src"], [], ["src"], found);
    SortSingleton(found[0]);
  }

  // `clone` loses RegExp ignore rules, so a pattern input never applies them:
  // with a RegExp that matches every path, the pattern "src/*.js" still
  // returns src/foo.js, while readDir of "src" with the same options returns
  // nothing.
  lemma PatternLosesRegExpIgnore()
    ensures var env, o := ExampleEnv(), IgnoreAllByRegExp();
      && ReadPatternSpec(env, "src/*.js", o) == Ok([PathEntry("src/foo.js")])
      && ReadDirSpec(env, "src", env.readdir("src"), o) == Ok([])
  {
    var env, o := ExampleEnv(), IgnoreAllByRegExp();
    ExamplePatternIgnoresRegExps(o);
    assert env.readdir("src") == Listing([Child("foo.js", FileStat)]);
    assert MatcherHits(env, o.ignore[0], env.join("src", "foo.js"));
    OneRejectedListing(env, "src", Child("foo.js", FileStat), o);
  }

  /** In the example tree, "r*" names no directory of the working directory. */
  lemma ExampleWildcardFindsNothing(pattern: string, o: Options)
    requires o.ignore == [] && !o.stats
    ensures SegmentStep(ExampleEnv(), pattern, o, "r*", true, [], []) == Next([], [])
  {
    var env := ExampleEnv();
    assert IsPattern("r*") by {
      assert "r*"[1] == '*';
    }
    var first := Clone(o).(filter := Some("r*")).(dirOnly := true);
    var child := Child("sub", DirStat(Listing([Child("a.js", FileStat)])));
    assert env.readdir(".") == Listing([child]);
    assert !env.globMatch("r*", "sub");
    OneRejectedListing(env, ".", child, Clone(first).(recursive := false));
    OnePathFrontier(env, ".", first, []);
  }

  /** In the example tree, the last segment "*.js" over the frontier ["sub"] lists sub/a.js. */
  lemma ExampleLastSegment(o: Options)
    requires o.ignore == [] && !o.stats && !o.dirOnly
    ensures SegmentStep(ExampleEnv(), "r*/sub/*.js", o, "*.js", false, ["sub"], [])
         == Next(["sub"], [PathEntry("sub/a.js")])
  {
    var env := ExampleEnv();
    var found := [PathEntry("sub/a.js")];
    var last := Clone(o).(filter := Some("*.js"));
    assert env.readdir("sub") == Listing([Child("a.js", FileStat)]);
    assert env.join("sub", "a.js") == "sub/a.js";
    OneFileListing(env, "sub", "a.js", Clone(last).(recursive := false));
    SortSingleton(found[0]);
    OnePathFrontier(env, "sub", last, found);
  }

  /** In the example tree, the literal "sub" on an empty frontier is pushed onto it. */
  lemma ExampleLiteralPushed(o: Options)
    ensures SegmentStep(ExampleEnv(), "r*/sub/*.js", o, "sub", true, [], []) == Next(["sub"], [])
  {
    assert !IsPattern("sub");
  }

  // After a listing before the end finds nothing, the empty frontier looks
  // like the initial one, so the next literal is pushed as if it led the
  // pattern: "r*/sub/*.js" returns sub/a.js, although "r*" does not match
  // "sub" and the working directory holds no other directory.
  lemma EmptyListingRestartsFrontier()
    ensures var env, o := ExampleEnv(), Options([], false, true, true, None, false);
      && ReadPatternSpec(env, "r*/sub/*.js", o) == Ok([PathEntry("sub/a.js")])
      && !env.globMatch("r*", "sub")
  {
    var env, o := ExampleEnv(), Options([], false, true, true, None, false);
    var pattern := "r*/sub/*.js";
    var parts := ["r*", "sub", "*.js"];
    var found := [PathEntry("sub/a.js")];
    assert env.segments(pattern) == parts;
    assert parts[1..] == ["sub", "*.js"] && parts[2..] == ["*.js"] && parts[3..] == [];
    ExampleWildcardFindsNothing(pattern, o);
    PatternFromNext(env, pattern, o, parts, [], [], [], []);
    ExampleLiteralPushed(o);
    PatternFromNext(env, pattern, o, parts[1..], [], [], ["sub"], []);
    ExampleLastSegment(o);
    PatternFromNext(env, pattern, o, parts[2..], ["sub"], [], ["sub"], found);
    SortSingleton(found[0]);
  }

  // When the listing before the last segment finds nothing, the last segment
  // meets an empty frontier and readPattern never calls back: "r*/*.js" hangs
  // when the working directory holds no directory that "r*" matches.
  lemma EmptyListingBeforeLastNeverCompletes()
    ensures var env, o := ExampleEnv(), Options([], false, true, true, None, false);
      && ReadPatternSpec(env, "r*/*.js", o) == NoCompletion
      && !env.globMatch("r*", "sub")
  {
    var env, o := ExampleEnv(), Options([], false, true, true, None, false);
    var pattern := "r*/*.js";
    var parts := ["r*", "*.js"];
    assert env.segments(pattern) == parts;
    assert parts[1..] == ["*.js"] && parts[2..] == [];
    ExampleWildcardFindsNothing(pattern, o);
    PatternFromNext(env, pattern, o, parts, [], [], [], []);
    LastSegmentEmptyFrontier(env, pattern, o, "*.js", []);
  }
}
