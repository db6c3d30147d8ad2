/**
 * The two frontier readers of the pattern resolver: `readAndFilterPaths`
 * (one level below every frontier path, names filtered) and
 * `readAndFilterFiles` (everything below every frontier path, then the
 * whole pattern matched against each path). Both run readDir on every path
 * and gather the results through the same counter fan-in.
 */
module Frontier {
  import opened Outcomes
  import opened Host
  import opened Entries
  import opened Sorting
  import opened DirectoryReader

  /**
   * The fan-in over the frontier paths from index `i` on, with the results
   * gathered so far in `acc`: each path is read with readDir in turn, a
   * failure ends the whole read under stopOnErrors and is dropped otherwise,
   * and successes are concatenated.
   */
  function ReadEachFrom(env: Env, paths: seq<string>, i: nat, o: Options, acc: seq<Entry>): Outcome<seq<Entry>>
    requires i <= |paths|
    decreases |paths| - i
  {
    if i == |paths| then Ok(acc)
    else
      match ReadDirSpec(env, paths[i], env.readdir(paths[i]), o)
      case Err(e) => if o.stopOnErrors then Err(e) else ReadEachFrom(env, paths, i + 1, o, acc)
      case NoCompletion => NoCompletion
      case Ok(found) => ReadEachFrom(env, paths, i + 1, o, acc + found)
  }

  /**
   * `readAndFilterPaths`: the frontier's children, read non-recursively with
   * cloned options and sorted; no frontier, no callback.
   */
  function ReadAndFilterPathsSpec(env: Env, paths: seq<string>, o: Options): Outcome<seq<Entry>>
  {
    if paths == [] then NoCompletion
    else
      match ReadEachFrom(env, paths, 0, Clone(o).(recursive := false), [])
      case Ok(all) => Ok(Sort(all))
      case Err(e) => Err(e)
      case NoCompletion => NoCompletion
  }

  /** `results.filter(...)` with a Minimatch filter: the entries whose path matches `pattern`. */
  function Matching(env: Env, pattern: string, es: seq<Entry>): (r: seq<Entry>)
    ensures forall e :: e in r <==> e in es && env.globMatch(pattern, e.path)
    ensures multiset(r) <= multiset(es)
  {
    if es == [] then []
    else
      assert es == [es[0]] + es[1..];
      (if env.globMatch(pattern, es[0].path) then [es[0]] else []) + Matching(env, pattern, es[1..])
  }

  /**
   * `readAndFilterFiles`: an empty frontier calls back at once with nothing;
   * otherwise every frontier path is read with cloned options and without the
   * name filter, and the filter (the whole pattern) is matched against each
   * joined path.
   */
  function ReadAndFilterFilesSpec(env: Env, paths: seq<string>, o: Options): Outcome<seq<Entry>>
  {
    if paths == [] then Ok([])
    else
      match ReadEachFrom(env, paths, 0, Clone(o).(filter := None), [])
      case Ok(all) =>
        Ok(Sort(if o.filter.Some? then Matching(env, o.filter.value, all) else all))
      case Err(e) => Err(e)
      case NoCompletion => NoCompletion
  }

  /** `paths.forEach(pth => readDir(pth, opt, decreaseCounter))`, the results concatenated as they arrive. */
  method ReadEach(env: Env, paths: seq<string>, o: Options) returns (r: Outcome<seq<Entry>>)
    ensures r == ReadEachFrom(env, paths, 0, o, [])
  {
    var results: seq<Entry> := [];
    var i := 0;
    while i < |paths|
      invariant 0 <= i <= |paths|
      invariant ReadEachFrom(env, paths, i, o, results) == ReadEachFrom(env, paths, 0, o, [])
    {
      var found := ReadDir(env, paths[i], env.readdir(paths[i]), o);
      match found {
        case Err(e) =>
          if o.stopOnErrors {
            return found;
          }
        case NoCompletion =>
          return NoCompletion;
        case Ok(fs) =>
          results := results + fs;
      }
      i := i + 1;
    }
    r := Ok(results);
  }

  method ReadAndFilterPaths(env: Env, paths: seq<string>, o: Options) returns (r: Outcome<seq<Entry>>)
    ensures r == ReadAndFilterPathsSpec(env, paths, o)
  {
    if |paths| == 0 {
      return NoCompletion;
    }
    var opt := Clone(o).(recursive := false);
    var all := ReadEach(env, paths, opt);
    if !all.Ok? {
      return all;
    }
    var sorted := SortEntries(all.value);
    r := Ok(sorted);
  }

  method ReadAndFilterFiles(env: Env, paths: seq<string>, o: Options) returns (r: Outcome<seq<Entry>>)
    ensures r == ReadAndFilterFilesSpec(env, paths, o)
  {
    if |paths| == 0 {
      return Ok([]);
    }
    var opt := Clone(o).(filter := None);
    var all := ReadEach(env, paths, opt);
    if !all.Ok? {
      return all;
    }
    var results := all.value;
    if o.filter.Some? {
      results := Matching(env, o.filter.value, results);
    }
    var sorted := SortEntries(results);
    r := Ok(sorted);
  }
}
