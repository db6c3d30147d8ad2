/**
 * `readPattern`: resolves a glob pattern segment by segment, keeping a
 * frontier of directory paths. Literal segments are pushed onto the
 * frontier, wildcard and later literal segments are resolved by listing the
 * frontier, and a `**` segment hands the frontier to a recursive read
 * filtered by the whole pattern.
 */
module PatternResolver {
  import opened Outcomes
  import opened Host
  import opened Entries
  import opened Sorting
  import opened Frontier
  import opened Search

  /** `isPattern`: a string is a pattern exactly when it contains a '*'. */
  function IsPattern(s: string): (r: bool)
    ensures r <==> '*' in s
  {
    IndexOf(s, '*') > -1
  }

  /** After one segment: go on with this frontier and these results, or call back with this outcome. */
  datatype Step = Next(paths: seq<string>, results: seq<Entry>) | Done(outcome: Outcome<seq<Entry>>)

  /**
   * `readPart`, with the segments still to resolve in `parts`, the current
   * frontier in `paths`, and the listing of the last segment in `results`.
   * A missing or empty segment ends the resolution with the sorted results.
   */
  function PatternFrom(env: Env, pattern: string, o: Options, parts: seq<string>,
                       paths: seq<string>, results: seq<Entry>): Outcome<seq<Entry>>
    decreases |parts|
  {
    if parts == [] || parts[0] == "" then Ok(Sort(results))
    else
      match SegmentStep(env, pattern, o, parts[0], parts[1..] != [], paths, results)
      case Next(paths', results') => PatternFrom(env, pattern, o, parts[1..], paths', results')
      case Done(r) => r
  }

  /**
   * One non-empty segment `part` (`more` when segments follow it), read with
   * a clone of the options whose filter is the segment: `**` reads the
   * frontier recursively and filters by the whole pattern; a wildcard, or a
   * literal on a non-empty frontier, before the end lists the frontier's
   * subdirectories named by it; a leading literal joins the frontier; the
   * last segment lists the frontier's children named by it.
   */
  function SegmentStep(env: Env, pattern: string, o: Options, part: string, more: bool,
                       paths: seq<string>, results: seq<Entry>): Step
  {
    var opt := Clone(o).(filter := Some(part));
    // a wildcard before the end on an empty frontier starts from the working directory
    var frontier := if IsPattern(part) && more && paths == [] then ["."] else paths;
    if part == "**" then
      Done(ReadAndFilterFilesSpec(env, frontier, opt.(filter := Some(pattern))))
    else if more && (IsPattern(part) || frontier != []) then
      match ReadAndFilterPathsSpec(env, frontier, opt.(dirOnly := true))
      case Ok(found) => Next(PathsOf(found), results)
      case Err(e) => Done(Err(e))
      case NoCompletion => Done(NoCompletion)
    else if more then
      Next(frontier + [part], results)
    else
      match ReadAndFilterPathsSpec(env, frontier, opt)
      case Ok(found) => Next(frontier, found)
      case Err(e) => Done(Err(e))
      case NoCompletion => Done(NoCompletion)
  }

  /** What readPattern delivers for `pattern`, split into segments after normalisation. */
  function ReadPatternSpec(env: Env, pattern: string, o: Options): Outcome<seq<Entry>>
  {
    PatternFrom(env, pattern, o, env.segments(pattern), [], [])
  }

  /** The body of `readPart` for one non-empty segment. */
  method ResolveSegment(env: Env, pattern: string, o: Options, part: string, more: bool,
                        paths: seq<string>, results: seq<Entry>) returns (step: Step)
    ensures step == SegmentStep(env, pattern, o, part, more, paths, results)
  {
    var opt := Clone(o).(filter := Some(part));
    var frontier := paths;
    if IsPattern(part) && more && |frontier| == 0 {
      frontier := ["."];
    }
    if part == "**" {
      opt := opt.(filter := Some(pattern));
      var r := ReadAndFilterFiles(env, frontier, opt);
      return Done(r);
    } else if more && (IsPattern(part) || |frontier| > 0) {
      opt := opt.(dirOnly := true);
      var found := ReadAndFilterPaths(env, frontier, opt);
      if !found.Ok? {
        return Done(found);
      }
      return Next(PathsOf(found.value), results);
    } else if more {
      return Next(frontier + [part], results);
    } else {
      var found := ReadAndFilterPaths(env, frontier, opt);
      if !found.Ok? {
        return Done(found);
      }
      return Next(frontier, found.value);
    }
  }

  /** readPattern, its self-calling `readPart` unrolled into a loop over the segments. */
  method ReadPattern(env: Env, pattern: string, o: Options) returns (r: Outcome<seq<Entry>>)
    ensures r == ReadPatternSpec(env, pattern, o)
  {
    var parts := env.segments(pattern);
    var paths: seq<string> := [];
    var results: seq<Entry> := [];
    while true
      invariant PatternFrom(env, pattern, o, parts, paths, results) == ReadPatternSpec(env, pattern, o)
      decreases |parts|
    {
      if |parts| == 0 || parts[0] == "" {
        var sorted := SortEntries(results);
        return Ok(sorted);
      }
      var step := ResolveSegment(env, pattern, o, parts[0], |parts| > 1, paths, results);
      parts := parts[1..];
      match step {
        case Done(outcome) =>
          return outcome;
        case Next(paths', results') =>
          paths, results := paths', results';
      }
    }
  }
}
