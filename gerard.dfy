/**
 * `gerard(path, options, callback)`: fills in the option defaults, reads
 * every given path (a directory with readDir, a pattern with readPattern),
 * and calls back once with the concatenated results made unique and sorted,
 * or with the first failure when stopOnErrors is on.
 */
module Gerard {
  import opened Outcomes
  import opened Host
  import opened Entries
  import opened Sorting
  import opened Uniq
  import opened DirectoryReader
  import opened PatternResolver

  /** The `ignore` option as given: absent, one rule, or an array of rules. */
  datatype IgnoreSetting = Unset | Single(rule: Matcher) | Several(rules: seq<Matcher>)

  /** The `path` argument: one path or pattern, or an array of them. */
  datatype PathArg = OnePath(path: string) | PathList(paths: seq<string>)

  /** The options a caller may pass; an absent boolean is None. */
  datatype Settings = Settings(
    ignore: IgnoreSetting,
    stats: bool,
    stopOnErrors: Option<bool>,
    recursive: Option<bool>)

  /** A rule JavaScript treats as false in a condition: only the empty glob string. */
  predicate Falsy(m: Matcher)
  {
    m.Glob? && m.pattern == ""
  }

  /** The ignore option turned into an array of rules (glob strings become matchers). */
  function IgnoreRules(s: IgnoreSetting): (rules: seq<Matcher>)
    ensures forall m :: m in rules ==> (s.Single? && m == s.rule) || (s.Several? && m in s.rules)
    ensures s.Single? ==> (s.rule in rules <==> !Falsy(s.rule))
    ensures s.Several? ==> rules == s.rules
  {
    match s
    case Unset => []
    case Single(m) => if Falsy(m) then [] else [m]
    case Several(ms) => ms
  }

  /** The options after the defaults: stopOnErrors and recursive are on unless set to false. */
  function Defaults(s: Settings): (o: Options)
    ensures o.stopOnErrors <==> s.stopOnErrors != Some(false)
    ensures o.recursive <==> s.recursive != Some(false)
    ensures o.ignore == IgnoreRules(s.ignore) && o.stats == s.stats
    ensures o.filter.None? && !o.dirOnly
  {
    Options(
      ignore := IgnoreRules(s.ignore),
      stats := s.stats,
      stopOnErrors := if s.stopOnErrors.Some? then s.stopOnErrors.value else true,
      recursive := if s.recursive.Some? then s.recursive.value else true,
      filter := None,
      dirOnly := false)
  }

  function Inputs(arg: PathArg): seq<string>
  {
    match arg
    case OnePath(p) => [p]
    case PathList(ps) => ps
  }

  /** One input: a pattern goes to readPattern, anything else to readDir. */
  function ReadInput(env: Env, p: string, o: Options): Outcome<seq<Entry>>
  {
    if IsPattern(p) then ReadPatternSpec(env, p, o) else ReadDirSpec(env, p, env.readdir(p), o)
  }

  /** What each input calls back with, in input order. */
  function ReadInputs(env: Env, inputs: seq<string>, o: Options): (rs: seq<Outcome<seq<Entry>>>)
    ensures |rs| == |inputs|
    ensures forall k :: 0 <= k < |inputs| ==> rs[k] == ReadInput(env, inputs[k], o)
  {
    if inputs == [] then [] else [ReadInput(env, inputs[0], o)] + ReadInputs(env, inputs[1..], o)
  }

  /**
   * `decreaseCounter` over the inputs' outcomes `rs` from index `i` on, with
   * the results so far in `acc`; `pending` records an input that never calls
   * back, so the counter never reaches zero. Under stopOnErrors the first
   * failure calls back.
   */
  function GatherFrom(rs: seq<Outcome<seq<Entry>>>, i: nat, o: Options, acc: seq<Entry>, pending: bool): Outcome<seq<Entry>>
    requires i <= |rs|
    decreases |rs| - i
  {
    if i == |rs| then
      if pending then NoCompletion else Ok(Sort(UniqBy(acc, o.stats)))
    else
      match rs[i]
      case Err(e) => if o.stopOnErrors then Err(e) else GatherFrom(rs, i + 1, o, acc, pending)
      case NoCompletion => GatherFrom(rs, i + 1, o, acc, true)
      case Ok(found) => GatherFrom(rs, i + 1, o, acc + found, pending)
  }

  /** What gerard calls back with; with no inputs the counter starts at zero and it never calls back. */
  function GerardSpec(env: Env, arg: PathArg, s: Settings): Outcome<seq<Entry>>
  {
    var inputs, o := Inputs(arg), Defaults(s);
    if inputs == [] then NoCompletion else GatherFrom(ReadInputs(env, inputs, o), 0, o, [], false)
  }

  method Gerard(env: Env, arg: PathArg, s: Settings) returns (r: Outcome<seq<Entry>>)
    ensures r == GerardSpec(env, arg, s)
  {
    var o := Defaults(s);
    var inputs := Inputs(arg);
    if |inputs| == 0 {
      return NoCompletion;
    }
    ghost var rs := ReadInputs(env, inputs, o);
    var results: seq<Entry> := [];
    var pending := false;
    for i := 0 to |inputs|
      invariant GatherFrom(rs, i, o, results, pending) == GerardSpec(env, arg, s)
    {
      var found: Outcome<seq<Entry>>;
      if IsPattern(inputs[i]) {
        found := ReadPattern(env, inputs[i], o);
      } else {
        found := ReadDir(env, inputs[i], env.readdir(inputs[i]), o);
      }
      match found {
        case Err(e) =>
          if o.stopOnErrors {
            return found;
          }
        case NoCompletion =>
          pending := true;
        case Ok(fs) =>
          results := results + fs;
      }
    }
    if pending {
      return NoCompletion;
    }
    var unique: seq<Entry>;
    if o.stats {
      unique := UniqStats(results);
    } else {
      unique := UniqPlain(results);
    }
    var sorted := SortEntries(unique);
    r := Ok(sorted);
  }
}
