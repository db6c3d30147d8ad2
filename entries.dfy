/** Result entries and the options every reader is called with. */
module Entries {
  import opened Outcomes
  import opened Host

  /**
   * A listed path: a bare string, or (when stats are requested) a record
   * {name, dir, path, stats} whose stats keep only the is-directory bit.
   */
  datatype Entry =
    | PathEntry(path: string)
    | StatsEntry(name: string, dir: string, path: string, isDirectory: bool)

  /**
   * The options object after gerard has filled in its defaults; `filter` and
   * `dirOnly` are set only on the copies the pattern resolver makes.
   */
  datatype Options = Options(
    ignore: seq<Matcher>,
    stats: bool,
    stopOnErrors: bool,
    recursive: bool,
    filter: Option<string>,
    dirOnly: bool)

  /**
   * `clone` of the ignore rules: a Minimatch is shared and a function is kept,
   * but a RegExp, being an object that is not a Minimatch, is rebuilt from its
   * own properties into a plain object.
   */
  function CloneRules(rules: seq<Matcher>): (copies: seq<Matcher>)
    ensures |copies| == |rules|
    ensures forall k :: 0 <= k < |rules| ==>
      (rules[k].RegExp? ==> copies[k] == PlainObject) && (!rules[k].RegExp? ==> copies[k] == rules[k])
  {
    if rules == [] then []
    else [if rules[0].RegExp? then PlainObject else rules[0]] + CloneRules(rules[1..])
  }

  /** `clone(options)`: every field is copied as it is, except that RegExp ignore rules are lost. */
  function Clone(o: Options): (c: Options)
    ensures c.(ignore := o.ignore) == o
    ensures forall m :: m in c.ignore ==> !m.RegExp?
  {
    o.(ignore := CloneRules(o.ignore))
  }

  /** Cloning a clone changes nothing. */
  lemma CloneIdempotent(o: Options)
    ensures Clone(Clone(o)) == Clone(o)
  {
    var once := CloneRules(o.ignore);
    var twice := CloneRules(once);
    assert twice == once by {
      forall k | 0 <= k < |once|
        ensures twice[k] == once[k]
      {
      }
    }
  }

  /** After `clone`, a path is ignored exactly when some rule other than a RegExp matches it. */
  lemma CloneIgnored(env: Env, o: Options, file: string)
    ensures Ignored(env, Clone(o), file) <==>
      exists k :: 0 <= k < |o.ignore| && !o.ignore[k].RegExp? && MatcherHits(env, o.ignore[k], file)
  {
    var c := Clone(o);
    if Ignored(env, c, file) {
      var k :| 0 <= k < |c.ignore| && MatcherHits(env, c.ignore[k], file);
      assert !o.ignore[k].RegExp? && MatcherHits(env, o.ignore[k], file);
    }
    if exists k :: 0 <= k < |o.ignore| && !o.ignore[k].RegExp? && MatcherHits(env, o.ignore[k], file) {
      var k :| 0 <= k < |o.ignore| && !o.ignore[k].RegExp? && MatcherHits(env, o.ignore[k], file);
      assert MatcherHits(env, c.ignore[k], file);
    }
  }

  /** Some ignore rule matches the joined path of a child. */
  predicate Ignored(env: Env, o: Options, file: string)
  {
    exists k :: 0 <= k < |o.ignore| && MatcherHits(env, o.ignore[k], file)
  }

  /** The bare name of a child passes the name filter, if one is set. */
  predicate PassesFilter(env: Env, o: Options, name: string)
  {
    o.filter.None? || env.globMatch(o.filter.value, name)
  }

  /** A child survives the ignore rules and the name filter, so it is stat'ed. */
  predicate Admits(env: Env, o: Options, file: string, name: string)
  {
    !Ignored(env, o, file) && PassesFilter(env, o, name)
  }

  /** The entry pushed for an admitted child in the requested output mode. */
  function MakeEntry(o: Options, name: string, dir: string, file: string, isDir: bool): Entry
  {
    if o.stats then StatsEntry(name, dir, file, isDir) else PathEntry(file)
  }

  /** The frontier of directory paths made from a listing (readDir accepts records as paths). */
  function PathsOf(es: seq<Entry>): (ps: seq<string>)
    ensures |ps| == |es|
    ensures forall k :: 0 <= k < |es| ==> ps[k] == es[k].path
  {
    if es == [] then [] else [es[0].path] + PathsOf(es[1..])
  }

  /** The identity key of an entry: the path itself, or the record's `path`. */
  function KeysOf(es: seq<Entry>): set<string>
  {
    set e | e in es :: e.path
  }

  /** The same entries in plain mode: every record replaced by its path. */
  function Plain(es: seq<Entry>): (ps: seq<Entry>)
    ensures |ps| == |es|
    ensures forall k :: 0 <= k < |es| ==> ps[k] == PathEntry(es[k].path)
  {
    if es == [] then [] else [PathEntry(es[0].path)] + Plain(es[1..])
  }

  lemma PlainAppend(a: seq<Entry>, b: seq<Entry>)
    ensures Plain(a + b) == Plain(a) + Plain(b)
  {
  }
}
