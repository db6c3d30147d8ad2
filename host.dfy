/**
 * The collaborators the lister calls but does not implement: the filesystem
 * (fs.readdir and fs.stat), the platform path library and the glob matcher.
 */
module Host {
  import opened Outcomes

  /** What fs.readdir reports for one directory, with everything below it. */
  datatype Node =
    | Listing(children: seq<Child>)
    | ListError(error: FsError)

  /** One name returned by fs.readdir, with what fs.stat reports for it. */
  datatype Child = Child(name: string, stat: Stat)

  /** fs.stat of a child: a file, a directory (whose own listing is `contents`), or an error. */
  datatype Stat =
    | FileStat
    | DirStat(contents: Node)
    | StatError(error: FsError)

  /**
   * readdir: the listing of the directory at a path (a path that is not a
   *          directory lists as ListError);
   * join:    path.join;
   * segments: path.normalize followed by split on path.sep;
   * globMatch: new Minimatch(pattern).match(candidate).
   */
  datatype Env = Env(
    readdir: string -> Node,
    join: (string, string) -> string,
    segments: string -> seq<string>,
    globMatch: (string, string) -> bool)

  /**
   * An ignore rule: a glob string (compiled to a Minimatch), a RegExp, or a
   * predicate function; or what `clone` makes of a RegExp, a plain object
   * holding only `lastIndex`.
   */
  datatype Matcher =
    | Glob(pattern: string)
    | RegExp(test: string -> bool)
    | Predicate(call: string -> bool)
    | PlainObject

  predicate MatcherHits(env: Env, m: Matcher, file: string)
  {
    match m
    case Glob(p) => env.globMatch(p, file)
    case RegExp(t) => t(file)
    case Predicate(f) => f(file)
    case PlainObject => false
  }
}
