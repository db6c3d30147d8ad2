/**
 * readDir: lists one directory, filters its children, stats the survivors,
 * descends into subdirectories when `recursive` is set, and fans the results
 * back in once every child is accounted for.
 */
module DirectoryReader {
  import opened Outcomes
  import opened Host
  import opened Entries
  import opened Sorting

  /** What readDir delivers for directory `dir`, whose listing is `node`. */
  function ReadDirSpec(env: Env, dir: string, node: Node, o: Options): Outcome<seq<Entry>>
    decreases node, 1
  {
    match node
    case ListError(e) => if o.stopOnErrors then Err(e) else Ok([])
    case Listing(children) => CollectFrom(env, dir, o, node, children, [])
  }

  /** After one child is accounted for: carry on with these results, or call back now with this outcome. */
  datatype Visit = Continue(acc: seq<Entry>) | Stop(outcome: Outcome<seq<Entry>>)

  /**
   * The fan-in over the children `cs` still to be accounted for (a suffix of
   * `parent`'s listing), with the results gathered so far in `acc`; the first
   * failure under stopOnErrors ends the call.
   */
  function CollectFrom(env: Env, dir: string, o: Options, parent: Node, cs: seq<Child>, acc: seq<Entry>): Outcome<seq<Entry>>
    requires parent.Listing? && forall c :: c in cs ==> c in parent.children
    decreases parent, 0, |cs|
  {
    if cs == [] then Ok(Sort(acc))
    else
      assert cs[0] in parent.children;
      match VisitChild(env, dir, o, cs[0], acc)
      case Continue(acc') => CollectFrom(env, dir, o, parent, cs[1..], acc')
      case Stop(r) => r
  }

  /**
   * One child of `dir`: skipped when an ignore rule matches its joined path or
   * its name fails the filter; otherwise stat'ed, and then descended into
   * (a directory when recursive), pushed, or dropped.
   */
  function VisitChild(env: Env, dir: string, o: Options, c: Child, acc: seq<Entry>): Visit
    decreases c
  {
    var file := env.join(dir, c.name);
    if !Admits(env, o, file, c.name) then Continue(acc)
    else
      match c.stat
      case StatError(e) =>
        if o.stopOnErrors then Stop(Err(e)) else Continue(acc)
      case DirStat(sub) =>
        if o.recursive then
          match ReadDirSpec(env, file, sub, o)
          case Err(e) => if o.stopOnErrors then Stop(Err(e)) else Continue(acc)
          case NoCompletion => Stop(NoCompletion)
          case Ok(found) => Continue(acc + found)
        else Continue(acc + [MakeEntry(o, c.name, dir, file, true)])
      case FileStat =>
        if o.dirOnly then Continue(acc) else Continue(acc + [MakeEntry(o, c.name, dir, file, false)])
  }

  /** readDir, one child at a time: `results` grows by push and concat, and is sorted at the end. */
  method ReadDir(env: Env, dir: string, node: Node, o: Options) returns (r: Outcome<seq<Entry>>)
    ensures r == ReadDirSpec(env, dir, node, o)
    decreases node
  {
    if node.ListError? {
      if o.stopOnErrors {
        return Err(node.error);
      }
      return Ok([]);
    }
    var children := node.children;
    var results: seq<Entry> := [];
    var i := 0;
    while i < |children|
      invariant 0 <= i <= |children|
      invariant CollectFrom(env, dir, o, node, children[i..], results) == ReadDirSpec(env, dir, node, o)
    {
      var c := children[i];
      var file := env.join(dir, c.name);
      assert children[i..][1..] == children[i + 1..];
      if Admits(env, o, file, c.name) {
        match c.stat {
          case StatError(e) =>
            if o.stopOnErrors {
              return Err(e);
            }
          case DirStat(sub) =>
            if o.recursive {
              assert c in node.children;
              var found := ReadDir(env, file, sub, o);
              match found {
                case Err(e) =>
                  if o.stopOnErrors {
                    return found;
                  }
                case NoCompletion =>
                  return NoCompletion;
                case Ok(fs) =>
                  results := results + fs;
              }
            } else {
              results := results + [MakeEntry(o, c.name, dir, file, true)];
            }
          case FileStat =>
            if !o.dirOnly {
              results := results + [MakeEntry(o, c.name, dir, file, false)];
            }
        }
      }
      i := i + 1;
    }
    var sorted := SortEntries(results);
    r := Ok(sorted);
  }
}
