/** What readDir promises: which children it admits, the shape of its output, and its error policy. */
module DirectoryReaderFacts {
  import opened Outcomes
  import opened Host
  import opened Entries
  import opened Sorting
  import opened DirectoryReader

  /**
   * An entry readDir of `dir` may emit: its path passes every ignore rule; in
   * stats mode it is a record {name, dir, path} with path = join(dir, name),
   * its name passes the name filter, it is a file when reading recursively, a
   * directory under dirOnly, and a child of `dir` itself when not recursive.
   */
  predicate Emitted(env: Env, o: Options, dir: string, e: Entry)
  {
    && !Ignored(env, o, e.path)
    && if o.stats then
         && e.StatsEntry?
         && PassesFilter(env, o, e.name)
         && e.path == env.join(e.dir, e.name)
         && (o.recursive ==> !e.isDirectory)
         && (o.dirOnly ==> e.isDirectory)
         && (!o.recursive ==> e.dir == dir)
       else e.PathEntry?
  }

  predicate AllEmitted(env: Env, o: Options, dir: string, es: seq<Entry>)
  {
    forall e :: e in es ==> Emitted(env, o, dir, e)
  }

  /** The outcome of readDir: it always calls back, sorted, with admitted entries only, and never fails without stopOnErrors. */
  predicate WellShaped(env: Env, o: Options, dir: string, r: Outcome<seq<Entry>>)
  {
    && r != NoCompletion
    && (r.Ok? ==> Sorted(r.value) && AllEmitted(env, o, dir, r.value))
    && (!o.stopOnErrors ==> r.Ok?)
  }

  lemma SortKeepsEmitted(env: Env, o: Options, dir: string, acc: seq<Entry>)
    requires AllEmitted(env, o, dir, acc)
    ensures Sorted(Sort(acc)) && AllEmitted(env, o, dir, Sort(acc))
  {
    SortSorted(acc);
    forall e | e in Sort(acc)
      ensures Emitted(env, o, dir, e)
    {
      assert e in multiset(Sort(acc));
    }
  }

  /** readDir completes, emits only admitted entries of the requested shape, sorted, and fails only under stopOnErrors. */
  lemma {:induction false} ReadDirWellShaped(env: Env, dir: string, node: Node, o: Options)
    ensures WellShaped(env, o, dir, ReadDirSpec(env, dir, node, o))
    decreases node, 1
  {
    if node.Listing? {
      CollectWellShaped(env, dir, o, node, node.children, []);
    }
  }

  lemma {:induction false} CollectWellShaped(env: Env, dir: string, o: Options, parent: Node, cs: seq<Child>, acc: seq<Entry>)
    requires parent.Listing? && forall c :: c in cs ==> c in parent.children
    requires AllEmitted(env, o, dir, acc)
    ensures WellShaped(env, o, dir, CollectFrom(env, dir, o, parent, cs, acc))
    decreases parent, 0, |cs|
  {
    if cs == [] {
      SortKeepsEmitted(env, o, dir, acc);
    } else {
      var c := cs[0];
      var file := env.join(dir, c.name);
      if !Admits(env, o, file, c.name) {
        CollectWellShaped(env, dir, o, parent, cs[1..], acc);
      } else {
        match c.stat
        case StatError(e) =>
          CollectWellShaped(env, dir, o, parent, cs[1..], acc);
        case DirStat(sub) =>
          if o.recursive {
            assert c in parent.children;
            ReadDirWellShaped(env, file, sub, o);
            match ReadDirSpec(env, file, sub, o)
            case Err(e) =>
              CollectWellShaped(env, dir, o, parent, cs[1..], acc);
            case NoCompletion =>
            case Ok(found) =>
              CollectWellShaped(env, dir, o, parent, cs[1..], acc + found);
          } else {
            CollectWellShaped(env, dir, o, parent, cs[1..], acc + [MakeEntry(o, c.name, dir, file, true)]);
          }
        case FileStat =>
          if o.dirOnly {
            CollectWellShaped(env, dir, o, parent, cs[1..], acc);
          } else {
            CollectWellShaped(env, dir, o, parent, cs[1..], acc + [MakeEntry(o, c.name, dir, file, false)]);
          }
      }
    }
  }

  // ---------------------------------------------------------------------
  // Reference definitions: what a read returns, with the fan-in taken away.
  // ---------------------------------------------------------------------

  /** The entries a read of `dir` contributes, depth first in listing order, with every failure skipped. */
  function TreeEntries(env: Env, dir: string, node: Node, o: Options): seq<Entry>
    decreases node, 1
  {
    match node
    case ListError(_) => []
    case Listing(children) => ChildrenEntries(env, dir, o, node, children)
  }

  function ChildrenEntries(env: Env, dir: string, o: Options, parent: Node, cs: seq<Child>): seq<Entry>
    requires parent.Listing? && forall c :: c in cs ==> c in parent.children
    decreases parent, 0, |cs|
  {
    if cs == [] then []
    else
      assert cs[0] in parent.children;
      ChildEntries(env, dir, o, cs[0]) + ChildrenEntries(env, dir, o, parent, cs[1..])
  }

  /** An admitted directory is descended into (recursive) or listed; an admitted file is listed unless dirOnly. */
  function ChildEntries(env: Env, dir: string, o: Options, c: Child): seq<Entry>
    decreases c
  {
    var file := env.join(dir, c.name);
    if !Admits(env, o, file, c.name) then []
    else
      match c.stat
      case StatError(_) => []
      case DirStat(sub) =>
        if o.recursive then TreeEntries(env, file, sub, o) else [MakeEntry(o, c.name, dir, file, true)]
      case FileStat => if o.dirOnly then [] else [MakeEntry(o, c.name, dir, file, false)]
  }

  /** The first failure a read of `dir` meets, depth first in listing order; rejected children are never stat'ed. */
  function TreeFailure(env: Env, dir: string, node: Node, o: Options): Option<FsError>
    decreases node, 1
  {
    match node
    case ListError(e) => Some(e)
    case Listing(children) => ChildrenFailure(env, dir, o, node, children)
  }

  function ChildrenFailure(env: Env, dir: string, o: Options, parent: Node, cs: seq<Child>): Option<FsError>
    requires parent.Listing? && forall c :: c in cs ==> c in parent.children
    decreases parent, 0, |cs|
  {
    if cs == [] then None
    else
      assert cs[0] in parent.children;
      var f := ChildFailure(env, dir, o, cs[0]);
      if f.Some? then f else ChildrenFailure(env, dir, o, parent, cs[1..])
  }

  function ChildFailure(env: Env, dir: string, o: Options, c: Child): Option<FsError>
    decreases c
  {
    var file := env.join(dir, c.name);
    if !Admits(env, o, file, c.name) then None
    else
      match c.stat
      case StatError(e) => Some(e)
      case DirStat(sub) => if o.recursive then TreeFailure(env, file, sub, o) else None
      case FileStat => None
  }

  /**
   * Without stopOnErrors a read always succeeds, and what it returns is
   * exactly the admitted entries of the tree (as a multiset), sorted.
   */
  lemma ReadDirContents(env: Env, dir: string, node: Node, o: Options)
    requires !o.stopOnErrors
    ensures ReadDirSpec(env, dir, node, o).Ok?
    ensures Sorted(ReadDirSpec(env, dir, node, o).value)
    ensures multiset(ReadDirSpec(env, dir, node, o).value) == multiset(TreeEntries(env, dir, node, o))
  {
    ReadDirWellShaped(env, dir, node, o);
    ReadDirCollects(env, dir, node, o);
  }

  lemma {:induction false} ReadDirCollects(env: Env, dir: string, node: Node, o: Options)
    requires !o.stopOnErrors
    ensures ReadDirSpec(env, dir, node, o).Ok?
    ensures multiset(ReadDirSpec(env, dir, node, o).value) == multiset(TreeEntries(env, dir, node, o))
    decreases node, 3
  {
    if node.Listing? {
      CollectCollects(env, dir, o, node, node.children, []);
    }
  }

  lemma {:induction false} CollectCollects(env: Env, dir: string, o: Options, parent: Node, cs: seq<Child>, acc: seq<Entry>)
    requires !o.stopOnErrors
    requires parent.Listing? && forall c :: c in cs ==> c in parent.children
    ensures CollectFrom(env, dir, o, parent, cs, acc).Ok?
    ensures multiset(CollectFrom(env, dir, o, parent, cs, acc).value) == multiset(acc + ChildrenEntries(env, dir, o, parent, cs))
    decreases parent, 0, |cs|
  {
    if cs != [] {
      var c := cs[0];
      assert c in parent.children;
      VisitCollects(env, dir, o, c, acc);
      var acc' := VisitChild(env, dir, o, c, acc).acc;
      assert CollectFrom(env, dir, o, parent, cs, acc) == CollectFrom(env, dir, o, parent, cs[1..], acc');
      CollectCollects(env, dir, o, parent, cs[1..], acc');
      var mine, rest := ChildEntries(env, dir, o, c), ChildrenEntries(env, dir, o, parent, cs[1..]);
      assert ChildrenEntries(env, dir, o, parent, cs) == mine + rest;
      Regroup(acc, mine, rest, acc');
    }
  }

  lemma Regroup(acc: seq<Entry>, mine: seq<Entry>, rest: seq<Entry>, acc': seq<Entry>)
    requires multiset(acc') == multiset(acc + mine)
    ensures multiset(acc' + rest) == multiset(acc + (mine + rest))
  {
    assert acc + (mine + rest) == (acc + mine) + rest;
  }

  lemma VisitCollects(env: Env, dir: string, o: Options, c: Child, acc: seq<Entry>)
    requires !o.stopOnErrors
    ensures VisitChild(env, dir, o, c, acc).Continue?
    ensures multiset(VisitChild(env, dir, o, c, acc).acc) == multiset(acc + ChildEntries(env, dir, o, c))
    decreases c, 2
  {
    var file := env.join(dir, c.name);
    if c.stat.DirStat? && o.recursive && Admits(env, o, file, c.name) {
      ReadDirCollects(env, file, c.stat.contents, o);
    }
  }

  /**
   * Under stopOnErrors a read fails with the first failure it meets, and
   * otherwise returns what the read without stopOnErrors returns.
   */
  lemma {:induction false} ReadDirStops(env: Env, dir: string, node: Node, o: Options)
    requires o.stopOnErrors
    ensures ReadDirSpec(env, dir, node, o) ==
      match TreeFailure(env, dir, node, o)
      case Some(e) => Err(e)
      case None => ReadDirSpec(env, dir, node, o.(stopOnErrors := false))
    decreases node, 1
  {
    if node.Listing? {
      CollectStops(env, dir, o, node, node.children, []);
    }
  }

  lemma {:induction false} CollectStops(env: Env, dir: string, o: Options, parent: Node, cs: seq<Child>, acc: seq<Entry>)
    requires o.stopOnErrors
    requires parent.Listing? && forall c :: c in cs ==> c in parent.children
    ensures CollectFrom(env, dir, o, parent, cs, acc) ==
      match ChildrenFailure(env, dir, o, parent, cs)
      case Some(e) => Err(e)
      case None => CollectFrom(env, dir, o.(stopOnErrors := false), parent, cs, acc)
    decreases parent, 0, |cs|
  {
    if cs != [] {
      var c := cs[0];
      assert c in parent.children;
      var o' := o.(stopOnErrors := false);
      var file := env.join(dir, c.name);
      if c.stat.DirStat? && o.recursive && Admits(env, o, file, c.name) {
        ReadDirStops(env, file, c.stat.contents, o);
        ReadDirWellShaped(env, file, c.stat.contents, o');
      }
      if ChildFailure(env, dir, o, c).None? {
        assert VisitChild(env, dir, o, c, acc) == VisitChild(env, dir, o', c, acc);
        CollectStops(env, dir, o, parent, cs[1..], VisitChild(env, dir, o, c, acc).acc);
      }
    }
  }

  // ---------------------------------------------------------------------
  // Plain mode is stats mode with every record replaced by its path.
  // ---------------------------------------------------------------------

  function PlainOutcome(r: Outcome<seq<Entry>>): Outcome<seq<Entry>>
  {
    match r
    case Ok(es) => Ok(Plain(es))
    case Err(e) => Err(e)
    case NoCompletion => NoCompletion
  }

  function PlainVisit(v: Visit): Visit
  {
    match v
    case Continue(acc) => Continue(Plain(acc))
    case Stop(r) => Stop(PlainOutcome(r))
  }

  /** The stats option changes only the shape of the entries, never which paths are read, in what order, or which error wins. */
  lemma {:induction false} ReadDirModeIndependent(env: Env, dir: string, node: Node, o: Options)
    requires o.stats
    ensures ReadDirSpec(env, dir, node, o.(stats := false)) == PlainOutcome(ReadDirSpec(env, dir, node, o))
    decreases node, 3
  {
    if node.Listing? {
      CollectModeIndependent(env, dir, o, node, node.children, []);
    }
  }

  lemma {:induction false} CollectModeIndependent(env: Env, dir: string, o: Options, parent: Node, cs: seq<Child>, acc: seq<Entry>)
    requires o.stats
    requires parent.Listing? && forall c :: c in cs ==> c in parent.children
    ensures CollectFrom(env, dir, o.(stats := false), parent, cs, Plain(acc)) == PlainOutcome(CollectFrom(env, dir, o, parent, cs, acc))
    decreases parent, 0, |cs|
  {
    if cs == [] {
      SortPlain(acc);
    } else {
      var c := cs[0];
      assert c in parent.children;
      VisitModeIndependent(env, dir, o, c, acc);
      var v := VisitChild(env, dir, o, c, acc);
      if v.Continue? {
        CollectModeIndependent(env, dir, o, parent, cs[1..], v.acc);
      }
    }
  }

  lemma VisitModeIndependent(env: Env, dir: string, o: Options, c: Child, acc: seq<Entry>)
    requires o.stats
    ensures VisitChild(env, dir, o.(stats := false), c, Plain(acc)) == PlainVisit(VisitChild(env, dir, o, c, acc))
    decreases c, 2
  {
    if Admits(env, o, env.join(dir, c.name), c.name) && c.stat.DirStat? && o.recursive {
      DescentModeIndependent(env, dir, o, c, acc);
    } else {
      LeafModeIndependent(env, dir, o, c, acc);
    }
  }

  /** A child that is not descended into: a rejected one, a failed stat, a file, or a directory without recursion. */
  lemma LeafModeIndependent(env: Env, dir: string, o: Options, c: Child, acc: seq<Entry>)
    requires o.stats && !(Admits(env, o, env.join(dir, c.name), c.name) && c.stat.DirStat? && o.recursive)
    ensures VisitChild(env, dir, o.(stats := false), c, Plain(acc)) == PlainVisit(VisitChild(env, dir, o, c, acc))
  {
    var file := env.join(dir, c.name);
    if Admits(env, o, file, c.name) {
      if c.stat.DirStat? {
        PlainAppend(acc, [MakeEntry(o, c.name, dir, file, true)]);
      } else if c.stat.FileStat? {
        PlainAppend(acc, [MakeEntry(o, c.name, dir, file, false)]);
      }
    }
  }

  lemma DescentModeIndependent(env: Env, dir: string, o: Options, c: Child, acc: seq<Entry>)
    requires o.stats && o.recursive && c.stat.DirStat? && Admits(env, o, env.join(dir, c.name), c.name)
    ensures VisitChild(env, dir, o.(stats := false), c, Plain(acc)) == PlainVisit(VisitChild(env, dir, o, c, acc))
    decreases c, 1
  {
    var file := env.join(dir, c.name);
    ReadDirModeIndependent(env, file, c.stat.contents, o);
    var found := ReadDirSpec(env, file, c.stat.contents, o);
    if found.Ok? {
      PlainAppend(acc, found.value);
    }
  }

  // ---------------------------------------------------------------------
  // Children that do not count: rejected ones are never stat'ed.
  // ---------------------------------------------------------------------

  /**
   * A child that leaves the results alone: rejected by an ignore rule or the
   * name filter, a failed stat without stopOnErrors, or a file under dirOnly.
   */
  predicate Inert(env: Env, dir: string, o: Options, c: Child)
  {
    var file := env.join(dir, c.name);
    || !Admits(env, o, file, c.name)
    || (c.stat.StatError? && !o.stopOnErrors)
    || (c.stat.FileStat? && o.dirOnly)
  }

  lemma {:induction false} CollectParentFree(env: Env, dir: string, o: Options, p1: Node, p2: Node, cs: seq<Child>, acc: seq<Entry>)
    requires p1.Listing? && forall c :: c in cs ==> c in p1.children
    requires p2.Listing? && forall c :: c in cs ==> c in p2.children
    ensures CollectFrom(env, dir, o, p1, cs, acc) == CollectFrom(env, dir, o, p2, cs, acc)
    decreases |cs|
  {
    if cs != [] {
      assert cs[0] in p1.children && cs[0] in p2.children;
      var v := VisitChild(env, dir, o, cs[0], acc);
      if v.Continue? {
        CollectParentFree(env, dir, o, p1, p2, cs[1..], v.acc);
      }
    }
  }

  lemma {:induction false} CollectSkipsInert(env: Env, dir: string, o: Options, p1: Node, p2: Node,
                                             cs1: seq<Child>, c: Child, cs2: seq<Child>, acc: seq<Entry>)
    requires p1.Listing? && forall x :: x in cs1 + [c] + cs2 ==> x in p1.children
    requires p2.Listing? && forall x :: x in cs1 + cs2 ==> x in p2.children
    requires Inert(env, dir, o, c)
    ensures CollectFrom(env, dir, o, p1, cs1 + [c] + cs2, acc) == CollectFrom(env, dir, o, p2, cs1 + cs2, acc)
    decreases |cs1|
  {
    if cs1 == [] {
      assert cs1 + [c] + cs2 == [c] + cs2 && cs1 + cs2 == cs2;
      assert ([c] + cs2)[1..] == cs2;
      CollectParentFree(env, dir, o, p1, p2, cs2, acc);
    } else {
      var d := cs1[0];
      assert (cs1 + [c] + cs2)[0] == d && (cs1 + cs2)[0] == d;
      assert (cs1 + [c] + cs2)[1..] == cs1[1..] + [c] + cs2;
      assert (cs1 + cs2)[1..] == cs1[1..] + cs2;
      var v := VisitChild(env, dir, o, d, acc);
      if v.Continue? {
        CollectSkipsInert(env, dir, o, p1, p2, cs1[1..], c, cs2, v.acc);
      }
    }
  }

  /** Taking an inert child out of a listing leaves the outcome of the read unchanged. */
  lemma ReadDirSkipsInert(env: Env, dir: string, o: Options, children: seq<Child>, i: nat)
    requires i < |children| && Inert(env, dir, o, children[i])
    ensures ReadDirSpec(env, dir, Listing(children), o) == ReadDirSpec(env, dir, Listing(children[..i] + children[i + 1..]), o)
  {
    assert children == children[..i] + [children[i]] + children[i + 1..];
    CollectSkipsInert(env, dir, o, Listing(children), Listing(children[..i] + children[i + 1..]),
                      children[..i], children[i], children[i + 1..], []);
  }

  /**
   * A child rejected by an ignore rule or the name filter is never stat'ed
   * nor descended into: whatever lies below it, the outcome is the same.
   */
  lemma ReadDirNeverVisitsRejected(env: Env, dir: string, o: Options, children: seq<Child>, i: nat, other: Stat)
    requires i < |children| && !Admits(env, o, env.join(dir, children[i].name), children[i].name)
    ensures ReadDirSpec(env, dir, Listing(children), o) ==
            ReadDirSpec(env, dir, Listing(children[i := Child(children[i].name, other)]), o)
  {
    var changed := children[i := Child(children[i].name, other)];
    ReadDirSkipsInert(env, dir, o, children, i);
    ReadDirSkipsInert(env, dir, o, changed, i);
    assert changed[..i] + changed[i + 1..] == children[..i] + children[i + 1..];
  }
}
