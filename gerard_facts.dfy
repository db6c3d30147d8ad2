/** What gerard promises about its single callback. */
module GerardFacts {
  import opened Outcomes
  import opened Host
  import opened Entries
  import opened Sorting
  import opened Uniq
  import opened DirectoryReader
  import opened DirectoryReaderFacts
  import opened PatternResolver
  import opened PatternFacts
  import opened Gerard

  /** The results of every input that succeeds, from index `i` on, concatenated in input order. */
  function Gathered(rs: seq<Outcome<seq<Entry>>>, i: nat): seq<Entry>
    requires i <= |rs|
    decreases |rs| - i
  {
    if i == |rs| then []
    else (if rs[i].Ok? then rs[i].value else []) + Gathered(rs, i + 1)
  }

  /** The failure of the first input, from index `i` on, that fails. */
  function FirstInputError(rs: seq<Outcome<seq<Entry>>>, i: nat): Option<FsError>
    requires i <= |rs|
    decreases |rs| - i
  {
    if i == |rs| then None
    else if rs[i].Err? then Some(rs[i].error) else FirstInputError(rs, i + 1)
  }

  /** Every input from index `i` on calls back, and none fails under stopOnErrors. */
  predicate AllSucceedFrom(rs: seq<Outcome<seq<Entry>>>, i: nat, o: Options)
    requires i <= |rs|
  {
    forall k :: i <= k < |rs| ==> rs[k] != NoCompletion && (o.stopOnErrors ==> !rs[k].Err?)
  }

  /** Entries of the shape the stats option asks for. */
  predicate Shaped(o: Options, es: seq<Entry>)
  {
    forall e :: e in es ==> (o.stats <==> e.StatsEntry?)
  }

  /** Every successful input returned entries of the requested shape. */
  predicate AllShaped(o: Options, rs: seq<Outcome<seq<Entry>>>)
  {
    forall k :: 0 <= k < |rs| && rs[k].Ok? ==> Shaped(o, rs[k].value)
  }

  /** Each input fails only under stopOnErrors, and returns entries of the requested shape. */
  lemma InputShape(env: Env, p: string, o: Options)
    ensures !o.stopOnErrors ==> !ReadInput(env, p, o).Err?
    ensures ReadInput(env, p, o).Ok? ==> Shaped(o, ReadInput(env, p, o).value)
  {
    if IsPattern(p) {
      ReadPatternShape(env, p, o);
    } else {
      ReadDirWellShaped(env, p, env.readdir(p), o);
    }
  }

  /** Every input of a call returns entries of the requested shape. */
  lemma InputsShaped(env: Env, inputs: seq<string>, o: Options)
    ensures AllShaped(o, ReadInputs(env, inputs, o))
  {
    var rs := ReadInputs(env, inputs, o);
    forall k | 0 <= k < |rs| && rs[k].Ok?
      ensures Shaped(o, rs[k].value)
    {
      InputShape(env, inputs[k], o);
    }
  }

  lemma ShapedAppend(o: Options, a: seq<Entry>, b: seq<Entry>)
    requires Shaped(o, a) && Shaped(o, b)
    ensures Shaped(o, a + b)
  {
  }

  lemma ShapedPlain(o: Options, es: seq<Entry>)
    requires Shaped(o, es) && !o.stats
    ensures AllPlain(es)
  {
    forall k | 0 <= k < |es|
      ensures es[k].PathEntry?
    {
      assert es[k] in es;
    }
  }

  lemma {:induction false} GatherCompletes(rs: seq<Outcome<seq<Entry>>>, i: nat, o: Options, acc: seq<Entry>, pending: bool)
    requires i <= |rs|
    ensures GatherFrom(rs, i, o, acc, pending).Ok? <==> !pending && AllSucceedFrom(rs, i, o)
    decreases |rs| - i
  {
    if i < |rs| {
      var acc' := if rs[i].Ok? then acc + rs[i].value else acc;
      GatherCompletes(rs, i + 1, o, acc', pending || rs[i] == NoCompletion);
    }
  }

  lemma {:induction false} GatherValue(rs: seq<Outcome<seq<Entry>>>, i: nat, o: Options, acc: seq<Entry>, pending: bool)
    requires i <= |rs| && Shaped(o, acc) && AllShaped(o, rs)
    ensures var r := GatherFrom(rs, i, o, acc, pending);
      r.Ok? ==> r.value == Sort(Dedup(acc + Gathered(rs, i)))
    decreases |rs| - i
  {
    if i == |rs| {
      if !o.stats {
        ShapedPlain(o, acc);
      }
      UniqByFacts(acc, o.stats);
      assert acc + [] == acc;
    } else {
      var mine := if rs[i].Ok? then rs[i].value else [];
      var acc' := acc + mine;
      if !rs[i].Ok? {
        assert acc' == acc;
      }
      ShapedAppend(o, acc, mine);
      GatherValue(rs, i + 1, o, acc', pending || rs[i] == NoCompletion);
      assert acc + (mine + Gathered(rs, i + 1)) == acc' + Gathered(rs, i + 1);
    }
  }

  lemma {:induction false} GatherFails(rs: seq<Outcome<seq<Entry>>>, i: nat, o: Options, acc: seq<Entry>, pending: bool)
    requires i <= |rs|
    ensures var r := GatherFrom(rs, i, o, acc, pending);
      && (o.stopOnErrors && FirstInputError(rs, i).Some? ==> r == Err(FirstInputError(rs, i).value))
      && (r.Err? ==> o.stopOnErrors && FirstInputError(rs, i) == Some(r.error))
    decreases |rs| - i
  {
    if i < |rs| {
      var acc' := if rs[i].Ok? then acc + rs[i].value else acc;
      GatherFails(rs, i + 1, o, acc', pending || rs[i] == NoCompletion);
    }
  }

  /** Everything gerard's inputs returned, in input order. */
  function Found(env: Env, arg: PathArg, s: Settings): seq<Entry>
  {
    Gathered(ReadInputs(env, Inputs(arg), Defaults(s)), 0)
  }

  /**
   * gerard with no inputs never calls back; it succeeds exactly when every
   * input calls back and (under stopOnErrors) none fails; a success lists
   * every path the inputs returned, once each, sorted; under stopOnErrors
   * the first failing input's error is reported, and without it gerard
   * never reports one.
   */
  lemma GerardFacts(env: Env, arg: PathArg, s: Settings)
    ensures var o, inputs, r := Defaults(s), Inputs(arg), GerardSpec(env, arg, s);
      var rs := ReadInputs(env, inputs, o);
      && (inputs == [] ==> r == NoCompletion)
      && (r.Ok? <==> inputs != [] && AllSucceedFrom(rs, 0, o))
      && (r.Ok? ==> Sorted(r.value) && NoDuplicateKeys(r.value) && KeysOf(r.value) == KeysOf(Found(env, arg, s)))
      && (r.Ok? ==> Shaped(o, r.value))
      && (o.stopOnErrors && FirstInputError(rs, 0).Some? ==> r == Err(FirstInputError(rs, 0).value))
      && (r.Err? ==> o.stopOnErrors && FirstInputError(rs, 0) == Some(r.error))
  {
    var o, inputs := Defaults(s), Inputs(arg);
    if inputs != [] {
      var rs := ReadInputs(env, inputs, o);
      InputsShaped(env, inputs, o);
      GatherCompletes(rs, 0, o, [], false);
      GatherSuccess(rs, o);
      GatherFails(rs, 0, o, [], false);
    }
  }

  /** A successful fan-in is sorted, has no path twice, loses no path and keeps the requested shape. */
  lemma GatherSuccess(rs: seq<Outcome<seq<Entry>>>, o: Options)
    requires AllShaped(o, rs)
    ensures var r := GatherFrom(rs, 0, o, [], false);
      r.Ok? ==> Sorted(r.value) && NoDuplicateKeys(r.value) && KeysOf(r.value) == KeysOf(Gathered(rs, 0)) && Shaped(o, r.value)
  {
    GatherValue(rs, 0, o, [], false);
    var r := GatherFrom(rs, 0, o, [], false);
    if r.Ok? {
      var all := Gathered(rs, 0);
      var d := Dedup(all);
      assert [] + all == all;
      DedupFacts(all);
      SortSorted(d);
      SortKeepsKeys(d);
      GatheredShaped(rs, 0, o);
      KeptMembers(all, |all|, {});
      forall e | e in r.value
        ensures o.stats <==> e.StatsEntry?
      {
        assert e in multiset(Sort(d));
        assert e in all;
      }
    }
  }

  /** Sorting keeps the entries, so it keeps their paths distinct and keeps every path. */
  lemma SortKeepsKeys(s: seq<Entry>)
    requires NoDuplicateKeys(s)
    ensures NoDuplicateKeys(Sort(s)) && KeysOf(Sort(s)) == KeysOf(s)
  {
    var t := Sort(s);
    forall e | e in t
      ensures e in s
    {
      assert e in multiset(t);
    }
    forall e | e in s
      ensures e in t
    {
      assert e in multiset(s);
    }
    forall i, j | 0 <= i < j < |t|
      ensures t[i].path != t[j].path
    {
      if t[i].path == t[j].path {
        DistinctPathsDistinctEntries(s, t[i], t[j]);
        CountedTwice(t, i, j);
        CountAtMostOne(s, t[i]);
      }
    }
  }

  lemma CountedTwice(t: seq<Entry>, i: nat, j: nat)
    requires i < j < |t| && t[i] == t[j]
    ensures multiset(t)[t[i]] >= 2
  {
    assert t == t[..j] + [t[j]] + t[j + 1..];
    assert t[i] in t[..j];
  }

  lemma DistinctPathsDistinctEntries(s: seq<Entry>, a: Entry, b: Entry)
    requires NoDuplicateKeys(s) && a in s && b in s && a.path == b.path
    ensures a == b
  {
    var i :| 0 <= i < |s| && s[i] == a;
    var j :| 0 <= j < |s| && s[j] == b;
  }

  /** Without two entries sharing a path, no entry occurs twice. */
  lemma {:induction false} CountAtMostOne(s: seq<Entry>, e: Entry)
    requires NoDuplicateKeys(s)
    ensures multiset(s)[e] <= 1
  {
    if s != [] {
      assert s == [s[0]] + s[1..];
      assert NoDuplicateKeys(s[1..]) by {
        forall i, j | 0 <= i < j < |s[1..]|
          ensures s[1..][i].path != s[1..][j].path
        {
          assert s[1..][i] == s[i + 1] && s[1..][j] == s[j + 1];
        }
      }
      CountAtMostOne(s[1..], e);
      if s[0] == e {
        assert e !in s[1..] by {
          forall k | 0 <= k < |s[1..]|
            ensures s[1..][k] != e
          {
            assert s[1..][k] == s[k + 1];
          }
        }
      }
    }
  }

  /** Two sorted plain listings without repeats and with the same paths are the same listing. */
  lemma PlainDeterminedByKeys(v: seq<Entry>, w: seq<Entry>)
    requires AllPlain(v) && AllPlain(w) && Sorted(v) && Sorted(w)
    requires NoDuplicateKeys(v) && NoDuplicateKeys(w) && KeysOf(v) == KeysOf(w)
    ensures v == w
  {
    forall e
      ensures multiset(v)[e] == multiset(w)[e]
    {
      CountAtMostOne(v, e);
      CountAtMostOne(w, e);
      if e in v {
        PlainTwin(v, w, e);
      } else if e in w {
        PlainTwin(w, v, e);
      }
    }
    assert multiset(v) == multiset(w);
    SortedPermutationUnique(v, w);
  }

  lemma PlainTwin(v: seq<Entry>, w: seq<Entry>, e: Entry)
    requires AllPlain(v) && AllPlain(w) && KeysOf(v) == KeysOf(w) && e in v
    ensures e in w
  {
    assert e.path in KeysOf(w);
    var x :| x in w && x.path == e.path;
    var i :| 0 <= i < |v| && v[i] == e;
    var j :| 0 <= j < |w| && w[j] == x;
  }

  lemma {:induction false} GatheredShaped(rs: seq<Outcome<seq<Entry>>>, i: nat, o: Options)
    requires i <= |rs| && AllShaped(o, rs)
    ensures Shaped(o, Gathered(rs, i))
    decreases |rs| - i
  {
    if i < |rs| {
      GatheredShaped(rs, i + 1, o);
    }
  }

  lemma {:induction false} KeptMembers(s: seq<Entry>, n: nat, inherited: set<string>)
    requires n <= |s|
    ensures forall e :: e in KeptUpTo(s, n, inherited) ==> e in s
  {
    if n > 0 {
      KeptMembers(s, n - 1, inherited);
    }
  }

  /**
   * In plain mode a success is the one sorted listing, without repeats, of
   * the paths the inputs returned: neither the order of the inputs nor
   * repeated paths change it.
   */
  lemma GerardPlainCanonical(env: Env, arg: PathArg, s: Settings, w: seq<Entry>)
    requires !s.stats && GerardSpec(env, arg, s).Ok?
    requires AllPlain(w) && Sorted(w) && NoDuplicateKeys(w)
    requires KeysOf(w) == KeysOf(Found(env, arg, s))
    ensures GerardSpec(env, arg, s).value == w
  {
    GerardFacts(env, arg, s);
    var v := GerardSpec(env, arg, s).value;
    ShapedPlain(Defaults(s), v);
    PlainDeterminedByKeys(v, w);
  }

  /** In plain mode, two calls whose inputs return the same paths succeed with the same listing. */
  lemma GerardPlainOrderFree(env: Env, arg1: PathArg, arg2: PathArg, s: Settings)
    requires !s.stats && GerardSpec(env, arg1, s).Ok? && GerardSpec(env, arg2, s).Ok?
    requires KeysOf(Found(env, arg1, s)) == KeysOf(Found(env, arg2, s))
    ensures GerardSpec(env, arg1, s) == GerardSpec(env, arg2, s)
  {
    var w := GerardSpec(env, arg2, s).value;
    GerardFacts(env, arg2, s);
    ShapedPlain(Defaults(s), w);
    GerardPlainCanonical(env, arg2, s, w);
    GerardPlainCanonical(env, arg1, s, w);
  }
}
