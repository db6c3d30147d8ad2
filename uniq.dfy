/**
 * `uniq(array, stats)`: drops every entry whose key (the string itself in
 * plain mode, `path` in stats mode) an earlier entry already has.
 */
module Uniq {
  import opened Entries
  import opened Search

  /** No two entries of `r` share a path. */
  predicate NoDuplicateKeys(r: seq<Entry>)
  {
    forall i, j :: 0 <= i < j < |r| ==> r[i].path != r[j].path
  }

  /** Entry `i` is the first with its path, and its path is not one of the `inherited` keys. */
  predicate FirstOfKey(s: seq<Entry>, i: nat, inherited: set<string>)
    requires i < |s|
  {
    s[i].path !in inherited && s[i].path !in KeysOf(s[..i])
  }

  /** The first `n` entries of `s`, keeping only those that are first with their key. */
  function KeptUpTo(s: seq<Entry>, n: nat, inherited: set<string>): seq<Entry>
    requires n <= |s|
  {
    if n == 0 then []
    else KeptUpTo(s, n - 1, inherited) + (if FirstOfKey(s, n - 1, inherited) then [s[n - 1]] else [])
  }

  /** Deduplication by path: the first entry of each path, in input order. */
  function Dedup(s: seq<Entry>): seq<Entry>
  {
    KeptUpTo(s, |s|, {})
  }

  /** The stats branch: a `unique` dictionary of paths seen so far and a `results` list it pushes onto. */
  method UniqStats(s: seq<Entry>) returns (results: seq<Entry>)
    ensures results == Dedup(s)
  {
    var unique: map<string, int> := map[];
    results := [];
    for i := 0 to |s|
      invariant unique.Keys == KeysOf(s[..i])
      invariant forall p :: p in unique ==> unique[p] == 1
      invariant results == KeptUpTo(s, i, {})
    {
      UniqStep(s, i);
      if s[i].path in unique && unique[s[i].path] != 0 {
        continue;
      }
      unique := unique[s[i].path := 1];
      results := results + [s[i]];
    }
    assert s[..|s|] == s;
  }

  /** One more entry: its path joins the keys seen, and it is kept exactly when the path is new. */
  lemma UniqStep(s: seq<Entry>, i: nat)
    requires i < |s|
    ensures KeysOf(s[..i + 1]) == KeysOf(s[..i]) + {s[i].path}
    ensures KeptUpTo(s, i + 1, {}) == KeptUpTo(s, i, {}) + (if s[i].path in KeysOf(s[..i]) then [] else [s[i]])
  {
    assert s[..i + 1] == s[..i] + [s[i]];
    KeysOfSnoc(s[..i], s[i]);
  }

  lemma KeysOfSnoc(a: seq<Entry>, x: Entry)
    ensures KeysOf(a + [x]) == KeysOf(a) + {x.path}
  {
    assert forall e :: e in a + [x] <==> e in a || e == x;
  }

  /** Removing duplicates loses no path, apart from the inherited keys. */
  lemma {:induction false} KeptKeys(s: seq<Entry>, n: nat, inherited: set<string>)
    requires n <= |s|
    ensures KeysOf(KeptUpTo(s, n, inherited)) == KeysOf(s[..n]) - inherited
  {
    if n > 0 {
      KeptKeys(s, n - 1, inherited);
      assert s[..n] == s[..n - 1] + [s[n - 1]];
      KeysOfSnoc(s[..n - 1], s[n - 1]);
      if FirstOfKey(s, n - 1, inherited) {
        KeysOfSnoc(KeptUpTo(s, n - 1, inherited), s[n - 1]);
      } else {
        assert KeptUpTo(s, n, inherited) == KeptUpTo(s, n - 1, inherited);
      }
    }
  }

  /** Removing duplicates leaves distinct paths. */
  lemma {:induction false} KeptDistinct(s: seq<Entry>, n: nat, inherited: set<string>)
    requires n <= |s|
    ensures NoDuplicateKeys(KeptUpTo(s, n, inherited))
  {
    if n > 0 {
      KeptDistinct(s, n - 1, inherited);
      if FirstOfKey(s, n - 1, inherited) {
        KeptKeys(s, n - 1, inherited);
        var r := KeptUpTo(s, n - 1, inherited);
        var r' := r + [s[n - 1]];
        forall i, j | 0 <= i < j < |r'|
          ensures r'[i].path != r'[j].path
        {
          if j == |r| {
            assert r'[i] == r[i];
            assert r[i].path in KeysOf(r);
          } else {
            assert r'[i] == r[i] && r'[j] == r[j];
          }
        }
      }
    }
  }

  lemma KeptUpToFacts(s: seq<Entry>, n: nat, inherited: set<string>)
    requires n <= |s|
    ensures NoDuplicateKeys(KeptUpTo(s, n, inherited))
    ensures KeysOf(KeptUpTo(s, n, inherited)) == KeysOf(s[..n]) - inherited
  {
    KeptDistinct(s, n, inherited);
    KeptKeys(s, n, inherited);
  }

  /** uniq's stats branch: no path twice, and every input path still present. */
  lemma DedupFacts(s: seq<Entry>)
    ensures NoDuplicateKeys(Dedup(s))
    ensures KeysOf(Dedup(s)) == KeysOf(s)
  {
    KeptUpToFacts(s, |s|, {});
    assert s[..|s|] == s;
  }

  /**
   * The kept entries are exactly the first occurrences of their paths, in
   * input order: `idx` lists their positions in the input, increasing.
   */
  lemma {:induction false} KeptAreFirstOccurrences(s: seq<Entry>, n: nat) returns (idx: seq<nat>)
    requires n <= |s|
    ensures |idx| == |KeptUpTo(s, n, {})|
    ensures forall k :: 0 <= k < |idx| ==> idx[k] < n && FirstOfKey(s, idx[k], {}) && KeptUpTo(s, n, {})[k] == s[idx[k]]
    ensures forall a, b :: 0 <= a < b < |idx| ==> idx[a] < idx[b]
    ensures forall i :: 0 <= i < n && FirstOfKey(s, i, {}) ==> i in idx
  {
    if n == 0 {
      idx := [];
    } else {
      var before := KeptAreFirstOccurrences(s, n - 1);
      var kept := KeptUpTo(s, n - 1, {});
      if FirstOfKey(s, n - 1, {}) {
        idx := before + [n - 1];
        assert KeptUpTo(s, n, {}) == kept + [s[n - 1]];
        forall k | 0 <= k < |idx|
          ensures idx[k] < n && FirstOfKey(s, idx[k], {}) && KeptUpTo(s, n, {})[k] == s[idx[k]]
        {
          if k < |before| {
            assert idx[k] == before[k];
          }
        }
      } else {
        idx := before;
        assert KeptUpTo(s, n, {}) == kept;
      }
    }
  }

  /** uniq keeps the first entry of every path and drops the rest, without reordering. */
  lemma DedupIsFirstOccurrences(s: seq<Entry>) returns (idx: seq<nat>)
    ensures |idx| == |Dedup(s)|
    ensures forall k :: 0 <= k < |idx| ==> idx[k] < |s| && FirstOfKey(s, idx[k], {}) && Dedup(s)[k] == s[idx[k]]
    ensures forall a, b :: 0 <= a < b < |idx| ==> idx[a] < idx[b]
    ensures forall i :: 0 <= i < |s| && FirstOfKey(s, i, {}) ==> i in idx
  {
    idx := KeptAreFirstOccurrences(s, |s|);
  }

  /** `array.filter((item, index) => array.indexOf(item) === index)` over the first `n` items. */
  function FilterFirstIndex(s: seq<Entry>, n: nat): seq<Entry>
    requires n <= |s|
  {
    if n == 0 then []
    else FilterFirstIndex(s, n - 1) + (if IndexOf(s, s[n - 1]) == n - 1 then [s[n - 1]] else [])
  }

  /** The plain branch of uniq. */
  function UniqPlain(s: seq<Entry>): seq<Entry>
  {
    FilterFirstIndex(s, |s|)
  }

  /** uniq: the plain branch or the stats branch, as the mode selects. */
  function UniqBy(s: seq<Entry>, stats: bool): seq<Entry>
  {
    if stats then Dedup(s) else UniqPlain(s)
  }

  predicate AllPlain(s: seq<Entry>)
  {
    forall k :: 0 <= k < |s| ==> s[k].PathEntry?
  }

  /** For plain entries, "indexOf finds this position" and "no earlier entry has this path" agree. */
  lemma FirstIndexIsFirstKey(s: seq<Entry>, i: nat)
    requires i < |s| && AllPlain(s)
    ensures IndexOf(s, s[i]) == i <==> FirstOfKey(s, i, {})
  {
    var x := s[i];
    IndexOfAtMost(s, x, i);
    var k := IndexOf(s, x);
    if k == i {
      forall e | e in s[..i]
        ensures e.path != x.path
      {
        var m :| 0 <= m < i && s[m] == e;
        assert e != x;
      }
    } else {
      assert s[..i][k] == x;
    }
  }

  lemma {:induction false} FilterFirstIndexIsKept(s: seq<Entry>, n: nat)
    requires n <= |s| && AllPlain(s)
    ensures FilterFirstIndex(s, n) == KeptUpTo(s, n, {})
  {
    if n > 0 {
      FilterFirstIndexIsKept(s, n - 1);
      FilterFirstIndexStep(s, n);
      var tail := if FirstOfKey(s, n - 1, {}) then [s[n - 1]] else [];
      assert KeptUpTo(s, n, {}) == KeptUpTo(s, n - 1, {}) + tail;
    }
  }

  /** One more plain entry: filter/indexOf keeps it exactly when it is the first with its path. */
  lemma FilterFirstIndexStep(s: seq<Entry>, n: nat)
    requires 0 < n <= |s| && AllPlain(s)
    ensures FilterFirstIndex(s, n) == FilterFirstIndex(s, n - 1) + (if FirstOfKey(s, n - 1, {}) then [s[n - 1]] else [])
  {
    FirstIndexIsFirstKey(s, n - 1);
  }

  /** In plain mode, filter/indexOf and the dictionary loop keep the same entries. */
  lemma UniqPlainIsDedup(s: seq<Entry>)
    requires AllPlain(s)
    ensures UniqPlain(s) == Dedup(s)
  {
    FilterFirstIndexIsKept(s, |s|);
  }

  /** uniq in either mode, applied to plain entries or to records: distinct paths, none lost. */
  lemma UniqByFacts(s: seq<Entry>, stats: bool)
    requires stats || AllPlain(s)
    ensures UniqBy(s, stats) == Dedup(s)
    ensures NoDuplicateKeys(UniqBy(s, stats)) && KeysOf(UniqBy(s, stats)) == KeysOf(s)
  {
    if !stats {
      UniqPlainIsDedup(s);
    }
    DedupFacts(s);
  }

  /**
   * The names that `{}` already answers truthily through Object.prototype,
   * so that `unique[name]` holds before anything is stored under them.
   */
  const PrototypeKeys: set<string> := {
    "constructor", "hasOwnProperty", "isPrototypeOf", "propertyIsEnumerable",
    "toLocaleString", "toString", "valueOf", "__proto__",
    "__defineGetter__", "__defineSetter__", "__lookupGetter__", "__lookupSetter__"
  }

  /** The stats branch as written: the lookup in `{}` also sees inherited property names. */
  function UniqStatsAsWritten(s: seq<Entry>): (r: seq<Entry>)
    ensures forall e :: e in r ==> e.path !in PrototypeKeys
  {
    KeptUpToFacts(s, |s|, PrototypeKeys);
    var r := KeptUpTo(s, |s|, PrototypeKeys);
    assert forall e :: e in r ==> e.path in KeysOf(r);
    r
  }

  /** A record whose path is "toString" is dropped as written, and kept by deduplication. */
  lemma UniqStatsAsWrittenDropsToString()
    ensures var e := StatsEntry("toString", ".", "toString", false);
      UniqStatsAsWritten([e]) == [] && Dedup([e]) == [e]
  {
    var e := StatsEntry("toString", ".", "toString", false);
    assert [e][..0] == [];
    assert KeysOf([e][..0]) == {};
    assert e.path in PrototypeKeys;
    assert !FirstOfKey([e], 0, PrototypeKeys);
    assert FirstOfKey([e], 0, {});
    assert KeptUpTo([e], 1, PrototypeKeys) == [];
    assert KeptUpTo([e], 1, {}) == [e];
  }
}
