/**
 * `sort(array, stats)`: the results array sorted in place, ascending by path
 * (the string itself in plain mode, the record's `path` in stats mode).
 */
module Sorting {
  import opened StringOrder
  import opened Entries

  /** Ascending by path: no entry sorts before one that precedes it. */
  predicate Sorted(s: seq<Entry>)
  {
    forall i, j :: 0 <= i < j < |s| ==> !Below(s[j].path, s[i].path)
  }

  /** Inserts `x` after every entry of `p` that does not sort after it (so the sort is stable). */
  function Insert(p: seq<Entry>, x: Entry): (r: seq<Entry>)
    ensures multiset(r) == multiset(p) + multiset{x}
  {
    if p == [] then [x]
    else if Below(x.path, p[|p| - 1].path) then
      assert p == p[..|p| - 1] + [p[|p| - 1]];
      Insert(p[..|p| - 1], x) + [p[|p| - 1]]
    else p + [x]
  }

  /** The reference sort: insertion sort, the prefix first. */
  function Sort(s: seq<Entry>): (r: seq<Entry>)
    ensures multiset(r) == multiset(s)
  {
    if s == [] then []
    else
      assert s == s[..|s| - 1] + [s[|s| - 1]];
      Insert(Sort(s[..|s| - 1]), s[|s| - 1])
  }

  lemma {:induction false} InsertSorted(p: seq<Entry>, x: Entry)
    requires Sorted(p)
    ensures Sorted(Insert(p, x))
  {
    if p == [] {
    } else if Below(x.path, p[|p| - 1].path) {
      var q, last := p[..|p| - 1], p[|p| - 1];
      InsertSorted(q, x);
      var r := Insert(q, x);
      forall i | 0 <= i < |r|
        ensures !Below(last.path, r[i].path)
      {
        assert r[i] in multiset(r);
        if r[i] == x {
          BelowAsymmetric(x.path, last.path);
        } else {
          assert r[i] in multiset(q);
          var k :| 0 <= k < |q| && q[k] == r[i];
          assert p[k] == r[i];
        }
      }
      SortedSnoc(r, last);
    } else {
      var last := p[|p| - 1];
      forall i | 0 <= i < |p|
        ensures !Below(x.path, p[i].path)
      {
        if i < |p| - 1 {
          AtMostTransitive(p[i].path, last.path, x.path);
        }
      }
      SortedSnoc(p, x);
    }
  }

  /** Appending an entry that sorts before none of a sorted list keeps it sorted. */
  lemma SortedSnoc(r: seq<Entry>, y: Entry)
    requires Sorted(r)
    requires forall i :: 0 <= i < |r| ==> !Below(y.path, r[i].path)
    ensures Sorted(r + [y])
  {
    var t := r + [y];
    forall i, j | 0 <= i < j < |t|
      ensures !Below(t[j].path, t[i].path)
    {
      assert t[i] == r[i];
    }
  }

  lemma BelowAsymmetric(a: string, b: string)
    requires Below(a, b)
    ensures !Below(b, a)
  {
    if Below(b, a) {
      BelowTransitive(a, b, a);
      BelowIrreflexive(a);
    }
  }

  /** Sort returns its input ascending by path. */
  lemma {:induction false} SortSorted(s: seq<Entry>)
    ensures Sorted(Sort(s))
  {
    if s != [] {
      SortSorted(s[..|s| - 1]);
      InsertSorted(Sort(s[..|s| - 1]), s[|s| - 1]);
    }
  }

  /** Inserting from the back stops at the first entry that does not sort after `x`. */
  lemma {:induction false} InsertAt(p: seq<Entry>, x: Entry, j: nat)
    requires j <= |p|
    requires forall k :: j <= k < |p| ==> Below(x.path, p[k].path)
    requires j == 0 || !Below(x.path, p[j - 1].path)
    ensures Insert(p, x) == p[..j] + [x] + p[j..]
    decreases |p|
  {
    if j < |p| {
      var q, last := p[..|p| - 1], p[|p| - 1];
      assert Below(x.path, last.path);
      assert Insert(p, x) == Insert(q, x) + [last];
      InsertAt(q, x, j);
      SpliceLast(p, x, j);
    } else {
      assert p[..j] == p && p[j..] == [];
      if p != [] {
        assert !Below(x.path, p[|p| - 1].path);
      }
    }
  }

  lemma SpliceLast(p: seq<Entry>, x: Entry, j: nat)
    requires j < |p|
    ensures p[..j] + [x] + p[j..] == (p[..|p| - 1][..j] + [x] + p[..|p| - 1][j..]) + [p[|p| - 1]]
  {
    var q := p[..|p| - 1];
    assert q[..j] == p[..j];
    assert q[j..] + [p[|p| - 1]] == p[j..];
  }

  /** Sorting one more element of the input inserts it into the sorted prefix. */
  lemma SortSnoc(s: seq<Entry>, i: nat)
    requires i < |s|
    ensures Sort(s[..i + 1]) == Insert(Sort(s[..i]), s[i])
  {
    assert s[..i + 1][..i] == s[..i];
  }

  /** The array after one pass of the inner loop, once `x` is written into the gap, holds the prefix with `x` inserted. */
  lemma InsertedAt(prefix: seq<Entry>, x: Entry, j: nat, before: seq<Entry>)
    requires j <= |prefix| && |before| == |prefix| + 1
    requires forall k :: j <= k < |prefix| ==> Below(x.path, prefix[k].path)
    requires j == 0 || !Below(x.path, prefix[j - 1].path)
    requires forall k :: 0 <= k < j ==> before[k] == prefix[k]
    requires forall k :: j < k <= |prefix| ==> before[k] == prefix[k - 1]
    ensures before[j := x] == Insert(prefix, x)
  {
    InsertAt(prefix, x, j);
    var inserted := prefix[..j] + [x] + prefix[j..];
    forall k | 0 <= k < |before|
      ensures before[j := x][k] == inserted[k]
    {
    }
  }

  /**
   * The inner loop of insertion sort: moves every entry before position `i`
   * that sorts after `x` one place right, leaving a gap at `j` where writing
   * `x` completes the insertion; `prefix` is what the array held before
   * position `i`.
   */
  method ShiftGreater(a: array<Entry>, i: nat, x: Entry, ghost prefix: seq<Entry>) returns (j: nat)
    requires i < a.Length && a[..i] == prefix
    modifies a
    ensures j <= i
    ensures a[..i + 1][j := x] == Insert(prefix, x)
    ensures forall k :: i < k < a.Length ==> a[k] == old(a[k])
  {
    j := i;
    while j > 0
      invariant 0 <= j <= i
      invariant forall k :: 0 <= k < j ==> a[k] == prefix[k]
      invariant forall k :: j < k <= i ==> a[k] == prefix[k - 1]
      invariant forall k :: j <= k < i ==> Below(x.path, prefix[k].path)
      invariant forall k :: i < k < a.Length ==> a[k] == old(a[k])
    {
      var y := a[j - 1];
      assert y == prefix[j - 1];
      if !Below(x.path, y.path) {
        break;
      }
      a[j] := y;
      j := j - 1;
    }
    InsertedAt(prefix, x, j, a[..i + 1]);
  }

  /** One pass of insertion sort: moves a[i] back past every earlier entry that sorts after it. */
  method InsertInPlace(a: array<Entry>, i: nat)
    requires i < a.Length
    modifies a
    ensures a[..i + 1] == Insert(old(a[..i]), old(a[i]))
    ensures forall k :: i < k < a.Length ==> a[k] == old(a[k])
  {
    ghost var prefix := a[..i];
    var x := a[i];
    var j := ShiftGreater(a, i, x, prefix);
    ghost var before := a[..i + 1];
    a[j] := x;
    assert a[..i + 1] == before[j := x];
  }

  /** Sorting in place: insertion sort on the array, ending as Sort of what it held. */
  method SortInPlace(a: array<Entry>)
    modifies a
    ensures a[..] == Sort(old(a[..]))
  {
    ghost var input := a[..];
    var i := 0;
    while i < a.Length
      invariant 0 <= i <= a.Length
      invariant a[..i] == Sort(input[..i])
      invariant forall k :: i <= k < a.Length ==> a[k] == input[k]
    {
      InsertInPlace(a, i);
      SortSnoc(input, i);
      i := i + 1;
    }
    assert input[..a.Length] == input;
  }

  /** `sort` applied to a results list: copies it into an array and sorts that in place. */
  method SortEntries(s: seq<Entry>) returns (r: seq<Entry>)
    ensures r == Sort(s)
  {
    if |s| == 0 {
      return [];
    }
    var a := new Entry[|s|](k requires 0 <= k < |s| => s[k]);
    assert a[..] == s;
    SortInPlace(a);
    r := a[..];
  }

  /** The first entries of two sorted lists with the same entries share their path. */
  lemma SortedHeadsAgree(s: seq<Entry>, t: seq<Entry>)
    requires Sorted(s) && Sorted(t) && multiset(s) == multiset(t) && s != []
    ensures t != [] && s[0].path == t[0].path && t[0] in s
  {
    assert s[0] in multiset(t);
    var k :| 0 <= k < |t| && t[k] == s[0];
    assert t[0] in multiset(s);
    var m :| 0 <= m < |s| && s[m] == t[0];
    if m > 0 { assert !Below(s[m].path, s[0].path); }
    if k > 0 { assert !Below(t[k].path, t[0].path); }
    BelowIrreflexive(s[0].path);
    BelowAntisymmetric(s[0].path, t[0].path);
  }

  lemma TailsSameEntries(s: seq<Entry>, t: seq<Entry>)
    requires s != [] && t != [] && s[0] == t[0] && multiset(s) == multiset(t)
    ensures multiset(s[1..]) == multiset(t[1..])
  {
    assert s == [s[0]] + s[1..] && t == [t[0]] + t[1..];
    assert multiset(s) == multiset{s[0]} + multiset(s[1..]);
    assert multiset(t) == multiset{t[0]} + multiset(t[1..]);
    assert multiset(s[1..]) == multiset(s) - multiset{s[0]};
    assert multiset(t[1..]) == multiset(t) - multiset{t[0]};
  }

  /**
   * Two sorted lists holding the same entries are the same list, when no two
   * different entries share a path (always so in plain mode).
   */
  lemma {:induction false} SortedPermutationUnique(s: seq<Entry>, t: seq<Entry>)
    requires Sorted(s) && Sorted(t) && multiset(s) == multiset(t)
    requires forall i, j :: 0 <= i < |s| && 0 <= j < |s| && s[i].path == s[j].path ==> s[i] == s[j]
    ensures s == t
    decreases |s|
  {
    if s == [] {
      assert |t| == 0 by { assert |multiset(t)| == |multiset(s)|; }
    } else {
      SortedHeadsAgree(s, t);
      var m :| 0 <= m < |s| && s[m] == t[0];
      assert s[0] == t[0];
      TailsSameEntries(s, t);
      SortedPermutationUnique(s[1..], t[1..]);
    }
  }

  lemma PlainPrefix(p: seq<Entry>, n: nat)
    requires n <= |p|
    ensures Plain(p[..n]) == Plain(p)[..n]
  {
  }

  lemma PlainSnoc(p: seq<Entry>, x: Entry)
    ensures Plain(p + [x]) == Plain(p) + [PathEntry(x.path)]
  {
  }

  lemma {:induction false} InsertPlain(p: seq<Entry>, x: Entry)
    ensures Plain(Insert(p, x)) == Insert(Plain(p), PathEntry(x.path))
    decreases |p|
  {
    if p != [] {
      var q, last := p[..|p| - 1], p[|p| - 1];
      PlainPrefix(p, |p| - 1);
      var pp := Plain(p);
      assert pp[|pp| - 1].path == last.path;
      if Below(x.path, last.path) {
        InsertPlain(q, x);
        PlainSnoc(Insert(q, x), last);
      } else {
        PlainSnoc(p, x);
      }
    }
  }

  /** The order depends on paths alone: sorting records and then dropping to paths sorts the paths. */
  lemma {:induction false} SortPlain(s: seq<Entry>)
    ensures Plain(Sort(s)) == Sort(Plain(s))
  {
    if s != [] {
      var q := s[..|s| - 1];
      SortPlain(q);
      InsertPlain(Sort(q), s[|s| - 1]);
      PlainPrefix(s, |s| - 1);
    }
  }
}
