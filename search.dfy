/** `indexOf`, shared by strings (String.prototype.indexOf) and arrays (Array.prototype.indexOf). */
module Search {

  /** The first position of `x` in `s`, or -1 when it does not occur. */
  function IndexOf<T(==)>(s: seq<T>, x: T): (r: int)
    ensures -1 <= r < |s|
    ensures r == -1 <==> x !in s
    ensures 0 <= r ==> s[r] == x && x !in s[..r]
  {
    if s == [] then -1
    else if s[0] == x then 0
    else
      var k := IndexOf(s[1..], x);
      assert s == [s[0]] + s[1..];
      if k == -1 then -1
      else
        assert s[..k + 1] == [s[0]] + s[1..][..k];
        k + 1
  }

  /** indexOf finds an element no later than any position holding it. */
  lemma {:induction false} IndexOfAtMost<T>(s: seq<T>, x: T, i: nat)
    requires i < |s| && s[i] == x
    ensures 0 <= IndexOf(s, x) <= i
  {
    if i > 0 && s[0] != x {
      IndexOfAtMost(s[1..], x, i - 1);
    }
  }
}
