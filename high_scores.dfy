/** The in-memory ranking shown beside the board: the score list sorted from the
    highest down and cut to its first three entries. */
module HighScores {

  /** From the highest down: no entry is above an earlier one. */
  predicate Descending(s: seq<int>) {
    forall i, j :: 0 <= i < j < |s| ==> s[i] >= s[j]
  }

  function Min(a: int, b: int): int {
    if a <= b then a else b
  }

  /** x put into a descending list before the first entry that is not above it. */
  function Insert(x: int, s: seq<int>): (r: seq<int>)
    requires Descending(s)
    ensures |r| == |s| + 1 && r[0] == (if |s| == 0 || s[0] <= x then x else s[0])
    ensures Descending(r)
    ensures multiset(r) == multiset(s) + multiset{x}
  {
    if |s| == 0 then [x]
    else if s[0] <= x then [x] + s
    else
      var rest := Insert(x, s[1..]);
      assert forall j :: 0 <= j < |rest| ==> rest[j] <= rest[0] <= s[0];
      assert s == [s[0]] + s[1..];
      [s[0]] + rest
  }

  /** The list sorted from the highest score down. */
  function SortDescending(s: seq<int>): (r: seq<int>)
    ensures Descending(r)
    ensures multiset(r) == multiset(s)
  {
    if |s| == 0 then []
    else
      assert s == s[..|s| - 1] + [s[|s| - 1]];
      Insert(s[|s| - 1], SortDescending(s[..|s| - 1]))
  }

  /** The three highest scores of s, highest first (fewer when s is shorter): min(3, |s|)
      entries in descending order, each taken from s. */
  function TopThree(s: seq<int>): (top: seq<int>)
    ensures |top| == Min(3, |s|) && Descending(top)
    ensures multiset(top) <= multiset(s)
  {
    var sorted := SortDescending(s);
    assert |sorted| == |multiset(sorted)| == |multiset(s)| == |s|;
    MultisetSplit(sorted, Min(3, |sorted|));
    sorted[..Min(3, |sorted|)]
  }

  /** In a descending list every entry after position k is at most every entry before it. */
  lemma SplitDominates(t: seq<int>, k: nat)
    requires Descending(t) && k <= |t|
    ensures forall x, y :: x in t[k..] && y in t[..k] ==> x <= y
  {
  }

  /** Cutting a list after k entries splits its multiset in two. */
  lemma MultisetSplit(t: seq<int>, k: nat)
    requires k <= |t|
    ensures multiset(t[..k]) <= multiset(t)
    ensures multiset(t) - multiset(t[..k]) == multiset(t[k..])
  {
    assert t == t[..k] + t[k..];
    assert multiset(t) == multiset(t[..k]) + multiset(t[k..]);
  }

  /** The ranking is the top of the list: no score it drops is above a score it keeps. */
  lemma TopThreeIsRanking(s: seq<int>)
    ensures forall x, y :: x in multiset(s) - multiset(TopThree(s)) && y in TopThree(s) ==> x <= y
  {
    var t := SortDescending(s);
    var k := Min(3, |t|);
    var top := t[..k];
    MultisetSplit(t, k);
    SplitDominates(t, k);
    forall x, y | x in multiset(s) - multiset(top) && y in top
      ensures x <= y
    {
      assert x in multiset(t[k..]);
      assert x in t[k..];
    }
  }
}
