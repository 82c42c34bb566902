/**
 The page-index lists kept per document: Swift's `sorted()`, `contains`,
 `firstIndex(of:)` and `remove(at:)` on `[Int]`.
 */
module Pages {
  import opened Optional

  /** Ascending order, equal neighbours allowed. */
  predicate Sorted(s: seq<int>) {
    forall i, j :: 0 <= i < j < |s| ==> s[i] <= s[j]
  }

  /** Ascending order without repeats: the list is a set of pages. */
  predicate StrictlySorted(s: seq<int>) {
    forall i, j :: 0 <= i < j < |s| ==> s[i] < s[j]
  }

  /** `x` put into its place in the sorted list `s`. */
  function Insert(s: seq<int>, x: int): (r: seq<int>)
    requires Sorted(s)
    ensures Sorted(r)
    ensures multiset(r) == multiset(s) + multiset{x}
    ensures |r| == |s| + 1
    ensures r[0] == if |s| > 0 && s[0] < x then s[0] else x
  {
    if |s| == 0 then [x]
    else if x <= s[0] then
      ConsKeepsSorted(x, s);
      [x] + s
    else
      assert s == [s[0]] + s[1..];
      var t := Insert(s[1..], x);
      ConsKeepsSorted(s[0], t);
      [s[0]] + t
  }

  /** Putting a value no larger than the head in front keeps a list sorted. */
  lemma ConsKeepsSorted(x: int, t: seq<int>)
    requires Sorted(t)
    requires |t| > 0 ==> x <= t[0]
    ensures Sorted([x] + t)
  {
  }

  /** Swift's `sorted()` on `[Int]`: an ascending permutation of the input. */
  function Sort(s: seq<int>): (r: seq<int>)
    ensures Sorted(r)
    ensures multiset(r) == multiset(s)
    ensures |r| == |s|
  {
    if |s| == 0 then []
    else
      assert s == s[..|s| - 1] + [s[|s| - 1]];
      Insert(Sort(s[..|s| - 1]), s[|s| - 1])
  }

  /**
   The list with `x` appended, then sorted: an ascending list holding the
   pages of `s` and one more copy of `x`.
   */
  function SortedWith(s: seq<int>, x: int): (r: seq<int>)
    ensures Sorted(r)
    ensures multiset(r) == multiset(s) + multiset{x}
    ensures |r| == |s| + 1
  {
    Sort(s + [x])
  }

  /** The first element of a non-empty sorted list is its least element. */
  lemma SortedHeadIsLeast(s: seq<int>, x: int)
    requires Sorted(s) && x in multiset(s)
    ensures |s| > 0 && s[0] <= x
  {
    assert x in s;
  }

  /**
   A multiset has exactly one ascending arrangement, so any correct sort
   (Swift's introsort included) yields the same list as `Sort`.
   */
  lemma {:induction false} SortedPermutationIsUnique(a: seq<int>, b: seq<int>)
    requires Sorted(a) && Sorted(b)
    requires multiset(a) == multiset(b)
    ensures a == b
  {
    if |a| == 0 {
      assert |multiset(b)| == 0;
    } else {
      assert a[0] in multiset(a);
      SortedHeadIsLeast(b, a[0]);
      assert b[0] in multiset(b);
      SortedHeadIsLeast(a, b[0]);
      assert a[0] == b[0];
      assert a == [a[0]] + a[1..];
      assert b == [b[0]] + b[1..];
      assert multiset(a) == multiset{a[0]} + multiset(a[1..]);
      assert multiset(b) == multiset{b[0]} + multiset(b[1..]);
      assert multiset(a[1..]) == multiset(a) - multiset{a[0]};
      assert multiset(b[1..]) == multiset(b) - multiset{b[0]};
      SortedPermutationIsUnique(a[1..], b[1..]);
    }
  }

  /** Swift's `firstIndex(of:)`: the position of the first `x`, if any. */
  function FirstIndex(s: seq<int>, x: int): (r: Option<nat>)
    ensures r.None? <==> x !in s
    ensures r.Some? ==> r.value < |s| && s[r.value] == x && x !in s[..r.value]
  {
    if |s| == 0 then None
    else if s[0] == x then Some(0)
    else
      match FirstIndex(s[1..], x)
      case None => None
      case Some(i) =>
        assert s[..i + 1] == [s[0]] + s[1..][..i];
        Some(i + 1)
  }

  /** Swift's `remove(at:)`: the list without its element at `i`. */
  function RemoveAt(s: seq<int>, i: nat): (r: seq<int>)
    requires i < |s|
    ensures |r| == |s| - 1
    ensures multiset(r) == multiset(s) - multiset{s[i]}
    ensures forall j :: 0 <= j < i ==> r[j] == s[j]
    ensures forall j :: i <= j < |r| ==> r[j] == s[j + 1]
  {
    assert s == s[..i] + [s[i]] + s[i + 1..];
    s[..i] + s[i + 1..]
  }

  /** Removing an element keeps a list in (strict) ascending order. */
  lemma RemoveAtKeepsOrder(s: seq<int>, i: nat)
    requires i < |s|
    ensures Sorted(s) ==> Sorted(RemoveAt(s, i))
    ensures StrictlySorted(s) ==> StrictlySorted(RemoveAt(s, i))
  {
    var r := RemoveAt(s, i);
    forall j, k | 0 <= j < k < |r|
      ensures exists j', k' :: 0 <= j' < k' < |s| && r[j] == s[j'] && r[k] == s[k']
    {
      var j' := if j < i then j else j + 1;
      var k' := if k < i then k else k + 1;
      assert r[j] == s[j'] && r[k] == s[k'];
    }
  }

  /** A strictly sorted list holds each value at most once. */
  lemma StrictlySortedHasNoRepeats(s: seq<int>, x: int)
    requires StrictlySorted(s)
    ensures multiset(s)[x] <= 1
  {
    if |s| > 0 {
      assert s == [s[0]] + s[1..];
      if s[0] == x {
        assert x !in s[1..];
      }
      StrictlySortedHasNoRepeats(s[1..], x);
    }
  }

  /** A value found at two positions is counted at least twice. */
  lemma TwoPositionsCountTwice(s: seq<int>, i: nat, j: nat)
    requires i < j < |s| && s[i] == s[j]
    ensures multiset(s)[s[i]] >= 2
  {
    assert s == s[..i + 1] + s[i + 1..];
    assert s[i] in s[..i + 1];
    assert s[i + 1..][j - i - 1] == s[j];
    assert s[j] in s[i + 1..];
  }

  /** Strict order is sorted order. */
  lemma StrictlySortedIsSorted(s: seq<int>)
    requires StrictlySorted(s)
    ensures Sorted(s)
  {
  }

  /** A sorted list holding each value at most once is strictly sorted. */
  lemma SortedWithoutRepeatsIsStrict(s: seq<int>)
    requires Sorted(s)
    requires forall x :: multiset(s)[x] <= 1
    ensures StrictlySorted(s)
  {
    forall i, j | 0 <= i < j < |s|
      ensures s[i] < s[j]
    {
      if s[i] == s[j] {
        TwoPositionsCountTwice(s, i, j);
      }
    }
  }
}
