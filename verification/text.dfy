/**
 Replacement of every occurrence of a pattern in a string, as Foundation's
 `replacingOccurrences(of:with:)` does it with an empty replacement: the
 string is scanned from the left, each match is dropped and the scan goes on
 after it, so matches never overlap.
 */
module Text {

  /** `pat` occurs in `s` starting at position `i`. */
  predicate MatchAt(s: string, pat: string, i: nat)
    requires i <= |s|
  {
    pat <= s[i..]
  }

  /** `pat` occurs somewhere in `s`. */
  predicate Occurs(s: string, pat: string) {
    exists i: nat :: i <= |s| && MatchAt(s, pat, i)
  }

  /** An occurrence in `s` is a match at the front or an occurrence in the tail. */
  lemma OccursStep(s: string, pat: string)
    requires |s| > 0
    ensures Occurs(s, pat) <==> MatchAt(s, pat, 0) || Occurs(s[1..], pat)
  {
    if Occurs(s[1..], pat) {
      var i: nat :| i <= |s[1..]| && MatchAt(s[1..], pat, i);
      assert s[1..][i..] == s[i + 1..];
      assert MatchAt(s, pat, i + 1);
    }
    if Occurs(s, pat) && !MatchAt(s, pat, 0) {
      var i: nat :| i <= |s| && MatchAt(s, pat, i);
      assert i > 0;
      assert s[1..][i - 1..] == s[i..];
      assert MatchAt(s[1..], pat, i - 1);
    }
  }

  /** Nothing occurs in a string shorter than the pattern. */
  lemma ShortStringHasNoOccurrence(s: string, pat: string)
    requires |s| < |pat|
    ensures !Occurs(s, pat)
  {
  }

  /**
   Every occurrence of `pat` in `s` removed, leftmost first. An empty pattern
   leaves the string as it is, as Foundation does.
   */
  function ReplaceAll(s: string, pat: string): (r: string)
    ensures |r| <= |s|
    decreases |s|
  {
    if |pat| == 0 || |s| == 0 then
      s
    else if pat <= s then
      ReplaceAll(s[|pat|..], pat)
    else
      [s[0]] + ReplaceAll(s[1..], pat)
  }

  /**
   The string comes back unchanged exactly when there is nothing to remove;
   each occurrence removed shortens it by the pattern's length.
   */
  lemma {:induction false} ReplaceAllChangesIffOccurs(s: string, pat: string)
    ensures |pat| > 0 && Occurs(s, pat) ==> |ReplaceAll(s, pat)| <= |s| - |pat|
    ensures ReplaceAll(s, pat) == s <==> |pat| == 0 || !Occurs(s, pat)
    decreases |s|
  {
    if |pat| == 0 || |s| == 0 {
    } else if pat <= s {
      assert MatchAt(s, pat, 0);
    } else {
      OccursStep(s, pat);
      ReplaceAllChangesIffOccurs(s[1..], pat);
      assert s == [s[0]] + s[1..];
    }
  }

  /** A match at the very front is dropped and the rest is scanned on. */
  lemma ReplaceAllDropsLeadingMatch(pat: string, rest: string)
    requires |pat| > 0
    ensures ReplaceAll(pat + rest, pat) == ReplaceAll(rest, pat)
  {
    assert (pat + rest)[|pat|..] == rest;
  }

  /** Without a match at the front, the first character is kept. */
  lemma ReplaceAllKeepsUnmatchedHead(s: string, pat: string)
    requires |pat| > 0 && |s| > 0 && !MatchAt(s, pat, 0)
    ensures ReplaceAll(s, pat) == [s[0]] + ReplaceAll(s[1..], pat)
  {
  }

  /** Positions free of a match in `a + b` stay free after dropping `a[0]`. */
  lemma ClearPrefixShifts(a: string, b: string, pat: string)
    requires |a| > 0
    requires forall i: nat :: i < |a| ==> !MatchAt(a + b, pat, i)
    ensures forall i: nat :: i < |a[1..]| ==> !MatchAt(a[1..] + b, pat, i)
  {
    forall i: nat | i < |a[1..]|
      ensures !MatchAt(a[1..] + b, pat, i)
    {
      assert (a[1..] + b)[i..] == (a + b)[i + 1..];
      assert !MatchAt(a + b, pat, i + 1);
    }
  }

  /**
   A prefix `a` at none of whose positions a match starts is kept verbatim;
   only the part after it is rewritten.
   */
  lemma {:induction false} ReplaceAllKeepsClearPrefix(a: string, b: string, pat: string)
    requires |pat| > 0
    requires forall i: nat :: i < |a| ==> !MatchAt(a + b, pat, i)
    ensures ReplaceAll(a + b, pat) == a + ReplaceAll(b, pat)
  {
    if |a| == 0 {
      assert a + b == b;
    } else {
      var s := a + b;
      assert !MatchAt(s, pat, 0);
      ReplaceAllKeepsUnmatchedHead(s, pat);
      assert s[1..] == a[1..] + b;
      ClearPrefixShifts(a, b, pat);
      ReplaceAllKeepsClearPrefix(a[1..], b, pat);
      assert a == [a[0]] + a[1..];
    }
  }
}
