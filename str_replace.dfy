/** PHP's str_replace for a single search string: every non-overlapping
    occurrence of the search string is replaced, scanning left to right and
    resuming the scan just after each replaced occurrence.  An empty search
    string leaves the subject unchanged. */
module StrReplace {

  import opened Wrappers

  /** `pat` occurs in `s` starting at index `i`. */
  predicate OccursAt(s: string, pat: string, i: int) {
    0 <= i && i + |pat| <= |s| && s[i..i + |pat|] == pat
  }

  /** `s` begins with `pat`. */
  predicate StartsWith(s: string, pat: string) {
    |pat| <= |s| && s[..|pat|] == pat
  }

  /** `pat` occurs somewhere in `s`. */
  predicate Contains(s: string, pat: string)
    decreases |s|
  {
    StartsWith(s, pat) || (|s| > 0 && Contains(s[1..], pat))
  }

  /** An occurrence in `s` after index 0 is an occurrence in the tail `s[1..]`. */
  lemma OccursInTail(s: string, pat: string, j: int)
    requires 1 <= j <= |s|
    ensures OccursAt(s, pat, j) <==> OccursAt(s[1..], pat, j - 1)
  {
    if j + |pat| <= |s| {
      assert s[1..][j - 1..j - 1 + |pat|] == s[j..j + |pat|];
    }
  }

  /** `Contains` holds exactly when there is an index where `pat` occurs. */
  lemma {:induction false} ContainsMeansOccurs(s: string, pat: string)
    ensures Contains(s, pat) <==> exists i :: 0 <= i <= |s| && OccursAt(s, pat, i)
    decreases |s|
  {
    if StartsWith(s, pat) {
      assert OccursAt(s, pat, 0);
    } else if |s| == 0 {
    } else {
      ContainsMeansOccurs(s[1..], pat);
      if Contains(s[1..], pat) {
        var i :| 0 <= i <= |s| - 1 && OccursAt(s[1..], pat, i);
        OccursInTail(s, pat, i + 1);
      } else {
        forall i | 0 <= i <= |s| ensures !OccursAt(s, pat, i) {
          if i > 0 {
            OccursInTail(s, pat, i);
          }
        }
      }
    }
  }

  /** The index of the leftmost occurrence of `pat` in `s`, if there is one. */
  function IndexOf(s: string, pat: string): (r: Option<nat>)
    ensures r.None? <==> !Contains(s, pat)
    ensures r.Some? ==> OccursAt(s, pat, r.value)
    ensures r.Some? ==> forall j :: 0 <= j < r.value ==> !OccursAt(s, pat, j)
    decreases |s|
  {
    if StartsWith(s, pat) then
      assert OccursAt(s, pat, 0);
      Some(0)
    else if |s| == 0 then None
    else
      match IndexOf(s[1..], pat)
      case None => None
      case Some(k) =>
        OccursInTail(s, pat, k + 1);
        assert forall j :: 1 <= j < k + 1 ==> !OccursAt(s, pat, j) by {
          forall j | 1 <= j < k + 1 ensures !OccursAt(s, pat, j) {
            OccursInTail(s, pat, j);
          }
        }
        Some(k + 1)
  }

  /** str_replace(pat, rep, s): a subject without the search string comes back unchanged. */
  function ReplaceAll(s: string, pat: string, rep: string): (r: string)
    ensures !Contains(s, pat) ==> r == s
    decreases |s|
  {
    if |pat| == 0 || |s| < |pat| then s
    else if StartsWith(s, pat) then rep + ReplaceAll(s[|pat|..], pat, rep)
    else [s[0]] + ReplaceAll(s[1..], pat, rep)
  }

  /** The scan replaces the leftmost occurrence `i` first, keeps everything before
      it, and continues on the text after the replaced occurrence only.  (With no
      occurrence at all, the contract of ReplaceAll returns the subject unchanged.) */
  lemma ReplaceAllLeftmost(s: string, pat: string, rep: string, i: nat)
    requires |pat| > 0 && IndexOf(s, pat) == Some(i)
    ensures ReplaceAll(s, pat, rep) == s[..i] + rep + ReplaceAll(s[i + |pat|..], pat, rep)
  {
    ReplaceAllCopiesPrefix(s, pat, rep, i);
    ReplaceAllAtOccurrence(s, pat, rep, i);
    Splice(ReplaceAll(s, pat, rep), s[..i], ReplaceAll(s[i..], pat, rep), rep, ReplaceAll(s[i + |pat|..], pat, rep));
  }

  /** At an occurrence the scan emits the replacement and resumes after it. */
  lemma ReplaceAllAtOccurrence(s: string, pat: string, rep: string, i: nat)
    requires 0 < |pat| && OccursAt(s, pat, i)
    ensures ReplaceAll(s[i..], pat, rep) == rep + ReplaceAll(s[i + |pat|..], pat, rep)
  {
    var m := s[i..];
    assert m[..|pat|] == pat;
    assert m[|pat|..] == s[i + |pat|..];
  }

  /** Where no occurrence starts, the scan copies one character. */
  lemma ReplaceAllCopiesOne(s: string, pat: string, rep: string)
    requires 0 < |pat| && 0 < |s| && !OccursAt(s, pat, 0)
    ensures ReplaceAll(s, pat, rep) == [s[0]] + ReplaceAll(s[1..], pat, rep)
  {
    if |s| < |pat| {
      ShorterNeverContains(s[1..], pat);
    }
  }

  /** A subject shorter than the search string does not contain it. */
  lemma {:induction false} ShorterNeverContains(s: string, pat: string)
    requires |s| < |pat|
    ensures !Contains(s, pat)
    decreases |s|
  {
    if |s| > 0 {
      ShorterNeverContains(s[1..], pat);
    }
  }

  /** A prefix in which no occurrence starts is copied unchanged, and the scan
      resumes right after it. */
  lemma {:induction false} ReplaceAllCopiesPrefix(s: string, pat: string, rep: string, i: nat)
    requires |pat| > 0 && i <= |s|
    requires forall j :: 0 <= j < i ==> !OccursAt(s, pat, j)
    ensures ReplaceAll(s, pat, rep) == s[..i] + ReplaceAll(s[i..], pat, rep)
    decreases i
  {
    if i == 0 {
      assert s[..0] + s[0..] == s;
    } else {
      var t := s[1..];
      NoOccurrenceInTailPrefix(s, pat, i);
      ReplaceAllCopiesPrefix(t, pat, rep, i - 1);
      ReplaceAllCopiesOne(s, pat, rep);
      TailSlices(s, i);
      Splice(ReplaceAll(s, pat, rep), [s[0]], ReplaceAll(t, pat, rep), t[..i - 1], ReplaceAll(s[i..], pat, rep));
    }
  }

  /** A prefix of `s` free of occurrences stays free of them in the tail `s[1..]`. */
  lemma NoOccurrenceInTailPrefix(s: string, pat: string, i: nat)
    requires 0 < i <= |s|
    requires forall j :: 0 <= j < i ==> !OccursAt(s, pat, j)
    ensures forall j :: 0 <= j < i - 1 ==> !OccursAt(s[1..], pat, j)
  {
    forall j | 0 <= j < i - 1 ensures !OccursAt(s[1..], pat, j) {
      OccursInTail(s, pat, j + 1);
    }
  }

  /** Slices of the tail `s[1..]`, read as slices of `s`. */
  lemma TailSlices(s: string, i: nat)
    requires 0 < i <= |s|
    ensures [s[0]] + s[1..][..i - 1] == s[..i]
    ensures s[1..][i - 1..] == s[i..]
  {
  }

  /** Substituting one concatenation into another. */
  lemma Splice(whole: string, front: string, rest: string, mid: string, back: string)
    requires whole == front + rest && rest == mid + back
    ensures whole == front + mid + back
  {
  }
}
