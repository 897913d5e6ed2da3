/** `String.prototype.replace` called with a string pattern: only the FIRST
    occurrence of the pattern is replaced, and a pattern that does not occur
    leaves the string as it is. */
module JsString {
  import opened Results

  /** `pat` occurs in `s` starting at index `i`. */
  predicate OccursAt(s: string, pat: string, i: int) {
    0 <= i && i + |pat| <= |s| && s[i..i + |pat|] == pat
  }

  predicate Contains(s: string, pat: string) {
    exists i :: 0 <= i <= |s| && OccursAt(s, pat, i)
  }

  /** `i` is the leftmost occurrence of `pat` in `s`. */
  predicate IsFirstOccurrence(s: string, pat: string, i: int) {
    OccursAt(s, pat, i) && forall j :: 0 <= j < i ==> !OccursAt(s, pat, j)
  }

  /** Leftmost occurrence of `pat` at or after `from`. */
  function IndexFrom(s: string, pat: string, from: nat): (r: Option<nat>)
    ensures r.Some? ==> from <= r.value && OccursAt(s, pat, r.value)
    ensures r.Some? ==> forall j :: from <= j < r.value ==> !OccursAt(s, pat, j)
    ensures r.None? ==> forall j :: from <= j ==> !OccursAt(s, pat, j)
    decreases |s| - from
  {
    if from + |pat| > |s| then None
    else if s[from..from + |pat|] == pat then Some(from)
    else IndexFrom(s, pat, from + 1)
  }

  /** `String.prototype.indexOf`: the leftmost occurrence, or None (JavaScript's -1). */
  function IndexOf(s: string, pat: string): (r: Option<nat>)
    ensures r.Some? <==> Contains(s, pat)
    ensures r.Some? ==> IsFirstOccurrence(s, pat, r.value)
  {
    IndexFrom(s, pat, 0)
  }

  /** `s.replace(pat, rep)` for a string `pat`. JavaScript interprets `$`-patterns
      in the replacement string; every replacement string the scraper passes
      ("+", "-", "") is free of `$`, which is all this model covers. */
  function ReplaceFirst(s: string, pat: string, rep: string): (r: string)
    requires '$' !in rep
    ensures !Contains(s, pat) ==> r == s
    ensures Contains(s, pat) ==> |r| == |s| - |pat| + |rep|
    ensures forall i :: IsFirstOccurrence(s, pat, i) ==> r == s[..i] + rep + s[i + |pat|..]
  {
    match IndexOf(s, pat)
    case None => s
    case Some(i) => s[..i] + rep + s[i + |pat|..]
  }

  /** Replacing by the empty string deletes the first occurrence. */
  lemma DeleteFirst(s: string, pat: string)
    ensures !Contains(s, pat) ==> ReplaceFirst(s, pat, "") == s
    ensures forall i :: IsFirstOccurrence(s, pat, i) ==> ReplaceFirst(s, pat, "") == s[..i] + s[i + |pat|..]
  {
    forall i | IsFirstOccurrence(s, pat, i) ensures ReplaceFirst(s, pat, "") == s[..i] + s[i + |pat|..] {
      assert s[..i] + "" == s[..i];
    }
  }

  /** A string begins with an occurrence of itself: the first occurrence of
      `pat` in `pat + t` is at index 0. */
  lemma FirstOccurrenceAtStart(pat: string, t: string)
    ensures IsFirstOccurrence(pat + t, pat, 0)
  {
    assert (pat + t)[0..|pat|] == pat;
  }

  /** A one-character pattern occurs exactly where that character is. */
  lemma OccursAtChar(s: string, c: char, i: int)
    ensures OccursAt(s, [c], i) <==> 0 <= i < |s| && s[i] == c
  {
    if 0 <= i < |s| {
      assert s[i..i + 1] == [s[i]];
    }
  }

  /** The first occurrence of a character present in `s`. */
  lemma FirstCharOccurrence(s: string, c: char)
    requires c in s
    ensures IsFirstOccurrence(s, [c], FirstIndexOfChar(s, c))
  {
    var i0 := FirstIndexOfChar(s, c);
    OccursAtChar(s, c, i0);
    forall j | 0 <= j < i0 ensures !OccursAt(s, [c], j) {
      OccursAtChar(s, c, j);
    }
  }

  /** A one-character pattern that does not occur leaves the string as it is. */
  lemma ReplaceFirstAbsentChar(s: string, c: char, d: char)
    requires d != '$' && c !in s
    ensures ReplaceFirst(s, [c], [d]) == s
  {
    forall i | 0 <= i <= |s| ensures !OccursAt(s, [c], i) {
      OccursAtChar(s, c, i);
    }
  }

  /** A one-character pattern that occurs is replaced at its first index. */
  lemma ReplaceFirstPresentChar(s: string, c: char, d: char)
    requires d != '$' && c in s
    ensures ReplaceFirst(s, [c], [d]) == s[..FirstIndexOfChar(s, c)] + [d] + s[FirstIndexOfChar(s, c) + 1..]
  {
    FirstCharOccurrence(s, c);
  }

  /** Overwriting index `i` changes that index only. */
  lemma Splice(s: string, i: nat, d: char)
    requires i < |s|
    ensures var r := s[..i] + [d] + s[i + 1..];
      |r| == |s| && r[i] == d && forall j :: 0 <= j < |s| && j != i ==> r[j] == s[j]
  {
  }

  /** Replacing the first occurrence of a one-character pattern by one character
      changes exactly that position: every other character, including every
      later occurrence, is kept. */
  lemma ReplaceFirstChar(s: string, c: char, d: char)
    requires d != '$'
    ensures var r := ReplaceFirst(s, [c], [d]);
      && |r| == |s|
      && (c !in s ==> r == s)
      && (forall j :: 0 <= j < |s| && s[j] != c ==> r[j] == s[j])
      && (forall i :: 0 <= i < |s| && s[i] == c && (forall k :: 0 <= k < i ==> s[k] != c) ==>
            r[i] == d && forall j :: 0 <= j < |s| && j != i ==> r[j] == s[j])
  {
    if c !in s {
      ReplaceFirstAbsentChar(s, c, d);
    } else {
      var i0 := FirstIndexOfChar(s, c);
      ReplaceFirstPresentChar(s, c, d);
      Splice(s, i0, d);
      assert forall i :: 0 <= i < |s| && s[i] == c && (forall k :: 0 <= k < i ==> s[k] != c) ==> i == i0;
    }
  }

  /** Index of the first `c` in `s`, for `c` in `s`. */
  function FirstIndexOfChar(s: string, c: char): (i: nat)
    requires c in s
    ensures i < |s| && s[i] == c
    ensures forall k :: 0 <= k < i ==> s[k] != c
  {
    if s[0] == c then 0
    else FirstIndexOfChar(s[1..], c) + 1
  }
}
