/** Case-sensitive substring search over strings, as PHP's `strpos` performs it:
    the specification (`OccursAt`, `Contains`), a loop that finds the first
    occurrence (`StrPos`), and the facts about occurrences that the exception
    handler's marker check relies on. */
module Substring {

  /** `sub` occurs in `s` as a contiguous run of characters starting at index `i`. */
  predicate OccursAt(s: string, sub: string, i: int)
  {
    0 <= i && i + |sub| <= |s| && s[i..i + |sub|] == sub
  }

  /** `sub` occurs in `s` at some index, the first one included. */
  predicate Contains(s: string, sub: string)
  {
    exists i | 0 <= i <= |s| - |sub| :: OccursAt(s, sub, i)
  }

  /** What `strpos` answers: the index of the first occurrence, or `false`. */
  datatype Position = NotFound | Found(index: nat)

  /** `strpos($haystack, $needle)`: scans left to right and stops at the first
      index where `needle` occurs. `NotFound` stands for PHP's `false`, so the
      caller's `!== false` is `Found?`, and a match at index 0 is still a match.
      The needle is never empty: PHP 7 and PHP 8 disagree on that case. */
  method StrPos(haystack: string, needle: string) returns (p: Position)
    requires |needle| > 0
    ensures p.Found? ==> OccursAt(haystack, needle, p.index)
    ensures p.Found? ==> forall j :: 0 <= j < p.index ==> !OccursAt(haystack, needle, j)
    ensures p.Found? <==> Contains(haystack, needle)
  {
    var i := 0;
    while i + |needle| <= |haystack|
      invariant 0 <= i
      invariant forall j :: 0 <= j < i ==> !OccursAt(haystack, needle, j)
    {
      if haystack[i..i + |needle|] == needle {
        return Found(i);
      }
      i := i + 1;
    }
    return NotFound;
  }

  /** A string occurs in any text built around it, at the position where it was put. */
  lemma OccursInPlace(pre: string, sub: string, post: string)
    ensures OccursAt(pre + sub + post, sub, |pre|)
    ensures Contains(pre + sub + post, sub)
  {
    var s := pre + sub + post;
    assert s[|pre|..|pre| + |sub|] == sub;
    assert OccursAt(s, sub, |pre|);
  }

  /** An occurrence survives any text added before or after it: the search is
      not anchored at either end of the content. */
  lemma ContainsInContext(pre: string, s: string, post: string, sub: string)
    requires Contains(s, sub)
    ensures Contains(pre + s + post, sub)
  {
    var i :| 0 <= i <= |s| - |sub| && OccursAt(s, sub, i);
    var t := pre + s + post;
    assert t[|pre| + i..|pre| + i + |sub|] == s[i..i + |sub|];
    assert OccursAt(t, sub, |pre| + i);
  }

  /** A text shorter than `sub` cannot contain it. */
  lemma TooShortToContain(s: string, sub: string)
    requires |s| < |sub|
    ensures !Contains(s, sub)
  {
  }

  /** Two strings of the same length that differ at index `k` are not
      occurrences of each other: the comparison is exact, character by
      character, so it distinguishes upper from lower case. */
  lemma MismatchRulesOut(s: string, sub: string, k: nat)
    requires |s| == |sub| && k < |sub| && s[k] != sub[k]
    ensures !Contains(s, sub)
  {
  }
}
