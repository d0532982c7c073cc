/**
 * Case-insensitive substring search on names: lower-casing (ASCII letters
 * only) and the substring test of the `in` operator on strings.
 */
module TextMatch {

  predicate IsUpper(c: char) {
    'A' <= c <= 'Z'
  }

  /** Lower-cases one character; only the ASCII letters A-Z change. */
  function LowerChar(c: char): (r: char)
    ensures !IsUpper(r)
    ensures IsUpper(c) ==> r as int == c as int + 32
    ensures !IsUpper(c) ==> r == c
  {
    if IsUpper(c) then (c as int + 32) as char else c
  }

  /** Lower-cases a string character by character. */
  function Lower(s: string): (r: string)
    ensures |r| == |s|
    ensures forall i :: 0 <= i < |s| ==> r[i] == LowerChar(s[i])
    decreases |s|
  {
    if s == [] then [] else [LowerChar(s[0])] + Lower(s[1..])
  }

  /** Lower-casing twice is lower-casing once. */
  lemma LowerIdempotent(s: string)
    ensures Lower(Lower(s)) == Lower(s)
  {
  }

  /** `pat` occurs in `text` starting at index `i`. */
  ghost predicate OccursAt(pat: string, text: string, i: int) {
    0 <= i && i + |pat| <= |text| && text[i..i + |pat|] == pat
  }

  /**
   * The substring test `pat in text`, scanning `text` from the left: it
   * holds exactly when `pat` occurs at some index of `text`.
   */
  function Occurs(pat: string, text: string): (b: bool)
    ensures b ==> exists i :: OccursAt(pat, text, i)
    ensures (exists i :: OccursAt(pat, text, i)) ==> b
    decreases |text|
  {
    if |pat| > |text| then false
    else if text[..|pat|] == pat then
      assert OccursAt(pat, text, 0);
      true
    else
      OccursShift(pat, text);
      Occurs(pat, text[1..])
  }

  /**
   * When `pat` is not a prefix of `text`, its occurrences in `text` are
   * those in `text[1..]`, one index further on.
   */
  lemma OccursShift(pat: string, text: string)
    requires |pat| <= |text| && text[..|pat|] != pat
    ensures (exists i :: OccursAt(pat, text, i)) <==> exists j :: OccursAt(pat, text[1..], j)
  {
    forall j | OccursAt(pat, text[1..], j)
      ensures OccursAt(pat, text, j + 1)
    {
      assert text[1..][j..j + |pat|] == text[j + 1..j + 1 + |pat|];
    }
    forall i | OccursAt(pat, text, i)
      ensures OccursAt(pat, text[1..], i - 1)
    {
      assert i != 0;
      assert text[1..][i - 1..i - 1 + |pat|] == text[i..i + |pat|];
    }
  }

  /** The empty string occurs in every string. */
  lemma EmptyOccurs(text: string)
    ensures Occurs([], text)
  {
  }

  /** `q` occurs in `name` ignoring the case of ASCII letters. */
  function ContainsIgnoringCase(q: string, name: string): (b: bool)
    ensures b ==> exists i :: OccursAt(Lower(q), Lower(name), i)
    ensures (exists i :: OccursAt(Lower(q), Lower(name), i)) ==> b
  {
    Occurs(Lower(q), Lower(name))
  }

  /** The search does not depend on the case of the query. */
  lemma QueryCaseIrrelevant(q: string, name: string)
    ensures ContainsIgnoringCase(Lower(q), name) == ContainsIgnoringCase(q, name)
  {
    LowerIdempotent(q);
  }
}
