/** The two string operations the catalog's search is built from: Python's
    `str.lower()` (restricted to the ASCII letters) and the substring test
    `needle in haystack`. */
module Text {

  predicate IsAsciiUpper(c: char) {
    'A' <= c <= 'Z'
  }

  /** Lower-cases one character: an ASCII capital becomes the small letter at
      the same place in the alphabet, every other character is left alone. */
  function LowerChar(c: char): (r: char)
    ensures !IsAsciiUpper(r)
    ensures r != c ==> IsAsciiUpper(c)
    ensures IsAsciiUpper(c) ==> 'a' <= r <= 'z' && r as int - 'a' as int == c as int - 'A' as int
  {
    if IsAsciiUpper(c) then (c as int + 32) as char else c
  }

  /** `s.lower()`, character by character. */
  function Lower(s: string): (r: string)
    ensures |r| == |s|
    ensures forall i :: 0 <= i < |s| ==> r[i] == LowerChar(s[i])
  {
    if s == [] then [] else [LowerChar(s[0])] + Lower(s[1..])
  }

  /** Lower-casing twice is lower-casing once. */
  lemma LowerIdempotent(s: string)
    ensures Lower(Lower(s)) == Lower(s)
  {
    var once := Lower(s);
    forall i | 0 <= i < |s|
      ensures Lower(once)[i] == once[i]
    {
      assert !IsAsciiUpper(once[i]);
    }
  }

  /** `needle` sits in `haystack` at offset `k`. */
  ghost predicate OccursAt(haystack: string, needle: string, k: int)
  {
    0 <= k && k + |needle| <= |haystack| && haystack[k..k + |needle|] == needle
  }

  /** `needle in haystack`: try every offset from the left. */
  predicate Contains(haystack: string, needle: string)
    ensures Contains(haystack, needle) ==> |needle| <= |haystack|
    ensures |needle| <= |haystack| && haystack[..|needle|] == needle ==> Contains(haystack, needle)
    decreases |haystack|
  {
    if |needle| > |haystack| then false
    else if haystack[..|needle|] == needle then true
    else |haystack| > 0 && Contains(haystack[1..], needle)
  }

  /** The scan finds the needle exactly when it occurs at some offset. */
  lemma {:induction false} ContainsIff(haystack: string, needle: string)
    ensures Contains(haystack, needle) <==> exists k :: OccursAt(haystack, needle, k)
    decreases |haystack|
  {
    if |needle| > |haystack| {
      assert forall k :: !OccursAt(haystack, needle, k);
    } else if haystack[..|needle|] == needle {
      assert OccursAt(haystack, needle, 0);
    } else {
      var tail := haystack[1..];
      ContainsIff(tail, needle);
      forall k | OccursAt(haystack, needle, k)
        ensures OccursAt(tail, needle, k - 1)
      {
        assert k != 0;
        assert tail[k - 1..k - 1 + |needle|] == haystack[k..k + |needle|];
      }
      forall k | OccursAt(tail, needle, k)
        ensures OccursAt(haystack, needle, k + 1)
      {
        assert tail[k..k + |needle|] == haystack[k + 1..k + 1 + |needle|];
      }
    }
  }

  /** The empty string is a substring of every string. */
  lemma ContainsEmpty(haystack: string)
    ensures Contains(haystack, [])
  {
  }
}
