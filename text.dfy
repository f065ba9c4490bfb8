/** The two string operations the search uses: `toLowerCase`, restricted to
    ASCII letters, and `includes`, the substring test. */
module Text {

  predicate IsUpper(c: char) {
    'A' <= c <= 'Z'
  }

  /** An ASCII capital letter becomes its small letter; every other character is kept. */
  function LowerChar(c: char): (r: char)
    ensures !IsUpper(r)
    ensures IsUpper(c) ==> r as int == c as int + 32
    ensures !IsUpper(c) ==> r == c
  {
    if IsUpper(c) then (c as int + 32) as char else c
  }

  /** `s.toLowerCase()` on ASCII: the same length, each capital replaced by its small letter, nothing else touched. */
  function Lower(s: string): (r: string)
    ensures |r| == |s|
    ensures forall i :: 0 <= i < |s| ==> !IsUpper(r[i])
    ensures forall i :: 0 <= i < |s| && IsUpper(s[i]) ==> r[i] as int == s[i] as int + 32
    ensures forall i :: 0 <= i < |s| && !IsUpper(s[i]) ==> r[i] == s[i]
  {
    seq(|s|, i requires 0 <= i < |s| => LowerChar(s[i]))
  }

  /** Lower-casing is character by character, so it distributes over joining strings. */
  lemma LowerConcat(a: string, b: string)
    ensures Lower(a + b) == Lower(a) + Lower(b)
  {
    assert forall i :: 0 <= i < |a + b| ==> Lower(a + b)[i] == (Lower(a) + Lower(b))[i];
  }

  /** Lower-casing a lower-cased string changes nothing. */
  lemma LowerIdempotent(s: string)
    ensures Lower(Lower(s)) == Lower(s)
  {
  }

  /** `needle` occurs in `hay` starting at position `i`. */
  predicate OccursAt(hay: string, needle: string, i: int) {
    0 <= i && i + |needle| <= |hay| && hay[i..i + |needle|] == needle
  }

  /** `hay.includes(needle)`. */
  predicate Contains(hay: string, needle: string)
    ensures Contains(hay, needle) ==> |needle| <= |hay|
  {
    exists i :: 0 <= i <= |hay| - |needle| && OccursAt(hay, needle, i)
  }

  /** Every string includes the empty string, as `includes("")` is always true. */
  lemma ContainsEmpty(hay: string)
    ensures Contains(hay, "")
  {
    assert OccursAt(hay, "", 0);
  }

  /** A string includes itself and everything it starts or ends with. */
  lemma ContainsAffixes(a: string, b: string)
    ensures Contains(a + b, a) && Contains(a + b, b)
  {
    assert OccursAt(a + b, a, 0);
    assert OccursAt(a + b, b, |a|);
  }

  /** A non-empty needle whose first character never appears in `hay` is not included. */
  lemma NotContainsFirstChar(hay: string, needle: string)
    requires needle != []
    requires forall k :: 0 <= k < |hay| ==> hay[k] != needle[0]
    ensures !Contains(hay, needle)
  {
    forall i | 0 <= i <= |hay| - |needle| ensures !OccursAt(hay, needle, i) {
      assert hay[i..i + |needle|][0] == hay[i] != needle[0];
    }
  }

  /** `hay.toLowerCase().includes(needle.toLowerCase())`. */
  predicate ContainsIgnoringCase(hay: string, needle: string) {
    Contains(Lower(hay), Lower(needle))
  }

  /** A non-empty needle whose first letter appears in `hay` in neither case is not included, ignoring case. */
  lemma NotContainsLetterIgnoringCase(hay: string, needle: string)
    requires needle != [] && 'a' <= needle[0] <= 'z'
    requires forall k :: 0 <= k < |hay| ==> hay[k] != needle[0] && hay[k] as int != needle[0] as int - 32
    ensures !ContainsIgnoringCase(hay, needle)
  {
    NotContainsFirstChar(Lower(hay), Lower(needle));
  }

  /** The case of the query does not matter: lower-casing it first gives the same answer. */
  lemma IgnoringCaseOfNeedle(hay: string, needle: string)
    ensures ContainsIgnoringCase(hay, Lower(needle)) == ContainsIgnoringCase(hay, needle)
  {
    LowerIdempotent(needle);
  }

  /** The case of the searched text does not matter either. */
  lemma IgnoringCaseOfHay(hay: string, needle: string)
    ensures ContainsIgnoringCase(Lower(hay), needle) == ContainsIgnoringCase(hay, needle)
  {
    LowerIdempotent(hay);
  }
}
