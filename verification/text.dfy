/**
 The two java.lang.String operations the quiz relies on, over `string`, a
 sequence of Unicode scalar values. Java's strings are sequences of UTF-16
 code units; the two differ only for characters outside the Basic
 Multilingual Plane, and neither `"x quit"` nor `"remove"` holds one:
 - `Contains(hay, needle)` is `hay.contains(needle)`;
 - `ToLower(s)` is `s.toLowerCase()`, restricted to the ASCII letters.
 */
module Text {

  /** `needle` occurs in `hay` starting at index `i`. */
  predicate OccursAt(hay: string, needle: string, i: int)
  {
    0 <= i && i + |needle| <= |hay| && hay[i..i + |needle|] == needle
  }

  /** `hay.contains(needle)`: a left-to-right search for the first position
      where `needle` is a prefix of the rest of `hay`. The empty string is
      contained in every string. */
  function Contains(hay: string, needle: string): (r: bool)
    ensures r ==> |needle| <= |hay|
    decreases |hay|
  {
    if |needle| > |hay| then false
    else if needle <= hay then true
    else Contains(hay[1..], needle)
  }

  /** The search finds `needle` exactly when it occurs somewhere in `hay`. */
  lemma {:induction false} ContainsIffOccurs(hay: string, needle: string)
    ensures Contains(hay, needle) <==> exists i :: OccursAt(hay, needle, i)
    decreases |hay|
  {
    if |needle| > |hay| {
    } else if needle <= hay {
      assert OccursAt(hay, needle, 0);
    } else {
      ContainsIffOccurs(hay[1..], needle);
      if i :| OccursAt(hay, needle, i) {
        assert i != 0;
        assert hay[1..][i - 1..i - 1 + |needle|] == hay[i..i + |needle|];
        assert OccursAt(hay[1..], needle, i - 1);
      }
      if j :| OccursAt(hay[1..], needle, j) {
        assert hay[1..][j..j + |needle|] == hay[j + 1..j + 1 + |needle|];
        assert OccursAt(hay, needle, j + 1);
      }
    }
  }

  predicate IsUpperAscii(c: char)
  {
    'A' <= c <= 'Z'
  }

  /** `Character.toLowerCase` on one character, for the ASCII letters. */
  function ToLowerChar(c: char): (r: char)
    ensures !IsUpperAscii(r)
    ensures IsUpperAscii(c) || r == c
  {
    if IsUpperAscii(c) then (c as int - 'A' as int + 'a' as int) as char else c
  }

  /** `s.toLowerCase()`: every upper-case ASCII letter replaced by its
      lower-case form, everything else kept, the length unchanged. */
  function ToLower(s: string): (r: string)
    ensures |r| == |s|
    ensures forall k :: 0 <= k < |s| ==> r[k] == ToLowerChar(s[k])
  {
    seq(|s|, k requires 0 <= k < |s| => ToLowerChar(s[k]))
  }

  /** Lower-casing leaves a string without upper-case letters unchanged. */
  lemma ToLowerKeepsLowerCase(s: string)
    requires forall k :: 0 <= k < |s| ==> !IsUpperAscii(s[k])
    ensures ToLower(s) == s
  {
  }

  /** A character lower-cases to the lower-case letter `lower` exactly when it
      is `lower` itself or its upper-case form. */
  lemma ToLowerCharIs(c: char, lower: char)
    requires 'a' <= lower <= 'z'
    ensures ToLowerChar(c) == lower <==> c == lower || c as int == lower as int - 32
  {
  }
}
