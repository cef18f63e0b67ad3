/** The JavaScript string operations the routing and error code relies on. */
module Strings {

  /** `s.startsWith(prefix)`. */
  predicate StartsWith(s: string, prefix: string)
  {
    |prefix| <= |s| && s[..|prefix|] == prefix
  }

  /** `needle` occurs in `s` starting at offset `i`. */
  predicate OccursAt(s: string, needle: string, i: int)
  {
    0 <= i <= |s| - |needle| && s[i..i + |needle|] == needle
  }

  /** `s.includes(needle)`: `needle` occurs at some offset of `s`. */
  predicate Contains(s: string, needle: string)
  {
    exists i | 0 <= i <= |s| - |needle| :: OccursAt(s, needle, i)
  }

  /** Lower-cases one character of the ASCII range; every other character is kept. */
  function LowerChar(c: char): (r: char)
    ensures 'A' <= c <= 'Z' ==> 'a' <= r <= 'z'
    ensures !('A' <= c <= 'Z') ==> r == c
  {
    if 'A' <= c <= 'Z' then (c as int - 'A' as int + 'a' as int) as char else c
  }

  /** `s.toLowerCase()`, restricted to ASCII letters. */
  function ToLower(s: string): (r: string)
    ensures |r| == |s|
    ensures forall i :: 0 <= i < |s| ==> r[i] == LowerChar(s[i])
  {
    if |s| == 0 then "" else [LowerChar(s[0])] + ToLower(s[1..])
  }

  /** A string with no upper-case ASCII letter. */
  predicate IsLower(s: string)
  {
    forall i :: 0 <= i < |s| ==> !('A' <= s[i] <= 'Z')
  }

  /** Lower-casing yields a lower-case string and leaves lower-case strings alone. */
  lemma ToLowerIdempotent(s: string)
    ensures IsLower(ToLower(s))
    ensures IsLower(s) ==> ToLower(s) == s
    ensures ToLower(ToLower(s)) == ToLower(s)
  {
  }

  /**
   * A lower-case needle occurs in the lower-cased text whenever it occurs in
   * the text itself.
   */
  lemma ContainsSurvivesLowering(s: string, needle: string)
    requires IsLower(needle)
    requires Contains(s, needle)
    ensures Contains(ToLower(s), needle)
  {
    var i :| 0 <= i <= |s| - |needle| && OccursAt(s, needle, i);
    var t := ToLower(s);
    forall j | 0 <= j < |needle|
      ensures t[i + j] == needle[j]
    {
      assert s[i..i + |needle|][j] == s[i + j];
    }
    assert t[i..i + |needle|] == needle;
    assert OccursAt(t, needle, i);
  }

  /**
   * The number of UTF-16 code units of `s`, which is what JavaScript's
   * `length` counts: characters outside the Basic Multilingual Plane take two.
   */
  function Utf16Length(s: string): (n: nat)
    ensures |s| <= n <= 2 * |s|
  {
    if |s| == 0 then 0
    else (if s[0] as int > 0xFFFF then 2 else 1) + Utf16Length(s[1..])
  }
}
