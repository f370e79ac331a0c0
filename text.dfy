/**
 * The two string operations the concept lookup relies on: lower-casing
 * (Python's `str.lower`, restricted to ASCII) and the substring test
 * (Python's `p in s` on two strings).
 */
module Text {

  predicate IsUpper(c: char) {
    'A' <= c <= 'Z'
  }

  /** One character lower-cased: the 26 ASCII capitals move to their small letters. */
  function LowerChar(c: char): (r: char)
    ensures !IsUpper(r)
    ensures IsUpper(c) ==> 'a' <= r <= 'z' && r as int - c as int == 'a' as int - 'A' as int
    ensures !IsUpper(c) ==> r == c
  {
    if IsUpper(c) then (c as int - 'A' as int + 'a' as int) as char else c
  }

  /** `s.lower()`: the same length, every character lower-cased in place. */
  function Lower(s: string): (r: string)
    ensures |r| == |s|
    ensures forall i :: 0 <= i < |s| ==> r[i] == LowerChar(s[i])
  {
    if s == [] then [] else [LowerChar(s[0])] + Lower(s[1..])
  }

  /** Lower-casing twice is lower-casing once. */
  lemma LowerIdempotent(s: string)
    ensures Lower(Lower(s)) == Lower(s)
  {
  }

  /** A string without ASCII capitals is left as it is. */
  lemma LowerKeepsLowercase(s: string)
    requires forall i :: 0 <= i < |s| ==> !IsUpper(s[i])
    ensures Lower(s) == s
  {
  }

  /** Lower-casing works character by character, so it distributes over concatenation. */
  lemma LowerAppend(a: string, b: string)
    ensures Lower(a + b) == Lower(a) + Lower(b)
  {
  }

  /** `p` occurs in `s` starting at index `i`. */
  predicate OccursAt(p: string, s: string, i: int) {
    0 <= i && i + |p| <= |s| && s[i..i + |p|] == p
  }

  /** `p in s`: `p` is a prefix of `s` or occurs in the rest of `s`. */
  function Contains(s: string, p: string): (b: bool)
    ensures p <= s ==> b
    ensures |p| > |s| ==> !b
  {
    if p <= s then true
    else if s == [] then false
    else Contains(s[1..], p)
  }

  /**
   * The search agrees with the definition of a substring: it succeeds
   * exactly when `p` occurs at some index of `s` (the empty string
   * occurs everywhere).
   */
  lemma {:induction false} ContainsCorrect(s: string, p: string)
    ensures Contains(s, p) <==> exists i :: OccursAt(p, s, i)
  {
    if p <= s {
      assert s[0..|p|] == p;
      assert OccursAt(p, s, 0);
    } else if s == [] {
    } else {
      ContainsCorrect(s[1..], p);
      if exists i :: OccursAt(p, s[1..], i) {
        var i :| OccursAt(p, s[1..], i);
        assert s[1..][i..i + |p|] == s[i + 1..i + 1 + |p|];
        assert OccursAt(p, s, i + 1);
      }
      if exists i :: OccursAt(p, s, i) {
        var i :| OccursAt(p, s, i);
        assert i != 0;
        assert s[1..][i - 1..i - 1 + |p|] == s[i..i + |p|];
        assert OccursAt(p, s[1..], i - 1);
      }
    }
  }

  /** A phrase without capitals is found in any text that embeds it, whatever the case of the rest. */
  lemma FoundAfterLowering(before: string, p: string, after: string)
    requires forall i :: 0 <= i < |p| ==> !IsUpper(p[i])
    ensures Contains(Lower(before + p + after), p)
  {
    LowerAppend(before + p, after);
    LowerAppend(before, p);
    LowerKeepsLowercase(p);
    var l := Lower(before) + p + Lower(after);
    assert l[|before|..|before| + |p|] == p;
    assert OccursAt(p, l, |before|);
    ContainsCorrect(l, p);
  }


}
