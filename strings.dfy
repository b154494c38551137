/** String primitives the filters are built from: substring search as Go's
    strings.Contains performs it, and ASCII lower-casing standing in for
    strings.ToLower. */
module Strings {

  /** `sub` occurs in `s` starting at index `i`. */
  predicate OccursAt(s: string, sub: string, i: int)
  {
    0 <= i && i + |sub| <= |s| && s[i..i + |sub|] == sub
  }

  /** An occurrence at index i >= 1 of `s` is an occurrence at i - 1 of its tail. */
  lemma OccursInTail(s: string, sub: string, i: int)
    requires |s| > 0 && i >= 1
    ensures OccursAt(s, sub, i) <==> OccursAt(s[1..], sub, i - 1)
  {
    if i + |sub| <= |s| {
      assert s[i..i + |sub|] == s[1..][i - 1..i - 1 + |sub|];
    }
  }

  /** An occurrence fixes each character it covers. */
  lemma OccurrenceChar(s: string, sub: string, i: int, k: int)
    ensures OccursAt(s, sub, i) && 0 <= k < |sub| ==> s[i + k] == sub[k]
  {
    if OccursAt(s, sub, i) && 0 <= k < |sub| {
      assert s[i..i + |sub|][k] == s[i + k];
    }
  }

  /** `sub` occurs in `a + sub + b` right after `a`. */
  lemma OccursBetween(a: string, sub: string, b: string)
    ensures OccursAt(a + sub + b, sub, |a|)
  {
    assert (a + sub + b)[|a|..|a| + |sub|] == sub;
  }

  /** Plain, case-sensitive substring test; the empty string occurs in every string. */
  function Contains(s: string, sub: string): (found: bool)
    ensures found <==> exists i :: OccursAt(s, sub, i)
    decreases |s|
  {
    if sub <= s then
      assert OccursAt(s, sub, 0);
      true
    else if |s| == 0 then
      false
    else
      var rest := Contains(s[1..], sub);
      assert rest ==> exists i :: OccursAt(s, sub, i) by {
        if rest {
          var j :| OccursAt(s[1..], sub, j);
          OccursInTail(s, sub, j + 1);
        }
      }
      assert (exists i :: OccursAt(s, sub, i)) ==> rest by {
        if exists i :: OccursAt(s, sub, i) {
          var i :| OccursAt(s, sub, i);
          assert i != 0;
          OccursInTail(s, sub, i);
        }
      }
      rest
  }

  /** ASCII upper-case letters map to lower case; every other character is unchanged. */
  function LowerChar(c: char): char
  {
    if 'A' <= c <= 'Z' then (c as int - 'A' as int + 'a' as int) as char else c
  }

  function ToLower(s: string): string
  {
    seq(|s|, i requires 0 <= i < |s| => LowerChar(s[i]))
  }

  /** ASCII lower-casing keeps the length, turns every upper-case ASCII letter
      into its own lower-case letter, and leaves every other character as it is. */
  lemma ToLowerLowers(s: string)
    ensures |ToLower(s)| == |s|
    ensures forall i :: 0 <= i < |s| ==> !('A' <= ToLower(s)[i] <= 'Z')
    ensures forall i :: 0 <= i < |s| && 'A' <= s[i] <= 'Z' ==>
              ToLower(s)[i] == FlipCase(s[i]) && 'a' <= ToLower(s)[i] <= 'z'
    ensures forall i :: 0 <= i < |s| && !('A' <= s[i] <= 'Z') ==> ToLower(s)[i] == s[i]
  {
  }

  lemma ToLowerConcat(a: string, b: string)
    ensures ToLower(a + b) == ToLower(a) + ToLower(b)
  {
  }

  /** Swaps the case of an ASCII letter; any other character is unchanged. */
  function FlipCase(c: char): char
  {
    if 'A' <= c <= 'Z' then (c as int - 'A' as int + 'a' as int) as char
    else if 'a' <= c <= 'z' then (c as int - 'a' as int + 'A' as int) as char
    else c
  }

  /** `t` is `s` with the case of any number of its ASCII letters flipped. */
  predicate CaseVariant(s: string, t: string)
  {
    |s| == |t| && forall i :: 0 <= i < |s| ==> t[i] == s[i] || t[i] == FlipCase(s[i])
  }

  lemma CaseVariantLowersAlike(s: string, t: string)
    requires CaseVariant(s, t)
    ensures ToLower(s) == ToLower(t)
  {
    forall i | 0 <= i < |s|
      ensures ToLower(s)[i] == ToLower(t)[i]
    {
      assert LowerChar(FlipCase(s[i])) == LowerChar(s[i]);
    }
  }
}
