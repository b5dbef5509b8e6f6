/**
 * JavaScript's `String.prototype.startsWith`, `endsWith` and `includes`
 * (with no position argument), over strings as sequences of characters.
 */
module Text {

  /** `s.startsWith(p)`: `p` is a prefix of `s`. */
  function StartsWith(s: string, p: string): (b: bool)
    ensures b <==> |p| <= |s| && forall i :: 0 <= i < |p| ==> s[i] == p[i]
  {
    |p| <= |s| && s[..|p|] == p
  }

  /** `s.endsWith(p)`: `p` is a suffix of `s`. */
  function EndsWith(s: string, p: string): (b: bool)
    ensures b <==> |p| <= |s| && forall i :: 0 <= i < |p| ==> s[|s| - |p| + i] == p[i]
  {
    |p| <= |s| && s[|s| - |p|..] == p
  }

  /** `sub` occurs in `s` starting at index `i`. */
  predicate OccursAt(s: string, sub: string, i: int)
  {
    0 <= i && i + |sub| <= |s| && s[i..i + |sub|] == sub
  }

  /** An occurrence in the tail of `s` is an occurrence in `s` one index further on. */
  lemma OccursInTail(s: string, sub: string)
    requires |s| > 0
    ensures forall j :: 0 <= j ==> (OccursAt(s[1..], sub, j) <==> OccursAt(s, sub, j + 1))
  {
    forall j | 0 <= j ensures OccursAt(s[1..], sub, j) <==> OccursAt(s, sub, j + 1) {
      if 0 <= j && j + |sub| <= |s| - 1 {
        assert s[1..][j..j + |sub|] == s[j + 1..j + 1 + |sub|];
      }
    }
  }

  /** `s.includes(sub)`: the search tries each start position of `s` from the
      left, and it succeeds exactly when `sub` occurs at some index. */
  function Includes(s: string, sub: string): (b: bool)
    ensures b <==> exists i :: OccursAt(s, sub, i)
    decreases |s|
  {
    if StartsWith(s, sub) then
      assert OccursAt(s, sub, 0);
      true
    else if |s| == 0 then
      false
    else
      var found := Includes(s[1..], sub);
      OccursInTail(s, sub);
      assert found ==> exists i :: OccursAt(s, sub, i) by {
        if found {
          var j :| OccursAt(s[1..], sub, j);
          assert OccursAt(s, sub, j + 1);
        }
      }
      assert (exists i :: OccursAt(s, sub, i)) ==> found by {
        if i :| OccursAt(s, sub, i) {
          assert i != 0;
          assert OccursAt(s[1..], sub, i - 1);
        }
      }
      found
  }

  /** The empty string is a prefix, a suffix and a substring of every string. */
  lemma EmptyMatchesAll(s: string)
    ensures StartsWith(s, []) && EndsWith(s, []) && Includes(s, [])
  {
    assert OccursAt(s, [], 0);
  }

  /** A suffix is a substring. */
  lemma EndsWithIncludes(s: string, p: string)
    requires EndsWith(s, p)
    ensures Includes(s, p)
  {
    assert OccursAt(s, p, |s| - |p|);
  }
}
