/** The two JavaScript string tests the cell renderers rely on:
    `String.prototype.startsWith` and `String.prototype.includes`. */
module Strings {

  /** `p` is a prefix of `s`. */
  predicate IsPrefix(p: string, s: string) {
    |p| <= |s| && s[..|p|] == p
  }

  /** `t` occurs in `s` starting at offset `i`. */
  predicate OccursAt(t: string, s: string, i: int) {
    0 <= i && i + |t| <= |s| && s[i..i + |t|] == t
  }

  /** `t` occurs somewhere in `s` (the empty string occurs everywhere). */
  ghost predicate Occurs(t: string, s: string) {
    exists i :: OccursAt(t, s, i)
  }

  /** `s.startsWith(p)`, compared character by character. */
  function StartsWith(s: string, p: string): (r: bool)
    ensures r <==> IsPrefix(p, s)
  {
    if |p| == 0 then true
    else if |s| == 0 then false
    else
      assert IsPrefix(p, s) <==> s[0] == p[0] && IsPrefix(p[1..], s[1..]) by {
        if s[0] == p[0] && IsPrefix(p[1..], s[1..]) {
          assert s[..|p|] == [s[0]] + s[1..][..|p| - 1];
          assert p == [p[0]] + p[1..];
        }
        if IsPrefix(p, s) {
          assert s[1..][..|p| - 1] == s[..|p|][1..];
        }
      }
      s[0] == p[0] && StartsWith(s[1..], p[1..])
  }

  /** Dropping the first character of `s` keeps exactly the occurrences at offsets >= 1. */
  lemma {:induction false} OccursInTail(t: string, s: string)
    requires |s| > 0
    requires !OccursAt(t, s, 0)
    ensures Occurs(t, s) <==> Occurs(t, s[1..])
  {
    if Occurs(t, s) {
      var i :| OccursAt(t, s, i);
      assert i >= 1;
      assert s[1..][i - 1..i - 1 + |t|] == s[i..i + |t|];
      assert OccursAt(t, s[1..], i - 1);
    }
    if Occurs(t, s[1..]) {
      var i :| OccursAt(t, s[1..], i);
      assert s[i + 1..i + 1 + |t|] == s[1..][i..i + |t|];
      assert OccursAt(t, s, i + 1);
    }
  }

  /** `s.includes(t)`: try each offset from the left until `t` starts there. */
  function Includes(s: string, t: string): (r: bool)
    ensures r <==> Occurs(t, s)
    decreases |s|
  {
    if StartsWith(s, t) then
      assert OccursAt(t, s, 0) by { assert s[0..|t|] == s[..|t|]; }
      true
    else if |s| == 0 then
      false
    else
      assert !OccursAt(t, s, 0) by {
        if |t| <= |s| { assert s[0..|t|] == s[..|t|]; }
      }
      OccursInTail(t, s);
      Includes(s[1..], t)
  }

  /** A non-empty `t` whose first character is missing from `s` does not occur in `s`. */
  lemma NoFirstCharNoOccurrence(t: string, s: string)
    requires |t| > 0 && t[0] !in s
    ensures !Occurs(t, s)
  {
  }
}
