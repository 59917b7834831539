/** The string operations the filter and the sort rely on:
    lower-casing, substring search and the title comparison. */
module Text {

  /** Lower-cases one character. Only the ASCII letters A-Z are folded. */
  function LowerChar(c: char): (r: char)
    ensures 'A' <= c <= 'Z' ==> 'a' <= r <= 'z' && r as int == c as int + 32
    ensures !('A' <= c <= 'Z') ==> r == c
  {
    if 'A' <= c <= 'Z' then (c as int + 32) as char else c
  }

  /** `String.prototype.toLowerCase`, restricted to ASCII letters. */
  function Lower(s: string): (r: string)
    ensures |r| == |s|
    ensures forall i :: 0 <= i < |s| ==> r[i] == LowerChar(s[i])
  {
    if s == [] then [] else [LowerChar(s[0])] + Lower(s[1..])
  }

  /** `t` occurs in `s` starting at index `i`. */
  predicate OccursAt(s: string, t: string, i: int)
  {
    0 <= i && i + |t| <= |s| && s[i..i + |t|] == t
  }

  /** `s.includes(t)`: a left-to-right scan for an occurrence of `t`. */
  function Includes(s: string, t: string): bool
  {
    if |t| <= |s| && s[..|t|] == t then true
    else if s == [] then false
    else Includes(s[1..], t)
  }

  /** The scan finds an occurrence exactly when one exists. */
  lemma {:induction false} IncludesIffOccurs(s: string, t: string)
    ensures Includes(s, t) <==> exists i :: OccursAt(s, t, i)
  {
    if |t| <= |s| && s[..|t|] == t {
      assert OccursAt(s, t, 0);
    } else if s == [] {
    } else {
      IncludesIffOccurs(s[1..], t);
      if exists i :: OccursAt(s[1..], t, i) {
        var i :| OccursAt(s[1..], t, i);
        assert s[1..][i..i + |t|] == s[i + 1..i + 1 + |t|];
        assert OccursAt(s, t, i + 1);
      }
      if exists i :: OccursAt(s, t, i) {
        var i :| OccursAt(s, t, i);
        if i == 0 {
          assert false;
        }
        assert s[1..][i - 1..i - 1 + |t|] == s[i..i + |t|];
        assert OccursAt(s[1..], t, i - 1);
      }
    }
  }

  /** The empty string is included in every string. */
  lemma EmptyIncluded(s: string)
    ensures Includes(s, "")
  {
    assert s[..0] == "";
  }

  /** `a.localeCompare(b)`, modelled as a lexicographic comparison of
      Unicode code points: negative, zero or positive as `a` sorts before,
      with or after `b`. */
  function CodePointCompare(a: string, b: string): (r: int)
    ensures -1 <= r <= 1
  {
    if a == [] && b == [] then 0
    else if a == [] then -1
    else if b == [] then 1
    else if a[0] < b[0] then -1
    else if b[0] < a[0] then 1
    else CodePointCompare(a[1..], b[1..])
  }

  /** Swapping the arguments flips the sign of the comparison. */
  lemma {:induction false} CompareAntisymmetric(a: string, b: string)
    ensures CodePointCompare(a, b) == -CodePointCompare(b, a)
  {
    if a != [] && b != [] && a[0] == b[0] {
      CompareAntisymmetric(a[1..], b[1..]);
    }
  }

  /** "Sorts no later than" is transitive. */
  lemma {:induction false} CompareTransitive(a: string, b: string, c: string)
    requires CodePointCompare(a, b) <= 0 && CodePointCompare(b, c) <= 0
    ensures CodePointCompare(a, c) <= 0
  {
    if a != [] && b != [] && c != [] && a[0] == b[0] && b[0] == c[0] {
      CompareTransitive(a[1..], b[1..], c[1..]);
    }
  }
}
