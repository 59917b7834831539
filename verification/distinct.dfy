/** A sequence spread from a `Set`: the distinct values of a sequence, each once, in the
    order in which each first appears. A JavaScript `Set` iterates in
    insertion order, and inserting a value already present changes nothing. */
module Distinct {

  /** Index of the first occurrence of `x` in `s`. */
  function FirstIndex<T(==)>(s: seq<T>, x: T): (k: nat)
    requires x in s
    ensures k < |s| && s[k] == x
    ensures forall j :: 0 <= j < k ==> s[j] != x
  {
    if s[0] == x then 0 else 1 + FirstIndex(s[1..], x)
  }

  /** No value occurs twice. */
  predicate NoDuplicates<T(==)>(s: seq<T>)
  {
    forall i, j :: 0 <= i < j < |s| ==> s[i] != s[j]
  }

  /** Builds the set by inserting the values of `s` one after another. */
  function Dedup<T(==,!new)>(s: seq<T>): (d: seq<T>)
    ensures NoDuplicates(d)
    ensures forall x :: x in d <==> x in s
  {
    if s == [] then []
    else
      var d := Dedup(s[..|s| - 1]);
      var x := s[|s| - 1];
      assert forall y :: y in s <==> y in s[..|s| - 1] || y == x by {
        assert s == s[..|s| - 1] + [x];
      }
      if x in d then d else d + [x]
  }

  /** Inserting one more value adds it at the end unless it is already there. */
  lemma DedupSnoc<T(!new)>(s: seq<T>, x: T)
    ensures Dedup(s + [x]) == if x in Dedup(s) then Dedup(s) else Dedup(s) + [x]
  {
    assert (s + [x])[..|s|] == s;
  }

  /** A value's first occurrence in a prefix that holds it is its first
      occurrence in the whole sequence. */
  lemma {:induction false} FirstIndexPrefix<T>(s: seq<T>, n: nat, x: T)
    requires n <= |s| && x in s[..n]
    ensures x in s && FirstIndex(s, x) == FirstIndex(s[..n], x)
  {
    if s[0] != x {
      assert s[1..][..n - 1] == s[..n][1..];
      FirstIndexPrefix(s[1..], n - 1, x);
    }
  }

  /** The distinct values come out in order of first appearance. */
  lemma {:induction false} DedupFirstAppearanceOrder<T(!new)>(s: seq<T>)
    ensures forall i, j :: 0 <= i < j < |Dedup(s)| ==>
      FirstIndex(s, Dedup(s)[i]) < FirstIndex(s, Dedup(s)[j])
  {
    if s != [] {
      var p := s[..|s| - 1];
      var x := s[|s| - 1];
      var d := Dedup(p);
      DedupFirstAppearanceOrder(p);
      forall y | y in d
        ensures FirstIndex(s, y) == FirstIndex(p, y) < |s| - 1
      {
        FirstIndexPrefix(s, |s| - 1, y);
      }
      if x !in d {
        assert FirstIndex(s, x) == |s| - 1;
      }
    }
  }
}
