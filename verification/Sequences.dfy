/** Sequences without repetition, and the first occurrences in a sequence. */
module Sequences {
  ghost predicate Distinct<T>(s: seq<T>) {
    forall i, j :: 0 <= i < j < |s| ==> s[i] != s[j]
  }

  lemma DistinctAppend<T>(s: seq<T>, x: T)
    requires Distinct(s) && x !in s
    ensures Distinct(s + [x])
  {
  }

  /** The distinct elements, in the order in which they first occur. */
  ghost function FirstUses<T>(s: seq<T>): seq<T> {
    if s == [] then []
    else
      var before, last := FirstUses(s[..|s| - 1]), s[|s| - 1];
      if last in before then before else before + [last]
  }

  lemma FirstUsesStep<T>(s: seq<T>, x: T)
    ensures FirstUses(s + [x]) == if x in FirstUses(s) then FirstUses(s) else FirstUses(s) + [x]
  {
    assert (s + [x])[..|s|] == s;
  }

  lemma {:induction false} FirstUsesAreDistinct<T>(s: seq<T>)
    ensures Distinct(FirstUses(s))
    ensures forall x :: x in FirstUses(s) <==> x in s
  {
    if s == [] {
    } else {
      FirstUsesAreDistinct(s[..|s| - 1]);
      assert s == s[..|s| - 1] + [s[|s| - 1]];
    }
  }
}
