/** Stable sorting by a comparison, as insertion into a sorted sequence. */
module StableSorting {
  /** Never both ways, and "not after" is transitive: a strict weak order on the elements of s. */
  ghost predicate StrictWeakOrder<T(!new)>(before: (T, T) -> bool, s: seq<T>) {
    && (forall a, b :: a in s && b in s && before(a, b) ==> !before(b, a))
    && (forall a, b, c :: a in s && b in s && c in s && !before(b, a) && !before(c, b) ==> !before(c, a))
  }

  ghost predicate Sorted<T>(before: (T, T) -> bool, s: seq<T>) {
    forall i, j :: 0 <= i < j < |s| ==> !before(s[j], s[i])
  }

  /** Places x behind every element it does not come before. */
  function Insert<T>(before: (T, T) -> bool, sorted: seq<T>, x: T): seq<T> {
    if sorted == [] then [x]
    else if before(x, sorted[0]) then [x] + sorted
    else [sorted[0]] + Insert(before, sorted[1..], x)
  }

  function StableSort<T>(before: (T, T) -> bool, s: seq<T>): seq<T> {
    if s == [] then [] else Insert(before, StableSort(before, s[..|s| - 1]), s[|s| - 1])
  }

  lemma {:induction false} InsertElements<T>(before: (T, T) -> bool, sorted: seq<T>, x: T)
    ensures multiset(Insert(before, sorted, x)) == multiset(sorted) + multiset{x}
  {
    if sorted == [] {
    } else {
      assert sorted == [sorted[0]] + sorted[1..];
      if !before(x, sorted[0]) {
        InsertElements(before, sorted[1..], x);
      }
    }
  }

  lemma {:induction false} InsertSorts<T(!new)>(before: (T, T) -> bool, sorted: seq<T>, x: T, all: seq<T>)
    requires Sorted(before, sorted) && StrictWeakOrder(before, all)
    requires x in all && forall y :: y in sorted ==> y in all
    ensures Sorted(before, Insert(before, sorted, x))
  {
    if sorted == [] {
    } else {
      var r := Insert(before, sorted, x);
      if before(x, sorted[0]) {
        forall i, j | 0 <= i < j < |r|
          ensures !before(r[j], r[i])
        {
          if i == 0 && j > 1 {
            assert !before(sorted[j - 1], sorted[0]);
            assert sorted[j - 1] in all && sorted[0] in all;
          }
        }
      } else {
        InsertSorts(before, sorted[1..], x, all);
        InsertElements(before, sorted[1..], x);
        var tail := Insert(before, sorted[1..], x);
        forall i, j | 0 <= i < j < |r|
          ensures !before(r[j], r[i])
        {
          if i == 0 {
            assert tail[j - 1] in multiset(tail);
            assert tail[j - 1] == x || tail[j - 1] in sorted[1..];
          } else {
            assert r[i] == tail[i - 1] && r[j] == tail[j - 1];
          }
        }
      }
    }
  }

  lemma SameElements<T>(a: seq<T>, b: seq<T>)
    requires multiset(a) == multiset(b)
    ensures |a| == |b| && forall x :: x in a <==> x in b
  {
    assert |a| == |multiset(a)| == |multiset(b)| == |b|;
    forall x
      ensures x in a <==> x in b
    {
      assert x in a <==> x in multiset(a);
      assert x in b <==> x in multiset(b);
    }
  }

  lemma {:induction false} StableSortElements<T>(before: (T, T) -> bool, s: seq<T>)
    ensures multiset(StableSort(before, s)) == multiset(s)
    ensures |StableSort(before, s)| == |s|
    ensures forall x :: x in StableSort(before, s) <==> x in s
  {
    hide Insert;
    if s == [] {
    } else {
      var init, last := s[..|s| - 1], s[|s| - 1];
      StableSortElements(before, init);
      InsertElements(before, StableSort(before, init), last);
      assert s == init + [last];
      SameElements(StableSort(before, s), s);
    }
  }

  /** The result is the same elements in order. */
  lemma {:induction false} StableSortSorts<T(!new)>(before: (T, T) -> bool, s: seq<T>)
    requires StrictWeakOrder(before, s)
    ensures Sorted(before, StableSort(before, s))
  {
    if s == [] {
    } else {
      var init := s[..|s| - 1];
      StableSortSorts(before, init);
      StableSortElements(before, init);
      InsertSorts(before, StableSort(before, init), s[|s| - 1], s);
    }
  }

  lemma {:induction false} InsertAtEnd<T>(before: (T, T) -> bool, sorted: seq<T>, x: T)
    requires forall i :: 0 <= i < |sorted| ==> !before(x, sorted[i])
    ensures Insert(before, sorted, x) == sorted + [x]
  {
    if sorted == [] {
    } else {
      InsertAtEnd(before, sorted[1..], x);
    }
  }

  /** A sequence already in order is left alone: elements that tie keep their order. */
  lemma {:induction false} StableSortOfSorted<T>(before: (T, T) -> bool, s: seq<T>)
    requires Sorted(before, s)
    ensures StableSort(before, s) == s
  {
    if s == [] {
    } else {
      var init := s[..|s| - 1];
      StableSortOfSorted(before, init);
      InsertAtEnd(before, init, s[|s| - 1]);
    }
  }

  /** a stands before b in a stable sort of increasing numbers: it comes before, or it ties and is smaller. */
  ghost predicate Ahead(before: (nat, nat) -> bool, a: nat, b: nat) {
    before(a, b) || (!before(b, a) && a < b)
  }

  ghost predicate StablySorted(before: (nat, nat) -> bool, s: seq<nat>) {
    forall i, j :: 0 <= i < j < |s| ==> Ahead(before, s[i], s[j])
  }

  lemma AheadOfTheFirst(before: (nat, nat) -> bool, x: nat, first: nat, y: nat, all: seq<nat>)
    requires StrictWeakOrder(before, all) && x in all && first in all && y in all
    requires before(x, first) && (y == first || Ahead(before, first, y))
    ensures Ahead(before, x, y)
  {
    if y != first {
      assert !before(y, first);
      assert before(x, y);
    }
  }

  lemma StableFront(before: (nat, nat) -> bool, first: nat, rest: seq<nat>)
    requires StablySorted(before, rest) && forall y :: y in rest ==> Ahead(before, first, y)
    ensures StablySorted(before, [first] + rest)
  {
    hide Ahead;
    var s := [first] + rest;
    forall i, j | 0 <= i < j < |s|
      ensures Ahead(before, s[i], s[j])
    {
      assert s[j] == rest[j - 1];
    }
  }

  lemma StableRest(before: (nat, nat) -> bool, s: seq<nat>)
    requires StablySorted(before, s) && s != []
    ensures StablySorted(before, s[1..]) && forall y :: y in s[1..] ==> Ahead(before, s[0], y)
  {
    hide Ahead;
  }

  lemma {:induction false} InsertIsStable(before: (nat, nat) -> bool, sorted: seq<nat>, x: nat, all: seq<nat>)
    requires StablySorted(before, sorted) && StrictWeakOrder(before, all)
    requires x in all && forall y :: y in sorted ==> y in all && y < x
    ensures StablySorted(before, Insert(before, sorted, x))
    ensures forall y :: y in Insert(before, sorted, x) ==> y == x || y in sorted
  {
    hide StablySorted, Ahead, StrictWeakOrder;
    if sorted == [] {
      StableSingle(before, x);
    } else if before(x, sorted[0]) {
      StableRest(before, sorted);
      forall y | y in sorted
        ensures Ahead(before, x, y)
      {
        AheadOfTheFirst(before, x, sorted[0], y, all);
      }
      StableFront(before, x, sorted);
    } else {
      StableRest(before, sorted);
      InsertIsStable(before, sorted[1..], x, all);
      assert sorted[0] in sorted;
      BehindTheFirst(before, sorted[0], x);
      StableFront(before, sorted[0], Insert(before, sorted[1..], x));
    }
  }

  lemma StableSingle(before: (nat, nat) -> bool, x: nat)
    ensures StablySorted(before, [x])
  {
  }

  lemma BehindTheFirst(before: (nat, nat) -> bool, first: nat, x: nat)
    requires !before(x, first) && first < x
    ensures Ahead(before, first, x)
  {
  }

  /** Of increasing numbers, those that tie keep their order. */
  lemma {:induction false} StableSortIsStable(before: (nat, nat) -> bool, s: seq<nat>)
    requires StrictWeakOrder(before, s) && forall i, j :: 0 <= i < j < |s| ==> s[i] < s[j]
    ensures StablySorted(before, StableSort(before, s))
  {
    if s == [] {
    } else {
      var init := s[..|s| - 1];
      StableSortIsStable(before, init);
      StableSortElements(before, init);
      InsertIsStable(before, StableSort(before, init), s[|s| - 1], s);
    }
  }

  function Reversed<T>(s: seq<T>): (r: seq<T>)
    ensures |r| == |s|
    ensures forall i :: 0 <= i < |s| ==> r[i] == s[|s| - 1 - i]
  {
    if s == [] then [] else [s[|s| - 1]] + Reversed(s[..|s| - 1])
  }

  /** A sequence in exactly the opposite order, without ties, is reversed. */
  lemma {:induction false} StableSortOfReversed<T>(before: (T, T) -> bool, s: seq<T>)
    requires forall i, j :: 0 <= i < j < |s| ==> before(s[j], s[i])
    ensures StableSort(before, s) == Reversed(s)
  {
    if s == [] {
    } else {
      StableSortOfReversed(before, s[..|s| - 1]);
    }
  }
}
