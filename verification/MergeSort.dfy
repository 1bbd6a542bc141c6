/**
 The list edits that merging and sorting perform, as functions on sequences, and why they sort:
 for a strict weak order the result is ordered, holds the same elements, and keeps equivalent
 elements in their original order.
 */
module MergeSort {

  /** Takes from b only when its head is strictly less, so that ties keep a first. */
  function Merged<T>(compare: (T, T) -> bool, a: seq<T>, b: seq<T>): seq<T>
    decreases |a| + |b|
  {
    if a == [] then b
    else if b == [] then a
    else if compare(b[0], a[0]) then [b[0]] + Merged(compare, a, b[1..])
    else [a[0]] + Merged(compare, a[1..], b)
  }

  /** Splits off the first ceil(n/2) elements, sorts both parts and merges them. */
  function Sorted<T>(compare: (T, T) -> bool, s: seq<T>): seq<T>
    decreases |s|
  {
    if |s| <= 1 then s
    else
      var mid := (|s| + 1) / 2;
      Merged(compare, Sorted(compare, s[..mid]), Sorted(compare, s[mid..]))
  }

  predicate Equivalent<T>(compare: (T, T) -> bool, x: T, y: T) {
    !compare(x, y) && !compare(y, x)
  }

  ghost predicate StrictWeakOrder<T>(compare: (T, T) -> bool, on: set<T>) {
    && (forall x | x in on :: !compare(x, x))
    && (forall x, y, z | x in on && y in on && z in on ::
          compare(x, y) && compare(y, z) ==> compare(x, z))
    && (forall x, y, z | x in on && y in on && z in on ::
          Equivalent(compare, x, y) && Equivalent(compare, y, z) ==> Equivalent(compare, x, z))
  }

  ghost predicate Within<T>(s: seq<T>, on: set<T>) {
    forall i :: 0 <= i < |s| ==> s[i] in on
  }

  /** No element is strictly less than an earlier one. */
  ghost predicate Ordered<T>(compare: (T, T) -> bool, s: seq<T>) {
    forall i, j :: 0 <= i < j < |s| ==> !compare(s[j], s[i])
  }

  /** The elements of s equivalent to g, in the order in which they occur. */
  function Class<T>(compare: (T, T) -> bool, g: T, s: seq<T>): seq<T> {
    if s == [] then []
    else if Equivalent(compare, g, s[0]) then [s[0]] + Class(compare, g, s[1..])
    else Class(compare, g, s[1..])
  }

  lemma {:induction false} MergedMultiset<T>(compare: (T, T) -> bool, a: seq<T>, b: seq<T>)
    ensures multiset(Merged(compare, a, b)) == multiset(a) + multiset(b)
    decreases |a| + |b|
  {
    if a != [] && b != [] {
      if compare(b[0], a[0]) {
        assert b == [b[0]] + b[1..];
        MergedMultiset(compare, a, b[1..]);
      } else {
        assert a == [a[0]] + a[1..];
        MergedMultiset(compare, a[1..], b);
      }
    }
  }

  /** Whatever is below every element of both inputs is below every element of the merge. */
  lemma {:induction false} MergedBound<T>(compare: (T, T) -> bool, a: seq<T>, b: seq<T>, x: T)
    requires forall i :: 0 <= i < |a| ==> !compare(a[i], x)
    requires forall i :: 0 <= i < |b| ==> !compare(b[i], x)
    ensures forall i :: 0 <= i < |Merged(compare, a, b)| ==> !compare(Merged(compare, a, b)[i], x)
    decreases |a| + |b|
  {
    if a != [] && b != [] {
      if compare(b[0], a[0]) {
        MergedBound(compare, a, b[1..], x);
      } else {
        MergedBound(compare, a[1..], b, x);
      }
    }
  }

  lemma {:induction false} MergedOrdered<T>(compare: (T, T) -> bool, a: seq<T>, b: seq<T>, on: set<T>)
    requires StrictWeakOrder(compare, on) && Within(a, on) && Within(b, on)
    requires Ordered(compare, a) && Ordered(compare, b)
    ensures Ordered(compare, Merged(compare, a, b))
    decreases |a| + |b|
  {
    if a != [] && b != [] {
      if compare(b[0], a[0]) {
        MergedOrdered(compare, a, b[1..], on);
        AboveHead(compare, a, b[0], on);
        MergedBound(compare, a, b[1..], b[0]);
      } else {
        MergedOrdered(compare, a[1..], b, on);
        NotBelowHead(compare, b, a[0], on);
        MergedBound(compare, a[1..], b, a[0]);
      }
    }
  }

  /** What is strictly less than the head of an ordered sequence is strictly less than all of it. */
  lemma AboveHead<T>(compare: (T, T) -> bool, a: seq<T>, x: T, on: set<T>)
    requires StrictWeakOrder(compare, on) && Within(a, on) && x in on
    requires a != [] && Ordered(compare, a) && compare(x, a[0])
    ensures forall i :: 0 <= i < |a| ==> compare(x, a[i]) && !compare(a[i], x)
  {
    forall i | 0 <= i < |a|
      ensures compare(x, a[i]) && !compare(a[i], x)
    {
      assert i > 0 ==> !compare(a[i], a[0]);
    }
  }

  lemma NotBelowHead<T>(compare: (T, T) -> bool, b: seq<T>, x: T, on: set<T>)
    requires StrictWeakOrder(compare, on) && Within(b, on) && x in on
    requires b != [] && Ordered(compare, b) && !compare(b[0], x)
    ensures forall i :: 0 <= i < |b| ==> !compare(b[i], x)
  {
    forall i | 0 <= i < |b|
      ensures !compare(b[i], x)
    {
      assert i > 0 ==> !compare(b[i], b[0]);
    }
  }

  lemma {:induction false} ClassAppend<T>(compare: (T, T) -> bool, g: T, a: seq<T>, b: seq<T>)
    ensures Class(compare, g, a + b) == Class(compare, g, a) + Class(compare, g, b)
  {
    if a == [] {
      assert a + b == b;
    } else {
      assert (a + b)[1..] == a[1..] + b;
      ClassAppend(compare, g, a[1..], b);
    }
  }

  lemma {:induction false} ClassEmpty<T>(compare: (T, T) -> bool, g: T, a: seq<T>)
    requires forall i :: 0 <= i < |a| ==> !Equivalent(compare, g, a[i])
    ensures Class(compare, g, a) == []
  {
    if a != [] {
      ClassEmpty(compare, g, a[1..]);
    }
  }

  /** An ordered sequence above x has no element equivalent to what x is equivalent to. */
  lemma ClassOfAbove<T>(compare: (T, T) -> bool, g: T, a: seq<T>, x: T, on: set<T>)
    requires StrictWeakOrder(compare, on) && Within(a, on) && x in on && g in on
    requires a != [] && Ordered(compare, a) && compare(x, a[0]) && Equivalent(compare, g, x)
    ensures Class(compare, g, a) == []
  {
    AboveHead(compare, a, x, on);
    forall i | 0 <= i < |a|
      ensures !Equivalent(compare, g, a[i])
    {
      assert Equivalent(compare, x, g);
    }
    ClassEmpty(compare, g, a);
  }

  lemma {:induction false} MergedStable<T>(compare: (T, T) -> bool, a: seq<T>, b: seq<T>, g: T, on: set<T>)
    requires StrictWeakOrder(compare, on) && Within(a, on) && Within(b, on) && g in on
    requires Ordered(compare, a)
    ensures Class(compare, g, Merged(compare, a, b)) == Class(compare, g, a) + Class(compare, g, b)
    decreases |a| + |b|
  {
    hide StrictWeakOrder;
    if a != [] && b != [] {
      if compare(b[0], a[0]) {
        MergedStable(compare, a, b[1..], g, on);
        if Equivalent(compare, g, b[0]) {
          ClassOfAbove(compare, g, a, b[0], on);
        }
      } else {
        MergedStable(compare, a[1..], b, g, on);
      }
    }
  }

  /** Sorting keeps the elements, whatever the comparison does. */
  lemma {:induction false} SortedMultiset<T>(compare: (T, T) -> bool, s: seq<T>)
    ensures multiset(Sorted(compare, s)) == multiset(s)
    decreases |s|
  {
    if |s| > 1 {
      hide Merged;
      var mid := (|s| + 1) / 2;
      SortedMultiset(compare, s[..mid]);
      SortedMultiset(compare, s[mid..]);
      assert s == s[..mid] + s[mid..];
      MergedMultiset(compare, Sorted(compare, s[..mid]), Sorted(compare, s[mid..]));
    }
  }

  /** Sorting any sequence by any strict weak order on its elements: same elements, ordered. */
  lemma {:induction false} SortedIsOrderedPermutation<T>(compare: (T, T) -> bool, s: seq<T>, on: set<T>)
    requires StrictWeakOrder(compare, on) && Within(s, on)
    ensures multiset(Sorted(compare, s)) == multiset(s)
    ensures Within(Sorted(compare, s), on)
    ensures Ordered(compare, Sorted(compare, s))
    decreases |s|
  {
    SortedMultiset(compare, s);
    SameElements(Sorted(compare, s), s, on);
    if |s| > 1 {
      hide StrictWeakOrder, Ordered, Merged;
      var mid := (|s| + 1) / 2;
      var a, b := Sorted(compare, s[..mid]), Sorted(compare, s[mid..]);
      SortedIsOrderedPermutation(compare, s[..mid], on);
      SortedIsOrderedPermutation(compare, s[mid..], on);
      MergedOrdered(compare, a, b, on);
    }
  }

  lemma SameElements<T>(s: seq<T>, t: seq<T>, on: set<T>)
    requires multiset(s) == multiset(t) && Within(t, on)
    ensures Within(s, on)
  {
    forall i | 0 <= i < |s|
      ensures s[i] in on
    {
      assert s[i] in multiset(t);
    }
  }

  /** Sorting is stable: equivalent elements keep the order they had. */
  lemma {:induction false} SortedIsStable<T>(compare: (T, T) -> bool, s: seq<T>, g: T, on: set<T>)
    requires StrictWeakOrder(compare, on) && Within(s, on) && g in on
    ensures Class(compare, g, Sorted(compare, s)) == Class(compare, g, s)
    decreases |s|
  {
    hide StrictWeakOrder, Ordered, Class, Merged;
    if |s| > 1 {
      var mid := (|s| + 1) / 2;
      SortedIsStable(compare, s[..mid], g, on);
      SortedIsStable(compare, s[mid..], g, on);
      SortedIsOrderedPermutation(compare, s[..mid], on);
      SortedIsOrderedPermutation(compare, s[mid..], on);
      MergedStable(compare, Sorted(compare, s[..mid]), Sorted(compare, s[mid..]), g, on);
      ClassAppend(compare, g, s[..mid], s[mid..]);
      assert s == s[..mid] + s[mid..];
    }
  }

  // ----- Removing consecutive duplicates -----

  /** Drops every element that matches the last element kept before it. */
  function Uniqued<T>(matches: (T, T) -> bool, s: seq<T>): seq<T>
    decreases |s|
  {
    if |s| <= 1 then s
    else if matches(s[0], s[1]) then Uniqued(matches, [s[0]] + s[2..])
    else [s[0]] + Uniqued(matches, s[1..])
  }

  /** The elements from position i on that begin a run of matching neighbours. */
  function RunHeads<T>(matches: (T, T) -> bool, s: seq<T>, i: nat): seq<T>
    requires i <= |s|
    decreases |s| - i
  {
    if i == |s| then []
    else (if i == 0 || !matches(s[i - 1], s[i]) then [s[i]] else []) + RunHeads(matches, s, i + 1)
  }

  ghost predicate IsEquivalence<T>(matches: (T, T) -> bool, on: set<T>) {
    && (forall x | x in on :: matches(x, x))
    && (forall x, y | x in on && y in on && matches(x, y) :: matches(y, x))
    && (forall x, y, z | x in on && y in on && z in on && matches(x, y) && matches(y, z) :: matches(x, z))
  }

  lemma {:induction false} UniquedFrom<T>(matches: (T, T) -> bool, s: seq<T>, i: nat, x: T, on: set<T>)
    requires IsEquivalence(matches, on) && Within(s, on) && x in on
    requires 1 <= i <= |s| && matches(x, s[i - 1])
    ensures Uniqued(matches, [x] + s[i..]) == [x] + RunHeads(matches, s, i)
    decreases |s| - i
  {
    if i < |s| {
      hide Uniqued, RunHeads;
      assert s[i..] == [s[i]] + s[i + 1..];
      UniquedCons(matches, x, s[i], s[i + 1..]);
      RunHeadsStep(matches, s, i);
      RelatedToPrevious(matches, s, i, x, on);
      if matches(x, s[i]) {
        UniquedFrom(matches, s, i + 1, x, on);
      } else {
        UniquedFrom(matches, s, i + 1, s[i], on);
      }
    }
  }

  lemma UniquedCons<T>(matches: (T, T) -> bool, x: T, y: T, rest: seq<T>)
    ensures Uniqued(matches, [x] + ([y] + rest)) ==
      if matches(x, y) then Uniqued(matches, [x] + rest) else [x] + Uniqued(matches, [y] + rest)
  {
    var t := [x] + ([y] + rest);
    assert t[1..] == [y] + rest && t[2..] == rest;
  }

  lemma RunHeadsStep<T>(matches: (T, T) -> bool, s: seq<T>, i: nat)
    requires 1 <= i < |s|
    ensures RunHeads(matches, s, i) ==
      if matches(s[i - 1], s[i]) then RunHeads(matches, s, i + 1) else [s[i]] + RunHeads(matches, s, i + 1)
  {
  }

  lemma RelatedToPrevious<T>(matches: (T, T) -> bool, s: seq<T>, i: nat, x: T, on: set<T>)
    requires IsEquivalence(matches, on) && Within(s, on) && x in on
    requires 1 <= i < |s| && matches(x, s[i - 1])
    ensures matches(x, s[i]) <==> matches(s[i - 1], s[i])
    ensures matches(s[i], s[i])
  {
    assert matches(s[i - 1], x);
  }

  /** For any predicate: an element is dropped exactly if the last one kept before it matches it. */
  lemma {:induction false} UniquedComparesLastKept<T>(matches: (T, T) -> bool, s: seq<T>, x: T)
    ensures Uniqued(matches, []) == []
    ensures var kept := Uniqued(matches, s);
      && (s != [] ==> kept != [])
      && Uniqued(matches, s + [x]) ==
           if s != [] && matches(kept[|kept| - 1], x) then kept else kept + [x]
    decreases |s|
  {
    var t := s + [x];
    if |s| == 1 {
      assert [s[0]] + t[2..] == [s[0]] && t[1..] == [x];
    } else if |s| >= 2 {
      assert t[0] == s[0] && t[1] == s[1];
      if matches(s[0], s[1]) {
        assert [t[0]] + t[2..] == [s[0]] + s[2..] + [x];
        UniquedComparesLastKept(matches, [s[0]] + s[2..], x);
      } else {
        assert t[1..] == s[1..] + [x];
        UniquedComparesLastKept(matches, s[1..], x);
      }
    }
  }

  /** For an equivalence, exactly the first element of every run survives. */
  lemma UniquedKeepsRunHeads<T>(matches: (T, T) -> bool, s: seq<T>, on: set<T>)
    requires IsEquivalence(matches, on) && Within(s, on)
    ensures Uniqued(matches, s) == RunHeads(matches, s, 0)
  {
    if s != [] {
      assert s == [s[0]] + s[1..];
      UniquedFrom(matches, s, 1, s[0], on);
    }
  }
}
