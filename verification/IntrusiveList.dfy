/**
 An intrusive circular doubly linked list. A list is an anchor node linked into one ring with the
 elements; every operation rewires next and prev in place.
 */
module IntrusiveLists {
  import opened MergeSort

  class Node {
    var next: Node?
    var prev: Node?

    constructor ()
      ensures next == null && prev == null
    {
      next, prev := null, null;
    }
  }

  ghost predicate Distinct(s: seq<Node>) {
    forall i, j :: 0 <= i < j < |s| ==> s[i] != s[j]
  }

  ghost predicate Apart(s: seq<Node>, t: seq<Node>) {
    forall i, j :: 0 <= i < |s| && 0 <= j < |t| ==> s[i] != t[j]
  }

  /** Distinct nodes linked in both directions; the two outer links are not constrained. */
  ghost predicate IsChain(s: seq<Node>)
    reads s
  {
    && Distinct(s)
    && (forall i {:trigger s[i].next} :: 0 <= i < |s| - 1 ==> s[i].next == s[i + 1])
    && (forall i {:trigger s[i].prev} :: 1 <= i < |s| ==> s[i].prev == s[i - 1])
  }

  /** A chain whose ends are linked to each other. */
  ghost predicate IsRing(r: seq<Node>)
    reads r
  {
    && |r| > 0
    && IsChain(r)
    && r[|r| - 1].next == r[0]
    && r[0].prev == r[|r| - 1]
  }

  /** The node at position i of a ring, where the position past the last is the first again. */
  ghost function At(r: seq<Node>, i: nat): Node
    requires |r| > 0 && i <= |r|
  {
    if i < |r| then r[i] else r[0]
  }

  ghost function Without(r: seq<Node>, f: nat, l: nat): seq<Node>
    requires f <= l <= |r|
  {
    r[..f] + r[l..]
  }

  ghost function With(r: seq<Node>, p: nat, s: seq<Node>): seq<Node>
    requires p <= |r|
  {
    r[..p] + s + r[p..]
  }

  /** A ring apart from the links into, inside and out of the range [f, l). */
  ghost predicate IsGapped(r: seq<Node>, f: nat, l: nat)
    requires 1 <= f <= l <= |r|
    reads r
  {
    && Distinct(r)
    && (forall i {:trigger r[i].next} :: 0 <= i < f - 1 || l <= i < |r| - 1 ==> r[i].next == r[i + 1])
    && (forall i {:trigger r[i].prev} :: 1 <= i < f || l + 1 <= i < |r| ==> r[i].prev == r[i - 1])
    && (l < |r| ==> r[|r| - 1].next == r[0] && r[0].prev == r[|r| - 1])
  }

  lemma RingParts(r: seq<Node>, f: nat, l: nat)
    requires IsRing(r) && 1 <= f <= l <= |r|
    ensures IsGapped(r, f, l) && IsChain(r[f..l])
    ensures f < l ==> r[f].prev == r[f - 1] && r[l - 1].next == At(r, l)
    ensures Apart(Without(r, f, l), r[f..l])
  {
  }

  /** The surroundings of element k, or of the anchor alone in an empty ring. */
  lemma ElementParts(a: Node, n: seq<Node>, k: nat)
    requires IsRing([a] + n) && (k < |n| || k == |n| == 0)
    ensures IsGapped([a] + n, k + 1, if n == [] then 1 else k + 2)
    ensures n == [] ==> a.next == a && a.prev == a
    ensures n != [] ==>
      && n[k].prev == ([a] + n)[k] && n[k].next == At([a] + n, k + 2)
      && n[k] != a && n[k] !in Without(n, k, k + 1)
  {
    assert forall i :: 0 <= i < |n| ==> n[i] == ([a] + n)[i + 1];
    RingParts([a] + n, k + 1, if n == [] then 1 else k + 2);
  }

  lemma FrontOrBack(n: seq<Node>)
    ensures n == [] ==> Without(n, 0, 0) == []
    ensures n != [] ==> Without(n, 0, 1) == n[1..] && Without(n, |n| - 1, |n|) == n[..|n| - 1]
  {
  }

  lemma ElementsOfRing(a: Node, n: seq<Node>)
    ensures forall i :: 0 <= i < |n| ==> ([a] + n)[i + 1] == n[i]
  {
  }

  lemma RingGap(r: seq<Node>, f: nat, l: nat)
    requires IsRing(r) && 1 <= f <= l <= |r|
    ensures At(r, f).prev == r[f - 1] && At(r, l) !in r[f..l] && r[f - 1] !in r[f..l]
    ensures forall i :: f <= i <= l && At(r, i) == At(r, l) ==> i == l
  {
  }

  /** Nulls the links of the range [f, l), which opens a gap there. */
  method ClearRange(first: Node, stop: Node, ghost r: seq<Node>, ghost f: nat, ghost l: nat)
    requires IsRing(r) && 1 <= f <= l <= |r| && first == At(r, f) && stop == At(r, l)
    modifies r[f..l]
    ensures IsGapped(r, f, l)
    ensures forall i :: f <= i < l ==> r[i].next == null && r[i].prev == null
  {
    var cur := first;
    ghost var i := f;
    while cur != stop
      invariant f <= i <= l && cur == At(r, i)
      invariant forall j {:trigger r[j].next} :: 0 <= j < f || i <= j < |r| ==> r[j].next == old(r[j].next)
      invariant forall j {:trigger r[j].prev} :: 0 <= j < f || i <= j < |r| ==> r[j].prev == old(r[j].prev)
      invariant forall j :: f <= j < i ==> r[j].next == null && r[j].prev == null
      decreases l - i
    {
      var curNext := cur.next;
      assert cur == r[i] && r[i] in r[f..l];
      cur.prev, cur.next := null, null;
      cur := curNext;
      i := i + 1;
    }
    assert i == l;
  }

  /** Joins the two sides of a gap, leaving out the range [f, l). */
  method Bypass(prev: Node, next: Node, ghost r: seq<Node>, ghost f: nat, ghost l: nat)
    requires 1 <= f <= l <= |r| && IsGapped(r, f, l)
    requires prev == r[f - 1] && next == At(r, l)
    modifies prev`next, next`prev
    ensures IsRing(Without(r, f, l))
  {
    prev.next := next;
    next.prev := prev;
  }

  /** Nulls the links of a node that is no longer in the ring. */
  method Detach(node: Node, ghost r: seq<Node>)
    requires IsRing(r) && node !in r
    modifies node
    ensures IsRing(r) && node.next == null && node.prev == null
  {
    node.next, node.prev := null, null;
  }

  /** Links the chain s, given by its two ends, between positions p - 1 and p of a ring. */
  method LinkRange(pos: Node, a: Node, b: Node, ghost r: seq<Node>, ghost p: nat, ghost s: seq<Node>)
    requires IsRing(r) && 1 <= p <= |r| && pos == At(r, p)
    requires |s| > 0 && IsChain(s) && a == s[0] && b == s[|s| - 1]
    requires Apart(r, s)
    modifies At(r, p - 1)`next, pos`prev, a`prev, b`next
    ensures IsRing(With(r, p, s))
  {
    var prev := pos.prev;
    prev.next := a;
    a.prev := prev;
    b.next := pos;
    pos.prev := b;
  }

  /** Clears the range [f, l) and closes the ring around it. */
  method EraseBetween(first: Node, last: Node, ghost r: seq<Node>, ghost f: nat, ghost l: nat)
    requires IsRing(r) && 1 <= f <= l <= |r| && first == At(r, f) && last == At(r, l)
    modifies r
    ensures IsRing(Without(r, f, l))
    ensures forall i :: f <= i < l ==> r[i].next == null && r[i].prev == null
  {
    RingGap(r, f, l);
    var prev, next := first.prev, last;
    ClearRange(first, next, r, f, l);
    Bypass(prev, next, r, f, l);
  }

  /** Links the single node x before position p of a ring. */
  method LinkNode(pos: Node, x: Node, ghost r: seq<Node>, ghost p: nat)
    requires IsRing(r) && 1 <= p <= |r| && pos == At(r, p)
    requires x !in r
    modifies At(r, p - 1)`next, pos`prev, x
    ensures IsRing(With(r, p, [x]))
  {
    var prev := pos.prev;
    prev.next := x;
    pos.prev := x;
    x.prev := prev;
    x.next := pos;
  }

  /**
   Takes the range [f, l) out of ring r and links it before position p of t, which is either an
   unrelated ring or what remains of r itself.
   */
  method MoveRange(pos: Node, first: Node, last: Node,
                   ghost r: seq<Node>, ghost f: nat, ghost l: nat,
                   ghost t: seq<Node>, ghost p: nat, ghost within: bool)
    requires IsRing(r) && 1 <= f < l <= |r| && first == r[f] && last == At(r, l)
    requires if within then t == Without(r, f, l) else IsRing(t) && Apart(t, r)
    requires 1 <= p <= |t| && pos == At(t, p)
    modifies At(r, f - 1)`next, last`prev, At(t, p - 1)`next, pos`prev, first`prev, At(r, l - 1)`next
    ensures IsRing(With(t, p, r[f..l]))
    ensures !within ==> IsRing(Without(r, f, l))
  {
    RingParts(r, f, l);
    var insertNext := last.prev;
    Bypass(first.prev, insertNext.next, r, f, l);
    LinkRange(pos, first, insertNext, t, p, r[f..l]);
  }

  /** MoveRange for a single node, which sets the node's own links last. */
  method MoveNode(pos: Node, x: Node, ghost r: seq<Node>, ghost f: nat,
                  ghost t: seq<Node>, ghost p: nat, ghost within: bool)
    requires IsRing(r) && 1 <= f < |r| && x == r[f]
    requires if within then t == Without(r, f, f + 1) else IsRing(t) && Apart(t, r)
    requires 1 <= p <= |t| && pos == At(t, p)
    modifies At(r, f - 1)`next, At(r, f + 1)`prev, At(t, p - 1)`next, pos`prev, x
    ensures IsRing(With(t, p, [x]))
    ensures !within ==> IsRing(Without(r, f, f + 1))
  {
    RingParts(r, f, f + 1);
    Bypass(x.prev, x.next, r, f, f + 1);
    LinkNode(pos, x, t, p);
  }

  /** The list edit of moving the range [f, l) of n to just before position k. */
  ghost function Moved(n: seq<Node>, k: nat, f: nat, l: nat): seq<Node>
    requires f <= l <= |n| && k <= |n| && (k <= f || l <= k)
  {
    if k <= f then n[..k] + n[f..l] + n[k..f] + n[l..]
    else n[..f] + n[l..k] + n[f..l] + n[k..]
  }

  /** Moving is removing followed by inserting. */
  lemma MovedIsWithoutWith(n: seq<Node>, k: nat, f: nat, l: nat)
    requires f <= l <= |n| && k <= |n| && (k <= f || l <= k)
    ensures With(Without(n, f, l), if k <= f then k else k - (l - f), n[f..l]) == Moved(n, k, f, l)
  {
  }

  lemma EmptyEdits(n: seq<Node>, k: nat)
    requires k <= |n|
    ensures With(n, k, []) == n && Without(n, k, k) == n && n[k..k] == []
  {
  }

  lemma MovedNowhere(n: seq<Node>, k: nat, f: nat, l: nat)
    requires f <= l <= |n| && k <= |n| && (k <= f || l <= k)
    requires k == f || k == l || f == l
    ensures Moved(n, k, f, l) == n
  {
  }

  lemma PositionUnique(r: seq<Node>, i: nat, j: nat)
    requires IsRing(r) && 1 <= i <= |r| && 1 <= j <= |r|
    ensures At(r, i) == At(r, j) ==> i == j
  {
  }

  lemma AtIsMember(a: Node, n: seq<Node>, i: nat)
    requires i <= |n| + 1
    ensures At([a] + n, i) == a || At([a] + n, i) in n
  {
  }

  /** The anchor of a ring and the chain of its elements. */
  lemma RingBody(a: Node, m: seq<Node>)
    requires IsRing([a] + m)
    ensures m == [] <==> a.next == a
    ensures IsChain(m)
    ensures m != [] ==> a.next == m[0] && a.prev == m[|m| - 1]
  {
    var r := [a] + m;
    assert r[1..] == m;
    RingParts(r, 1, |r|);
    assert r[0].next == if m == [] then a else r[1];
  }

  /** Takes all elements m from the ring of anchor a and links them before position p of r. */
  method MoveAll(pos: Node, a: Node, ghost m: seq<Node>, ghost r: seq<Node>, ghost p: nat)
    requires IsRing([a] + m) && m != []
    requires IsRing(r) && 1 <= p <= |r| && pos == At(r, p)
    requires Apart(r, m) && a !in r
    modifies At(r, p - 1)`next, pos`prev, m[0], m[|m| - 1], a
    ensures IsRing(With(r, p, m)) && IsRing([a])
  {
    RingBody(a, m);
    LinkRange(pos, a.next, a.prev, r, p, m);
    a.prev, a.next := a, a;
  }

  /** A position outside a removed range is a position of what remains. */
  lemma MovedPosition(a: Node, n: seq<Node>, k: nat, f: nat, l: nat)
    requires f <= l <= |n| && k <= |n| && !(f <= k < l)
    ensures At([a] + n, k + 1) == At([a] + Without(n, f, l), if k > f then k - (l - f) + 1 else k + 1)
    ensures |Without(n, f, l)| == |n| - (l - f)
  {
  }

  lemma RestIsMember(a: Node, n: seq<Node>, f: nat, l: nat, i: nat)
    requires f <= l <= |n| && i <= |n| - (l - f) + 1
    ensures |Without(n, f, l)| == |n| - (l - f)
    ensures var b := At([a] + Without(n, f, l), i); b == a || b in n
  {
  }

  lemma RingWith(a: Node, n: seq<Node>, k: nat, s: seq<Node>)
    requires k <= |n|
    ensures With([a] + n, k + 1, s) == [a] + With(n, k, s)
  {
  }

  lemma RingWithout(a: Node, n: seq<Node>, f: nat, l: nat)
    requires f <= l <= |n|
    ensures Without([a] + n, f + 1, l + 1) == [a] + Without(n, f, l)
    ensures ([a] + n)[f + 1..l + 1] == n[f..l]
  {
  }

  lemma ApartAfterMove(r: seq<Node>, p: nat, t: seq<Node>, f: nat, l: nat)
    requires Apart(r, t) && Distinct(t)
    requires p <= |r| && f <= l <= |t|
    ensures Apart(With(r, p, t[f..l]), Without(t, f, l))
  {
  }

  /** Comparing an iterator with end() tells whether an element is left. */
  lemma PositionFacts(a: Node, n: seq<Node>, k: nat)
    requires IsRing([a] + n) && k <= |n|
    ensures At([a] + n, k + 1) == a <==> k == |n|
    ensures k == |n| ==> At([a] + n, k + 1) == a
    ensures k < |n| ==> At([a] + n, k + 1) == n[k] && n[k].next == At([a] + n, k + 2)
    ensures At([a] + n, |n| + 1) == a
    ensures Distinct([a] + n)
    ensures a.next == At([a] + n, 1)
  {
    assert k < |n| ==> ([a] + n)[k + 1] == n[k];
  }

  lemma PreviousPosition(a: Node, n: seq<Node>, k: nat)
    requires IsRing([a] + n) && 1 <= k <= |n|
    ensures At([a] + n, k + 1).prev == At([a] + n, k)
  {
  }

  lemma SplitEdits(n: seq<Node>, m: nat)
    requires m <= |n|
    ensures With([], 0, n[0..m]) == n[..m] && Without(n, 0, m) == n[m..]
    ensures With([], 0, n[m..]) == n[m..]
  {
  }

  // ----- Separation of the nodes involved in a sort -----

  ghost predicate AreSeparate(a: Node, s: seq<Node>, t: seq<Node>) {
    a !in s && a !in t && forall z | z in s :: z !in t
  }

  /** A ring none of whose nodes was written to is still a ring. */
  twostate lemma RingUnchanged(r: seq<Node>)
    requires forall z | z in r :: unchanged(z)
    requires old(IsRing(r))
    ensures IsRing(r)
  {
    assert forall i :: 0 <= i < |r| ==> r[i] in r;
  }

  lemma ApartByMembers(s: seq<Node>, t: seq<Node>)
    requires forall z | z in s :: z !in t
    ensures Apart(s, t)
  {
    forall i, j | 0 <= i < |s| && 0 <= j < |t|
      ensures s[i] != t[j]
    {
      assert s[i] in s && t[j] in t;
    }
  }

  lemma SplitMembers(a: Node, n: seq<Node>, m: nat, la: Node, ra: Node)
    requires IsRing([a] + n) && m <= |n| && la !in [a] + n && ra !in [a] + n && la != ra
    ensures Apart([la] + [], [a] + n) && Apart([ra] + [], [a] + n[m..])
    ensures forall z | z in [la] + n[..m] :: z != a && z != ra && z !in n[m..]
    ensures AreSeparate(a, [la] + n[..m], [ra] + n[m..])
  {
    hide IsRing, Apart;
    HalvesDistinct(a, n, m);
    ElementsOfRing(a, n);
    assert forall z | z in n :: z in [a] + n;
    ApartByMembers([la] + [], [a] + n);
    ApartByMembers([ra] + [], [a] + n[m..]);
  }

  lemma HalvesDistinct(a: Node, n: seq<Node>, m: nat)
    requires IsRing([a] + n) && m <= |n|
    ensures a !in n && forall z | z in n[..m] :: z !in n[m..]
  {
    ElementsOfRing(a, n);
    assert forall i :: 0 <= i < |n| ==> n[i] != a;
    forall z | z in n[..m]
      ensures z !in n[m..]
    {
      var i :| 0 <= i < m && n[i] == z;
      assert ([a] + n)[i + 1] == z;
    }
  }

  lemma RecombineMembers(c: Node, la: Node, a: seq<Node>, ra: Node, b: seq<Node>)
    requires AreSeparate(c, [la] + a, [ra] + b)
    requires IsRing([la] + a)
    ensures la != c && ra != c && la != ra && c !in a && c !in b && la !in a && la !in b
    ensures forall z | z in [ra] + b :: z != c && z != la && z !in a
    ensures Apart([c] + [], [la] + a) && Apart([c] + a, [ra] + b)
  {
    ElementsOfRing(la, a);
    assert la in [la] + a && ra in [ra] + b;
    assert la !in [ra] + b;
    ApartByMembers([c] + [], [la] + a);
    ApartByMembers([c] + a, [ra] + b);
  }

  /** Rearranging two separate lists keeps them separate. */
  lemma PermutedSeparate(c: Node, la: Node, s: seq<Node>, a: seq<Node>, ra: Node, t: seq<Node>, b: seq<Node>)
    requires multiset(a) == multiset(s) && multiset(b) == multiset(t)
    requires AreSeparate(c, [la] + s, [ra] + t)
    ensures AreSeparate(c, [la] + a, [ra] + t) && AreSeparate(c, [la] + a, [ra] + b)
    ensures forall z | z in [ra] + t :: z != la && z != c && z !in s
    ensures forall z | z in [la] + a :: z != ra && z != c && z !in t
    ensures c != la && c != ra && c !in s && c !in t
  {
    assert forall z :: z in a <==> z in multiset(s);
    assert forall z :: z in b <==> z in multiset(t);
    assert la in [la] + s && ra in [ra] + t;
    assert la !in [ra] + t;
  }

  lemma HalvesDrawn(n: seq<Node>, m: nat, a: seq<Node>, b: seq<Node>, s: seq<Node>)
    requires m <= |n|
    requires multiset(a) == multiset(n[..m]) && multiset(b) == multiset(n[m..])
    requires multiset(s) == multiset(a) + multiset(b)
    ensures DrawnFrom(a, n, []) && DrawnFrom(b, n, []) && DrawnFrom(s, n, [])
  {
    forall i | 0 <= i < |a|
      ensures a[i] in n
    {
      assert a[i] in multiset(n[..m]);
    }
    forall i | 0 <= i < |b|
      ensures b[i] in n
    {
      assert b[i] in multiset(n[m..]);
    }
    forall i | 0 <= i < |s|
      ensures s[i] in n
    {
      assert s[i] in multiset(a) + multiset(b);
    }
  }

  /** The test at the head of sort is "at least two elements". */
  lemma LengthTest(a: Node, n: seq<Node>)
    requires IsRing([a] + n)
    ensures a.next != a && a.next != a.prev <==> |n| > 1
  {
    RingBody(a, n);
    if |n| > 1 {
      assert ([a] + n)[1] == n[0] && ([a] + n)[|n|] == n[|n| - 1];
    }
  }

  lemma SortedUnfold(compare: (Node, Node) -> bool, n: seq<Node>)
    ensures |n| <= 1 ==> Sorted(compare, n) == n
    ensures |n| > 1 ==> var m := (|n| + 1) / 2;
      Sorted(compare, n) == Merged(compare, Sorted(compare, n[..m]), Sorted(compare, n[m..]))
  {
  }

  // ----- Steps of the unique loop -----

  lemma UniqueStart(matches: (Node, Node) -> bool, n: seq<Node>)
    ensures Uniqued(matches, n) == n[..0] + Uniqued(matches, n[0..])
    ensures n == [] ==> Uniqued(matches, n) == n
  {
    assert n[0..] == n;
  }

  lemma UniqueStep(matches: (Node, Node) -> bool, cur: seq<Node>, done: nat)
    requires done + 1 < |cur|
    ensures var rest := Without(cur, done + 1, done + 2);
      matches(cur[done], cur[done + 1]) ==>
        |rest| == |cur| - 1 &&
        cur[..done] + Uniqued(matches, cur[done..]) == rest[..done] + Uniqued(matches, rest[done..])
    ensures !matches(cur[done], cur[done + 1]) ==>
        cur[..done] + Uniqued(matches, cur[done..]) == cur[..done + 1] + Uniqued(matches, cur[done + 1..])
  {
    var t := cur[done..];
    assert t[0] == cur[done] && t[1] == cur[done + 1] && t[1..] == cur[done + 1..];
    assert Without(cur, done + 1, done + 2)[done..] == [t[0]] + t[2..];
  }

  lemma WithoutMembers(n: seq<Node>, k: nat)
    requires k < |n|
    ensures forall z :: z in n ==> z in Without(n, k, k + 1) || z == n[k]
    ensures DrawnFrom(Without(n, k, k + 1), n, [])
  {
    var rest := Without(n, k, k + 1);
    forall i | 0 <= i < |rest|
      ensures rest[i] in n
    {
      assert rest[i] == n[if i < k then i else i + 1];
    }
    forall z | z in n
      ensures z in Without(n, k, k + 1) || z == n[k]
    {
      var i :| 0 <= i < |n| && n[i] == z;
      assert i < k ==> Without(n, k, k + 1)[i] == z;
      assert i > k ==> Without(n, k, k + 1)[i - 1] == z;
    }
  }

  lemma AnchorIsNoElement(a: Node, n: seq<Node>)
    requires IsRing([a] + n)
    ensures a !in n
  {
    ElementsOfRing(a, n);
  }

  lemma UniqueEnd(matches: (Node, Node) -> bool, cur: seq<Node>, done: nat)
    requires done + 1 == |cur|
    ensures cur[..done] + Uniqued(matches, cur[done..]) == cur
  {
  }

  // ----- Steps of the merge loop -----

  /** The head of b is moved between done and a. */
  lemma MergeTakesX(compare: (Node, Node) -> bool, c: Node, cx: Node, done: seq<Node>, a: seq<Node>, b: seq<Node>)
    requires a != [] && b != [] && compare(b[0], a[0])
    ensures With(done + a, |done|, b[0..1]) == (done + [b[0]]) + a
    ensures At([c] + (done + a), |done| + 1) == At([c] + ((done + [b[0]]) + a), |done| + 2)
    ensures Without(b, 0, 1) == b[1..]
    ensures At([cx] + b, 2) == At([cx] + b[1..], 1)
    ensures done + Merged(compare, a, b) == (done + [b[0]]) + Merged(compare, a, b[1..])
  {
    hide With, Without, At, Merged;
    InsertHead(c, done, a, b[0]);
    TakeHead(cx, b);
    MergedUnfold(compare, a, b);
    AppendHead(done, b[0], Merged(compare, a, b[1..]));
  }

  lemma MergedUnfold(compare: (Node, Node) -> bool, a: seq<Node>, b: seq<Node>)
    requires a != [] && b != []
    ensures Merged(compare, a, b) ==
      if compare(b[0], a[0]) then [b[0]] + Merged(compare, a, b[1..]) else [a[0]] + Merged(compare, a[1..], b)
  {
  }

  lemma AppendHead(s: seq<Node>, x: Node, t: seq<Node>)
    ensures s + ([x] + t) == (s + [x]) + t
  {
  }

  lemma TakeHead(c: Node, b: seq<Node>)
    requires b != []
    ensures b[0..1] == [b[0]] && Without(b, 0, 1) == b[1..]
    ensures At([c] + b, 2) == At([c] + b[1..], 1)
  {
  }

  lemma InsertHead(c: Node, done: seq<Node>, a: seq<Node>, x: Node)
    ensures With(done + a, |done|, [x]) == (done + [x]) + a
    ensures At([c] + (done + a), |done| + 1) == At([c] + ((done + [x]) + a), |done| + 2)
  {
    assert (done + a)[..|done|] == done && (done + a)[|done|..] == a;
  }

  ghost predicate DrawnFrom(s: seq<Node>, n: seq<Node>, m: seq<Node>) {
    forall i :: 0 <= i < |s| ==> s[i] in n || s[i] in m
  }

  lemma DrawnAfterInsert(done: seq<Node>, a: seq<Node>, b: seq<Node>, n: seq<Node>, m: seq<Node>)
    requires b != [] && DrawnFrom(done + a, n, m) && DrawnFrom(b, m, [])
    ensures DrawnFrom((done + [b[0]]) + a, n, m) && DrawnFrom(b[1..], m, [])
  {
    forall i | 0 <= i < |(done + [b[0]]) + a|
      ensures ((done + [b[0]]) + a)[i] in n || ((done + [b[0]]) + a)[i] in m
    {
      assert i != |done| ==> ((done + [b[0]]) + a)[i] == (done + a)[if i < |done| then i else i - 1];
    }
  }

  /** The head of a stays and becomes part of done. */
  lemma MergeKeeps(compare: (Node, Node) -> bool, c: Node, done: seq<Node>, a: seq<Node>, b: seq<Node>)
    requires a != [] && b != [] && !compare(b[0], a[0])
    ensures done + a == (done + [a[0]]) + a[1..]
    ensures done + Merged(compare, a, b) == (done + [a[0]]) + Merged(compare, a[1..], b)
  {
  }

  /** When one side is exhausted, appending the other completes the merge. */
  lemma MergeEnds(compare: (Node, Node) -> bool, done: seq<Node>, a: seq<Node>, b: seq<Node>)
    requires a == [] || b == []
    ensures done + Merged(compare, a, b) == With(done + a, |done + a|, b[0..|b|])
    ensures b == [] ==> done + Merged(compare, a, b) == done + a
    ensures Without(b, 0, |b|) == []
  {
  }

  // ----- Walking along next -----

  /** A walk along next that starts at a and has not come back to it. */
  ghost predicate IsWalk(path: seq<Node>, a: Node)
    reads path
  {
    && |path| > 0 && path[0] == a
    && (forall i {:trigger path[i].next} :: 0 <= i < |path| - 1 ==> path[i].next == path[i + 1])
    && (forall i :: 1 <= i < |path| ==> path[i] != a)
  }

  /** Within a ring, a walk from its first node is a prefix of it. */
  lemma {:induction false} WalkInRing(path: seq<Node>, r: seq<Node>)
    requires IsRing(r) && IsWalk(path, r[0])
    ensures |path| <= |r| && path == r[..|path|]
    decreases |path|
  {
    var k := |path| - 1;
    if k > 0 {
      WalkInRing(path[..k], r);
      assert path[k] == path[k - 1].next == At(r, k);
    }
  }

  lemma RingIsWalk(r: seq<Node>)
    requires IsRing(r)
    ensures IsWalk(r, r[0])
  {
  }

  /** The heap determines the sequence of elements. */
  lemma RingUnique(a: Node, n: seq<Node>, m: seq<Node>)
    requires IsRing([a] + n) && IsRing([a] + m)
    ensures n == m
  {
    RingIsWalk([a] + n);
    RingIsWalk([a] + m);
    WalkInRing([a] + n, [a] + m);
    WalkInRing([a] + m, [a] + n);
    assert n == ([a] + n)[1..] == ([a] + m)[1..] == m;
  }

  // ----- The self-checker -----

  /** A walk whose back links were checked. */
  ghost predicate IsCheckedWalk(path: seq<Node>, a: Node)
    reads path
  {
    IsWalk(path, a) && IsChain(path)
  }

  lemma BrokenLink(path: seq<Node>, a: Node)
    requires IsCheckedWalk(path, a)
    requires var p := path[|path| - 1]; p.next == null || p.next.prev != p
    ensures forall n: seq<Node> :: !IsRing([a] + n)
  {
    forall n: seq<Node> | IsRing([a] + n)
      ensures false
    {
      WalkInRing(path, [a] + n);
    }
  }

  lemma RevisitedNode(path: seq<Node>, a: Node, k: nat)
    requires IsWalk(path, a)
    requires k < |path| - 1 && path[k] == path[|path| - 1]
    ensures forall n: seq<Node> :: !IsRing([a] + n)
  {
    forall n: seq<Node> | IsRing([a] + n)
      ensures false
    {
      WalkInRing(path, [a] + n);
    }
  }

  lemma WalkClosed(path: seq<Node>, a: Node)
    requires IsCheckedWalk(path, a)
    requires var p := path[|path| - 1]; p.next == a && a.prev == p
    ensures exists n: seq<Node> :: IsRing([a] + n)
  {
    assert path == [a] + path[1..];
  }

  lemma WalkExtended(path: seq<Node>, a: Node)
    requires IsCheckedWalk(path, a)
    requires var p := path[|path| - 1]; p.next != null && p.next != a && p.next.prev == p
    ensures IsCheckedWalk(path + [path[|path| - 1].next], a)
  {
    var p := path[|path| - 1];
    forall j | 0 <= j < |path|
      ensures path[j] != p.next
    {
      assert j > 0 ==> path[j].prev == path[j - 1];
    }
  }

  lemma {:induction false} WalkBound(path: seq<Node>, s: set<Node>)
    requires Distinct(path) && forall i :: 0 <= i < |path| ==> path[i] in s
    ensures |path| <= |s|
    decreases |path|
  {
    if path != [] {
      var k := |path| - 1;
      WalkBound(path[..k], s - {path[k]});
    }
  }

  lemma CheckedWalkBound(path: seq<Node>, a: Node, s: set<Node>)
    requires IsCheckedWalk(path, a) && forall i :: 0 <= i < |path| ==> path[i] in s
    ensures |path| <= |s|
  {
    WalkBound(path, s);
  }

  /**
   The self-checker on an arbitrary finite heap: s is any set of nodes that contains the anchor and
   is closed under next. It terminates, and it answers whether the anchor lies on a well-formed ring.
   */
  method Validate(a: Node, ghost s: set<Node>) returns (valid: bool)
    requires a in s && forall z | z in s :: z.next != null && z.next in s
    ensures valid <==> exists n: seq<Node> :: IsRing([a] + n)
  {
    hide IsCheckedWalk, IsChain, IsRing;
    var p, q := a, a;
    ghost var path: seq<Node>, k := [a], 0;
    WalkStart(a);
    while true
      invariant IsCheckedWalk(path, a) && IsWalk(path, a)
      invariant |path| == 2 * k + 1 && p == path[2 * k] && q == path[k]
      invariant forall i :: 0 <= i < |path| ==> path[i] in s
      decreases |s| - |path|
    {
      CheckedWalkBound(path, a, s);
      // every other link: only p moves on
      if p.next.prev != p {
        BrokenLink(path, a);
        return false;
      }
      p := p.next;
      if p == a {
        break;
      }
      WalkExtended(path, a);
      path := path + [p];
      if p == q {
        RevisitedNode(path, a, k);
        return false;
      }
      // the links between: both move on
      if p.next.prev != p {
        BrokenLink(path, a);
        return false;
      }
      p := p.next;
      q := q.next;
      if p == q {
        RevisitedNode(path + [p], a, k + 1);
        return false;
      }
      if p == a {
        break;
      }
      WalkExtended(path, a);
      path, k := path + [p], k + 1;
      CheckedWalkBound(path, a, s);
    }
    WalkClosed(path, a);
    return true;
  }

  lemma WalkStart(a: Node)
    ensures IsWalk([a], a) && IsCheckedWalk([a], a)
  {
  }

  // ----- Reversal and exchange of whole rings -----

  function Reversed<T>(s: seq<T>): (r: seq<T>)
    ensures |r| == |s| && forall i :: 0 <= i < |s| ==> r[i] == s[|s| - 1 - i]
  {
    seq(|s|, i requires 0 <= i < |s| => s[|s| - 1 - i])
  }

  /** Swaps the two links of every node of the ring, walking along the links just swapped. */
  method ReverseRing(a: Node, ghost n: seq<Node>)
    requires IsRing([a] + n)
    modifies a, n
    ensures IsRing([a] + Reversed(n))
  {
    ghost var r := [a] + n;
    var node := a;
    ghost var i := 0;
    while true
      invariant 0 <= i < |r| && node == r[i]
      invariant forall j {:trigger r[j].next} :: 0 <= j < |r| ==>
        r[j].next == if j < i then old(r[j].prev) else old(r[j].next)
      invariant forall j {:trigger r[j].prev} :: 0 <= j < |r| ==>
        r[j].prev == if j < i then old(r[j].next) else old(r[j].prev)
      decreases |r| - i
    {
      var temp := node.next;
      node.next := node.prev;
      node.prev := temp;
      node := node.prev;
      i := i + 1;
      if node == a {
        break;
      }
    }
    assert i == |r|;
    ghost var t := [a] + Reversed(n);
    assert forall j :: 1 <= j < |r| ==> t[j] == r[|r| - j];
    assert forall j {:trigger t[j].next} :: 0 <= j < |t| ==> t[j].next == At(t, j + 1);
    assert forall j {:trigger t[j].prev} :: 1 <= j < |t| ==> t[j].prev == t[j - 1];
  }

  /** Points the ends of the chain m at anchor a, which has just taken over the links of other. */
  method AdoptElements(a: Node, other: Node, ghost m: seq<Node>)
    requires IsChain(m) && a !in m && other !in m
    requires if m == [] then a.next == other else a.next == m[0] && a.prev == m[|m| - 1]
    modifies a, m
    ensures IsRing([a] + m)
  {
    if a.next == other {
      a.prev := a;
      a.next := a.prev;
    } else {
      a.prev.next := a;
      a.next.prev := a;
    }
  }

  /** Exchanges the links of two anchors and redirects the outer links of the elements. */
  method SwapAnchors(a: Node, b: Node, ghost n: seq<Node>, ghost m: seq<Node>)
    requires IsRing([a] + n) && IsRing([b] + m)
    requires (a == b && n == m) || Apart([a] + n, [b] + m)
    modifies a, b, n, m
    ensures IsRing([a] + m) && IsRing([b] + n)
  {
    hide IsRing, Distinct;
    RingBody(a, n);
    RingBody(b, m);
    CrossMembers(a, b, n, m);
    var tempNext, tempPrev := a.next, a.prev;
    a.next, a.prev := b.next, b.prev;
    b.next, b.prev := tempNext, tempPrev;
    AdoptElements(a, b, m);
    if a == b {
      RingBody(a, n);
    }
    AdoptElements(b, a, n);
  }

  lemma CrossMembers(a: Node, b: Node, n: seq<Node>, m: seq<Node>)
    requires IsRing([a] + n) && IsRing([b] + m)
    requires (a == b && n == m) || Apart([a] + n, [b] + m)
    ensures a !in n && a !in m && b !in n && b !in m
    ensures a != b ==> (forall i :: 0 <= i < |n| ==> n[i] !in m) && (forall i :: 0 <= i < |m| ==> m[i] !in n)
    ensures a == b ==> n == m
  {
    assert ([a] + n)[1..] == n && ([b] + m)[1..] == m;
    assert ([a] + n)[0] == a && ([b] + m)[0] == b;
  }

  /**
   A list object is its anchor. The predicate Holds(n) ties the heap to the sequence n of its
   elements; each operation takes that sequence as a ghost argument and states the sequence held
   afterwards. HoldsIsUnique shows that the heap admits only one such sequence.
   */
  class IntrusiveList {
    const anchor: Node

    ghost function Ring(n: seq<Node>): seq<Node> {
      [anchor] + n
    }

    ghost predicate Holds(n: seq<Node>)
      reads anchor, n
    {
      IsRing(Ring(n))
    }

    /** pos is the iterator to element k of n, or end() when k is the length. */
    ghost predicate IsPosition(pos: Node, n: seq<Node>, k: nat) {
      k <= |n| && pos == At(Ring(n), k + 1)
    }

    ghost predicate Disjoint(n: seq<Node>, x: IntrusiveList, m: seq<Node>) {
      x != this && Apart(Ring(n), x.Ring(m))
    }

    constructor ()
      ensures Holds([]) && fresh(anchor)
    {
      var a := new Node();
      anchor := a;
      new;
      anchor.next, anchor.prev := anchor, anchor;
    }

    method Insert(pos: Node, x: Node, ghost n: seq<Node>, ghost k: nat) returns (inserted: Node)
      requires Holds(n) && IsPosition(pos, n, k)
      requires x !in Ring(n)
      modifies anchor, n, x
      ensures Holds(With(n, k, [x]))
      ensures inserted == x && IsPosition(inserted, With(n, k, [x]), k)
    {
      RingWith(anchor, n, k, [x]);
      LinkNode(pos, x, Ring(n), k + 1);
      inserted := x;
    }

    method Erase(pos: Node, ghost n: seq<Node>, ghost k: nat) returns (following: Node)
      requires Holds(n) && IsPosition(pos, n, k) && k < |n|
      modifies anchor, n
      ensures Holds(Without(n, k, k + 1))
      ensures pos.next == null && pos.prev == null
      ensures IsPosition(following, Without(n, k, k + 1), k)
    {
      RingWithout(anchor, n, k, k + 1);
      RingParts(Ring(n), k + 1, k + 2);
      var prev, next := pos.prev, pos.next;
      Bypass(prev, next, Ring(n), k + 1, k + 2);
      pos.prev, pos.next := null, null;
      following := next;
    }

    method SpliceAll(pos: Node, x: IntrusiveList, ghost n: seq<Node>, ghost k: nat, ghost m: seq<Node>)
      requires Holds(n) && x.Holds(m) && Disjoint(n, x, m) && IsPosition(pos, n, k)
      modifies anchor, x.anchor, n, m
      ensures Holds(With(n, k, m)) && x.Holds([])
    {
      EmptyEdits(n, k);
      RingBody(x.anchor, m);
      RingWith(anchor, n, k, m);
      DisjointElements(n, x, m);
      if x.anchor.next != x.anchor {
        MoveAll(pos, x.anchor, m, Ring(n), k + 1);
        assert x.Ring([]) == [x.anchor];
      }
    }

    lemma DisjointElements(n: seq<Node>, x: IntrusiveList, m: seq<Node>)
      requires Disjoint(n, x, m)
      ensures Apart(Ring(n), m) && x.anchor !in Ring(n)
    {
      assert x.Ring(m)[0] == x.anchor && x.Ring(m)[1..] == m;
    }

    /** Moves element j of another list. */
    method SpliceItem(pos: Node, x: IntrusiveList, i: Node, ghost n: seq<Node>, ghost k: nat, ghost m: seq<Node>, ghost j: nat)
      requires Holds(n) && x.Holds(m) && Disjoint(n, x, m)
      requires IsPosition(pos, n, k) && x.IsPosition(i, m, j) && j < |m|
      modifies anchor, x.anchor, n, m
      ensures Holds(With(n, k, [i])) && x.Holds(Without(m, j, j + 1))
    {
      hide IsChain, IsGapped, Distinct;
      if pos != i {
        RingWithout(x.anchor, m, j, j + 1);
        RingWith(anchor, n, k, [i]);
        MoveNode(pos, i, x.Ring(m), j + 1, Ring(n), k + 1, false);
      }
    }

    /** Moves the range [first, last) of another list. */
    method SpliceRange(pos: Node, x: IntrusiveList, first: Node, last: Node,
                       ghost n: seq<Node>, ghost k: nat, ghost m: seq<Node>, ghost f: nat, ghost l: nat)
      requires Holds(n) && x.Holds(m) && Disjoint(n, x, m)
      requires IsPosition(pos, n, k) && x.IsPosition(first, m, f) && x.IsPosition(last, m, l) && f <= l
      modifies anchor, x.anchor, n, m
      ensures Holds(With(n, k, m[f..l])) && x.Holds(Without(m, f, l))
    {
      hide IsChain, IsGapped, Distinct, Apart;
      PositionUnique(x.Ring(m), f + 1, l + 1);
      if first != last {
        RingWithout(x.anchor, m, f, l);
        RingWith(anchor, n, k, m[f..l]);
        AtIsMember(x.anchor, m, f);
        AtIsMember(x.anchor, m, l);
        AtIsMember(x.anchor, m, l + 1);
        AtIsMember(anchor, n, k);
        MoveRange(pos, first, last, x.Ring(m), f + 1, l + 1, Ring(n), k + 1, false);
      } else {
        EmptyEdits(n, k);
        EmptyEdits(m, f);
      }
    }

    /** Moves element j of this list; pos may be the element itself or its successor. */
    method SpliceItemWithin(pos: Node, i: Node, ghost n: seq<Node>, ghost k: nat, ghost j: nat)
      requires Holds(n) && IsPosition(pos, n, k) && IsPosition(i, n, j) && j < |n|
      modifies anchor, n
      ensures Holds(Moved(n, k, j, j + 1))
    {
      hide IsRing, IsChain, IsGapped, Distinct, Moved, With, Without;
      PositionUnique(Ring(n), j + 1, k + 1);
      if pos != i {
        ghost var p := if k > j then k - 1 else k;
        ghost var t := Without(n, j, j + 1);
        RingWithout(anchor, n, j, j + 1);
        MovedPosition(anchor, n, k, j, j + 1);
        MovedIsWithoutWith(n, k, j, j + 1);
        RingWith(anchor, t, p, [i]);
        assert n[j..j + 1] == [i];
        AtIsMember(anchor, n, j);
        AtIsMember(anchor, n, j + 2);
        RestIsMember(anchor, n, j, j + 1, p);
        MoveNode(pos, i, Ring(n), j + 1, Ring(t), p + 1, true);
      } else {
        MovedNowhere(n, k, j, j + 1);
      }
    }

    /** Moves the range [first, last) of this list; pos must not be one of its elements. */
    method SpliceRangeWithin(pos: Node, first: Node, last: Node,
                             ghost n: seq<Node>, ghost k: nat, ghost f: nat, ghost l: nat)
      requires Holds(n) && IsPosition(pos, n, k) && IsPosition(first, n, f) && IsPosition(last, n, l)
      requires f <= l && !(f <= k < l)
      modifies anchor, n
      ensures Holds(Moved(n, k, f, l))
      ensures k == l ==> Moved(n, k, f, l) == n
    {
      hide IsRing, IsChain, IsGapped, Distinct, Moved, With, Without;
      PositionUnique(Ring(n), f + 1, l + 1);
      if k == l || f == l {
        MovedNowhere(n, k, f, l);
      }
      if first != last {
        MovedIsWithoutWith(n, k, f, l);
        ghost var p := if k > f then k - (l - f) else k;
        ghost var t := Without(n, f, l);
        RingWithout(anchor, n, f, l);
        MovedPosition(anchor, n, k, f, l);
        RingWith(anchor, t, p, n[f..l]);
        AtIsMember(anchor, n, f);
        AtIsMember(anchor, n, l);
        AtIsMember(anchor, n, l + 1);
        RestIsMember(anchor, n, f, l, p);
        MoveRange(pos, first, last, Ring(n), f + 1, l + 1, Ring(t), p + 1, true);
      }
    }

    /** Unlinks the range [first, last) and nulls the links of its nodes. */
    method EraseRange(first: Node, last: Node, ghost n: seq<Node>, ghost f: nat, ghost l: nat)
      returns (following: Node)
      requires Holds(n) && IsPosition(first, n, f) && IsPosition(last, n, l) && f <= l
      modifies anchor, n
      ensures Holds(Without(n, f, l))
      ensures following == last && IsPosition(following, Without(n, f, l), f)
      ensures forall i :: f <= i < l ==> n[i].next == null && n[i].prev == null
    {
      hide IsGapped, IsChain, IsRing, Distinct, With, Without, At;
      ElementsOfRing(anchor, n);
      RingWithout(anchor, n, f, l);
      MovedPosition(anchor, n, l, f, l);
      EraseBetween(first, last, Ring(n), f + 1, l + 1);
      following := last;
    }

    method PopFront(ghost n: seq<Node>)
      requires Holds(n)
      modifies anchor, n
      ensures n == [] ==> Holds([])
      ensures n != [] ==> Holds(n[1..]) && n[0].next == null && n[0].prev == null
    {
      hide IsRing, IsChain, IsGapped, Distinct, Without;
      ghost var k := if n == [] then 0 else 1;
      RingBody(anchor, n);
      ElementParts(anchor, n, 0);
      RingWithout(anchor, n, 0, k);
      FrontOrBack(n);
      var node := anchor.next;
      Bypass(anchor, anchor.next.next, Ring(n), 1, k + 1);
      if node != anchor {
        Detach(node, Ring(n[1..]));
      }
    }

    method PopBack(ghost n: seq<Node>)
      requires Holds(n)
      modifies anchor, n
      ensures n == [] ==> Holds([])
      ensures n != [] ==>
        var k := |n| - 1; Holds(n[..k]) && n[k].next == null && n[k].prev == null
    {
      hide IsRing, IsChain, IsGapped, Distinct, Without;
      ghost var k := if n == [] then 0 else |n| - 1;
      RingBody(anchor, n);
      ElementParts(anchor, n, k);
      RingWithout(anchor, n, k, |n|);
      FrontOrBack(n);
      var node := anchor.prev;
      Bypass(anchor.prev.prev, anchor, Ring(n), k + 1, |n| + 1);
      if node != anchor {
        Detach(node, Ring(n[..k]));
      }
    }

    lemma HoldsIsUnique(n: seq<Node>, m: seq<Node>)
      requires Holds(n) && Holds(m)
      ensures n == m
    {
      RingUnique(anchor, n, m);
    }

    method Clear(ghost n: seq<Node>)
      requires Holds(n)
      modifies anchor, n
      ensures Holds([])
      ensures forall i :: 0 <= i < |n| ==> n[i].next == null && n[i].prev == null
    {
      RingBody(anchor, n);
      assert Ring(n)[1..] == n;
      ClearRange(anchor.next, anchor, Ring(n), 1, |n| + 1);
      anchor.prev := anchor;
      anchor.next := anchor.prev;
      assert forall i :: 0 <= i < |n| ==> Ring(n)[i + 1] == n[i];
    }

    /** The destructor. */
    method Destroy(ghost n: seq<Node>)
      requires Holds(n)
      modifies anchor, n
      ensures anchor.next == null && anchor.prev == null
      ensures forall i :: 0 <= i < |n| ==> n[i].next == null && n[i].prev == null
    {
      RingBody(anchor, n);
      Clear(n);
      anchor.next, anchor.prev := null, null;
    }

    method Swap(x: IntrusiveList, ghost n: seq<Node>, ghost m: seq<Node>)
      requires Holds(n) && x.Holds(m)
      requires (x == this && m == n) || Disjoint(n, x, m)
      modifies anchor, x.anchor, n, m
      ensures Holds(m) && x.Holds(n)
    {
      SwapAnchors(anchor, x.anchor, n, m);
    }

    method Reverse(ghost n: seq<Node>)
      requires Holds(n)
      modifies anchor, n
      ensures Holds(Reversed(n))
    {
      ReverseRing(anchor, n);
    }

    method Size(ghost n: seq<Node>) returns (count: int)
      requires Holds(n)
      ensures count == |n|
    {
      var p := anchor;
      count := -1;
      while true
        invariant -1 <= count < |n| && p == At(Ring(n), count + 1)
        decreases |n| - count
      {
        count := count + 1;
        p := p.next;
        if p == anchor {
          break;
        }
      }
    }

    /** Moving a range across leaves two lists that share no node. */
    lemma SpliceDisjoint(n: seq<Node>, k: nat, x: IntrusiveList, m: seq<Node>, f: nat, l: nat)
      requires Disjoint(n, x, m) && Distinct(x.Ring(m))
      requires k <= |n| && f <= l <= |m|
      ensures Disjoint(With(n, k, m[f..l]), x, Without(m, f, l))
    {
      RingWith(anchor, n, k, m[f..l]);
      RingWithout(x.anchor, m, f, l);
      ApartAfterMove(Ring(n), k + 1, x.Ring(m), f + 1, l + 1);
    }

    /** Merges x into this list, which does nothing when x is this list. */
    method Merge(x: IntrusiveList, compare: (Node, Node) -> bool, ghost n: seq<Node>, ghost m: seq<Node>)
      requires Holds(n) && x.Holds(m)
      requires (x == this && m == n) || Disjoint(n, x, m)
      modifies anchor, x.anchor, n, m
      ensures if x == this then Holds(n) else Holds(Merged(compare, n, m)) && x.Holds([])
    {
      if this != x {
        MergeOther(x, compare, n, m);
      }
    }

    /** Moves one node at a time; ties keep this list's nodes first. */
    method MergeOther(x: IntrusiveList, compare: (Node, Node) -> bool, ghost n: seq<Node>, ghost m: seq<Node>)
      requires Holds(n) && x.Holds(m) && Disjoint(n, x, m)
      modifies anchor, x.anchor, n, m
      ensures Holds(Merged(compare, n, m)) && x.Holds([])
    {
      hide IsRing, IsChain, Distinct, Apart, With, Without, Merged, At, Disjoint;
      PositionFacts(anchor, n, 0);
      PositionFacts(x.anchor, m, 0);
      var first: Node, firstX: Node := anchor.next, x.anchor.next;
      ghost var done, a, b := [], n, m;
      assert done + a == n;
      while first != anchor && firstX != x.anchor
        invariant Holds(done + a) && x.Holds(b) && Disjoint(done + a, x, b)
        invariant IsPosition(first, done + a, |done|) && x.IsPosition(firstX, b, 0)
        invariant Merged(compare, n, m) == done + Merged(compare, a, b)
        invariant DrawnFrom(done + a, n, m) && DrawnFrom(b, m, [])
        decreases |a| + |b|
      {
        PositionFacts(anchor, done + a, |done|);
        PositionFacts(x.anchor, b, 0);
        if compare(firstX, first) {
          var next := firstX.next;
          SpliceRange(first, x, firstX, next, done + a, |done|, b, 0, 1);
          MergeTakesX(compare, anchor, x.anchor, done, a, b);
          SpliceDisjoint(done + a, |done|, x, b, 0, 1);
          DrawnAfterInsert(done, a, b, n, m);
          firstX := next;
          done, b := done + [b[0]], b[1..];
        } else {
          MergeKeeps(compare, anchor, done, a, b);
          first := first.next;
          done, a := done + [a[0]], a[1..];
        }
      }
      PositionFacts(anchor, done + a, |done|);
      PositionFacts(x.anchor, b, 0);
      MergeEnds(compare, done, a, b);
      if firstX != x.anchor {
        SpliceRange(anchor, x, firstX, x.anchor, done + a, |done + a|, b, 0, |b|);
      }
    }

    /**
     Recursive in-place merge sort: two cursors meet in the middle, the halves move to two temporary
     lists, are sorted there and merged back. Both temporaries are destroyed empty.
     */
    method Sort(compare: (Node, Node) -> bool, ghost n: seq<Node>)
      requires Holds(n)
      modifies anchor, n
      ensures Holds(Sorted(compare, n))
      decreases |n|, 1
    {
      hide IsRing, IsChain, Distinct, Apart, AreSeparate, Sorted, Merged;
      LengthTest(anchor, n);
      SortedUnfold(compare, n);
      if anchor.next != anchor && anchor.next != anchor.prev {
        var leftList := new IntrusiveList();
        var rightList := new IntrusiveList();
        RingUnchanged(Ring(n));
        var mid := Middle(n);
        ghost var m := (|n| + 1) / 2;
        SplitInto(leftList, rightList, mid, n, m);
        SortHalves(compare, leftList, rightList, n, m);
        ghost var a, b := Sorted(compare, n[..m]), Sorted(compare, n[m..]);
        Recombine(compare, leftList, rightList, a, b);
        label BeforeDestroy:
        rightList.Destroy([]);
        RingUnchanged@BeforeDestroy(leftList.Ring([]));
        leftList.Destroy([]);
        RingUnchanged@BeforeDestroy(Ring(Merged(compare, a, b)));
      }
    }

    /** Sorts the two halves where they are now. */
    method SortHalves(compare: (Node, Node) -> bool, leftList: IntrusiveList, rightList: IntrusiveList,
                      ghost n: seq<Node>, ghost m: nat)
      requires 0 < m < |n|
      requires Holds([]) && leftList.Holds(n[..m]) && rightList.Holds(n[m..])
      requires AreSeparate(anchor, leftList.Ring(n[..m]), rightList.Ring(n[m..]))
      modifies leftList.anchor, rightList.anchor, n
      ensures var a, b := Sorted(compare, n[..m]), Sorted(compare, n[m..]);
        && Holds([]) && leftList.Holds(a) && rightList.Holds(b)
        && AreSeparate(anchor, leftList.Ring(a), rightList.Ring(b))
        && DrawnFrom(a, n, []) && DrawnFrom(b, n, []) && DrawnFrom(Merged(compare, a, b), n, [])
      decreases |n|, 0
    {
      hide IsRing, IsChain, Distinct, Sorted, Merged, DrawnFrom;
      ghost var a, b := Sorted(compare, n[..m]), Sorted(compare, n[m..]);
      SortedMultiset(compare, n[..m]);
      SortedMultiset(compare, n[m..]);
      MergedMultiset(compare, a, b);
      PermutedSeparate(anchor, leftList.anchor, n[..m], a, rightList.anchor, n[m..], b);
      HalvesDrawn(n, m, a, b, Merged(compare, a, b));
      label BeforeLeft:
      leftList.Sort(compare, n[..m]);
      RingUnchanged@BeforeLeft(rightList.Ring(n[m..]));
      RingUnchanged@BeforeLeft(Ring([]));
      label BeforeRight:
      rightList.Sort(compare, n[m..]);
      RingUnchanged@BeforeRight(leftList.Ring(a));
      RingUnchanged@BeforeRight(Ring([]));
    }

    /** Moves the elements before mid to one empty list and the rest to another. */
    method SplitInto(leftList: IntrusiveList, rightList: IntrusiveList, mid: Node, ghost n: seq<Node>, ghost m: nat)
      requires Holds(n) && leftList.Holds([]) && rightList.Holds([])
      requires IsPosition(mid, n, m)
      requires leftList.anchor != rightList.anchor
      requires leftList.anchor !in Ring(n) && rightList.anchor !in Ring(n)
      modifies anchor, leftList.anchor, rightList.anchor, n
      ensures Holds([]) && leftList.Holds(n[..m]) && rightList.Holds(n[m..])
      ensures AreSeparate(anchor, leftList.Ring(n[..m]), rightList.Ring(n[m..]))
    {
      hide IsRing, IsChain, Distinct, Apart, With, Without, At;
      SplitMembers(anchor, n, m, leftList.anchor, rightList.anchor);
      SplitEdits(n, m);
      PositionFacts(anchor, n, 0);
      PositionFacts(leftList.anchor, [], 0);
      leftList.SpliceRange(leftList.anchor.next, this, anchor.next, mid, [], 0, n, 0, m);
      assert leftList.Holds(n[..m]);
      assert rightList.Ring([]) == [rightList.anchor];
      assert rightList.Holds([]);
      PositionFacts(rightList.anchor, [], 0);
      label BeforeRight:
      rightList.SpliceAll(rightList.anchor.next, this, [], 0, n[m..]);
      RingUnchanged@BeforeRight(leftList.Ring(n[..m]));
    }

    /** Moves one list here and merges the other into it. */
    method Recombine(compare: (Node, Node) -> bool, leftList: IntrusiveList, rightList: IntrusiveList,
                     ghost a: seq<Node>, ghost b: seq<Node>)
      requires Holds([]) && leftList.Holds(a) && rightList.Holds(b)
      requires AreSeparate(anchor, leftList.Ring(a), rightList.Ring(b))
      modifies anchor, leftList.anchor, rightList.anchor, a, b
      ensures Holds(Merged(compare, a, b)) && leftList.Holds([]) && rightList.Holds([])
    {
      hide IsRing, IsChain, Distinct, Apart, With, At;
      RecombineMembers(anchor, leftList.anchor, a, rightList.anchor, b);
      PositionFacts(anchor, [], 0);
      SplitEdits(a, 0);
      label BeforeSplice:
      SpliceAll(anchor.next, leftList, [], 0, a);
      RingUnchanged@BeforeSplice(rightList.Ring(b));
      Merge(rightList, compare, a, b);
    }

    /** Two cursors approach each other from the ends; the forward one stops at ceil(|n| / 2). */
    method Middle(ghost n: seq<Node>) returns (mid: Node)
      requires Holds(n) && |n| > 1
      ensures IsPosition(mid, n, (|n| + 1) / 2)
    {
      hide IsRing, IsChain, Distinct;
      PositionFacts(anchor, n, 0);
      var tail: Node := anchor;
      mid := anchor.next;
      ghost var m, t := 0, |n|;
      while true
        invariant m <= t <= |n| && m + t == |n|
        invariant IsPosition(mid, n, m) && IsPosition(tail, n, t)
        decreases t - m
      {
        PositionUnique(Ring(n), m + 1, t + 1);
        if mid == tail {
          break;
        }
        PositionFacts(anchor, n, m);
        mid := mid.next;
        m := m + 1;
        PositionUnique(Ring(n), m + 1, t + 1);
        if mid == tail {
          break;
        }
        PreviousPosition(anchor, n, t);
        tail := tail.prev;
        t := t - 1;
      }
    }

    /** Erases every node that the predicate matches with the last node kept. */
    method Unique(matches: (Node, Node) -> bool, ghost n: seq<Node>)
      requires Holds(n)
      modifies anchor, n
      ensures Holds(Uniqued(matches, n))
      ensures forall i :: 0 <= i < |n| && n[i] !in Uniqued(matches, n) ==> n[i].next == null && n[i].prev == null
    {
      hide IsRing, IsChain, Distinct, Uniqued, Without, At;
      PositionFacts(anchor, n, 0);
      UniqueStart(matches, n);
      var first: Node := anchor.next;
      if first != anchor {
        ghost var done, cur := 0, n;
        var next: Node := first;
        AnchorIsNoElement(anchor, n);
        while true
          invariant Holds(cur) && done < |cur| && IsPosition(first, cur, done) && next == first
          invariant Uniqued(matches, n) == cur[..done] + Uniqued(matches, cur[done..])
          invariant DrawnFrom(cur, n, [])
          invariant forall z | z in n && z !in cur :: z.next == null && z.prev == null
          decreases |cur| - done
        {
          PositionFacts(anchor, cur, done);
          PositionFacts(anchor, cur, done + 1);
          next := next.next;
          if next == anchor {
            break;
          }
          UniqueStep(matches, cur, done);
          if matches(first, next) {
            WithoutMembers(cur, done + 1);
            MovedPosition(anchor, cur, done, done + 1, done + 2);
            var following := Erase(next, cur, done + 1);
            assert forall z | z in n && z !in cur :: z.next == null && z.prev == null;
            cur := Without(cur, done + 1, done + 2);
          } else {
            first := next;
            done := done + 1;
          }
          next := first;
        }
        UniqueEnd(matches, cur, done);
      }
    }
  }
}
