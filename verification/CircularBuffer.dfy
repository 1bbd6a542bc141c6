/**
 A deque in one array: two 64-bit indices wrap freely and are reduced to slots by a power-of-two
 capacity.
 */
module CircularBuffers {
  import opened Machine
  import opened Slots

  // ----- The buffer -----

  class CircularBuffer<T(0)> {
    var storage: array<T>
    var begin: uint64
    var end: uint64
    var capacity: nat

    function Size(): uint64
      reads this
    {
      Wrap64(end - begin)
    }

    ghost predicate Valid()
      reads this
    {
      && capacity == storage.Length
      && (capacity == 0 || IsPowerOfTwo(capacity))
      && Size() <= capacity
    }

    ghost function Contents(): (s: seq<T>)
      requires Valid()
      reads this, storage
      ensures |s| == Size()
    {
      View(storage[..], begin, Size())
    }

    /** idx & (capacity - 1): the low bits, or all of them while there is no storage. */
    function Mask(idx: uint64): nat
      reads this
    {
      if capacity == 0 then idx else Slot(idx, capacity)
    }

    constructor ()
      ensures Valid() && Contents() == [] && capacity == 0 && fresh(storage)
    {
      storage := new T[0];
      begin, end, capacity := 0, 0, 0;
    }

    function At(idx: uint64): (v: T)
      requires Valid() && idx < Size()
      reads this, storage
      ensures v == Contents()[idx]
    {
      WrapKeepsSlot(begin + idx, capacity);
      storage[Mask(Wrap64(begin + idx))]
    }

    /** Constructs an element behind the last, where there is room. */
    method ConstructBack(data: T)
      requires Valid() && Size() < capacity
      modifies this`end, storage
      ensures Valid() && Contents() == old(Contents()) + [data]
    {
      hide IsPowerOfTwo, Wrap64, View, Slot;
      ghost var n, a := Size(), storage[..];
      PowerBound(capacity);
      EndOf(begin, end);
      WrapKeepsSlot(begin + n, capacity);
      GrowBack(begin, end);
      AppendView(a, begin, n, data);
      storage[Mask(end)] := data;
      end := Wrap64(end + 1);
      assert storage[..] == a[Slot(begin + n, capacity) := data];
    }

    /** Constructs an element before the first, where there is room. */
    method ConstructFront(data: T)
      requires Valid() && Size() < capacity
      modifies this`begin, storage
      ensures Valid() && Contents() == [data] + old(Contents())
    {
      hide IsPowerOfTwo, Wrap64, View, Slot;
      ghost var n, a := Size(), storage[..];
      PowerBound(capacity);
      WrapKeepsSlot(begin - 1, capacity);
      GrowFront(begin, end);
      PrependView(a, begin, n, data);
      storage[Mask(Wrap64(begin - 1))] := data;
      begin := Wrap64(begin - 1);
      assert storage[..] == a[Slot(old(begin) - 1, capacity) := data];
    }

    /**
     Transfers all elements, in order, to the start of a new storage. It fails, and leaves the buffer as
     it was, if the storage cannot be allocated or copying the element at position failAt throws.
     */
    method Expand(newCap: nat, failAt: nat) returns (ok: bool)
      requires Valid() && Size() <= newCap
      requires newCap <= MAX_CAPACITY ==> IsPowerOfTwo(newCap)
      modifies this
      ensures ok <==> newCap <= MAX_CAPACITY && old(Size()) <= failAt
      ensures Valid() && Contents() == old(Contents())
      ensures ok ==> capacity == newCap && fresh(storage) && begin == 0
      ensures !ok ==> capacity == old(capacity) && storage == old(storage) && begin == old(begin) && end == old(end)
    {
      hide IsPowerOfTwo, Wrap64, View, Slot;
      if newCap > MAX_CAPACITY {
        return false;
      }
      var newStorage := new T[newCap];
      var p := 0;
      var i: uint64 := begin;
      WrapOfIndex(begin);
      ghost var n, c := Size(), Contents();
      while i != end
        invariant 0 <= p <= n && p <= failAt && i == Wrap64(begin + p)
        invariant newStorage[..p] == c[..p]
        decreases n - p
        modifies newStorage
      {
        DistanceToEnd(begin, end, p);
        if p == failAt {
          return false;
        }
        WrapKeepsSlot(begin + p, capacity);
        newStorage[p] := storage[Mask(i)];
        NextIndex(begin, p);
        p := p + 1;
        i := Wrap64(i + 1);
      }
      DistanceToEnd(begin, end, p);
      storage := newStorage;
      capacity := newCap;
      begin := 0;
      end := p;
      WrapOfIndex(p);
      PlainView(newStorage[..], n);
      ok := true;
    }

    /** Whether making room for one more element fails: the buffer is full and cannot be doubled. */
    predicate GrowthFails(failAt: nat)
      reads this
    {
      Size() == capacity && (2 * capacity > MAX_CAPACITY || failAt < Size())
    }

    /** Doubles the capacity, or makes it one, if one more element does not fit. */
    method MaybeExpand(failAt: nat) returns (ok: bool)
      requires Valid()
      modifies this
      ensures Valid() && Contents() == old(Contents())
      ensures ok ==> Size() < capacity
      ensures !ok <==> old(GrowthFails(failAt))
      ensures storage == old(storage) || fresh(storage)
      ensures ok ==> capacity == if old(Size()) < old(capacity) then old(capacity) else if old(capacity) == 0 then 1 else 2 * old(capacity)
      ensures !ok || old(Size()) < old(capacity) ==>
        capacity == old(capacity) && storage == old(storage) && begin == old(begin) && end == old(end)
    {
      hide View, Slot, IsPowerOfTwo;
      ok := true;
      if capacity != 0 {
        PowerBound(capacity);
      }
      OneMore(Size());
      hide Wrap64;
      if Wrap64(Wrap64(end - begin) + 1) > capacity {
        if 2 * capacity <= MAX_CAPACITY {
          PowersUp(capacity);
        }
        ok := Expand(if capacity * 2 > 1 then capacity * 2 else 1, failAt);
      }
    }

    /** Appends; the contents stay if the buffer cannot grow or constructing the element throws. */
    method PushBack(data: T, throws: bool, failAt: nat) returns (ok: bool)
      requires Valid()
      modifies this, storage
      ensures Valid()
      ensures Contents() == if ok then old(Contents()) + [data] else old(Contents())
      ensures ok <==> !throws && !old(GrowthFails(failAt))
      ensures capacity ==
        if old(Size()) < old(capacity) || old(GrowthFails(failAt)) then old(capacity)
        else if old(capacity) == 0 then 1 else 2 * old(capacity)
      ensures old(Size()) < old(capacity) ==> storage == old(storage)
    {
      ok := MaybeExpand(failAt);
      if ok {
        if throws {
          return false;
        }
        ConstructBack(data);
      }
    }

    method PushFront(data: T, throws: bool, failAt: nat) returns (ok: bool)
      requires Valid()
      modifies this, storage
      ensures Valid()
      ensures Contents() == if ok then [data] + old(Contents()) else old(Contents())
      ensures ok <==> !throws && !old(GrowthFails(failAt))
      ensures capacity ==
        if old(Size()) < old(capacity) || old(GrowthFails(failAt)) then old(capacity)
        else if old(capacity) == 0 then 1 else 2 * old(capacity)
      ensures old(Size()) < old(capacity) ==> storage == old(storage)
    {
      ok := MaybeExpand(failAt);
      if ok {
        if throws {
          return false;
        }
        ConstructFront(data);
      }
    }

    method PopFront()
      requires Valid() && Contents() != []
      modifies this`begin
      ensures Valid() && Contents() == old(Contents())[1..]
    {
      hide IsPowerOfTwo, Wrap64, View, Slot;
      ghost var n := Size();
      PowerBound(capacity);
      ShrinkFront(begin, end);
      ViewSlice(storage[..], begin, n, 1, n);
      ViewWraps(storage[..], begin + 1, n - 1);
      assert Contents()[1..n] == Contents()[1..];
      begin := Wrap64(begin + 1);
    }

    method PopBack()
      requires Valid() && Contents() != []
      modifies this`end
      ensures Valid() && Contents() == old(Contents())[..|old(Contents())| - 1]
    {
      hide IsPowerOfTwo, Wrap64, View, Slot;
      ghost var n := Size();
      ShrinkBack(begin, end);
      ViewSlice(storage[..], begin, n, 0, n - 1);
      assert Contents()[0..n - 1] == Contents()[..n - 1];
      end := Wrap64(end - 1);
    }

    method Front() returns (v: T)
      requires Valid() && Contents() != []
      ensures v == Contents()[0]
    {
      hide IsPowerOfTwo, Wrap64, View, Slot;
      WrapKeepsSlot(begin, capacity);
      v := storage[Mask(begin)];
    }

    method Back() returns (v: T)
      requires Valid() && Contents() != []
      ensures v == Contents()[|Contents()| - 1]
    {
      hide IsPowerOfTwo, Wrap64, View, Slot;
      ghost var n := Size();
      ShrinkBack(begin, end);
      WrapKeepsSlot(begin + (n - 1), capacity);
      v := storage[Mask(Wrap64(end - 1))];
    }

    /** Copies one element over another through wrapped indices. */
    method MoveElement(dst: uint64, src: uint64, ghost n: nat, ghost p: nat, ghost q: nat)
      requires Valid() && IsPowerOfTwo(capacity) && p < n <= capacity && q < n
      requires dst == Wrap64(begin + p) && src == Wrap64(begin + q)
      modifies storage
      ensures View(storage[..], begin, n) == old(View(storage[..], begin, n)[p := View(storage[..], begin, n)[q]])
    {
      hide IsPowerOfTwo, Wrap64, View, Slot;
      ghost var a := storage[..];
      WrapKeepsSlot(begin + p, capacity);
      WrapKeepsSlot(begin + q, capacity);
      ghost var v := View(a, begin, n)[q];
      ViewAfterWrite(a, begin, n, p, v);
      storage[Mask(dst)] := storage[Mask(src)];
      assert storage[..] == a[Slot(begin + p, capacity) := v];
    }

    /** std::move_backward of [from, to), the first f elements, to the places before result. */
    method MoveBackward(from: uint64, to: uint64, last: uint64, ghost f: nat, ghost l: nat) returns (result: uint64)
      requires Valid() && IsPowerOfTwo(capacity) && f < l <= Size()
      requires from == begin && to == Wrap64(begin + f) && last == Wrap64(begin + l)
      modifies storage
      ensures result == Wrap64(begin + (l - f))
      ensures View(storage[..], begin, Size()) == old(MovedBack(View(storage[..], begin, Size()), f, l, 0))
    {
      hide View, Slot, Wrap64, MovedBack;
      ghost var n, c := Size(), View(storage[..], begin, Size());
      PowerBound(capacity);
      WrapOfIndex(begin);
      IndexDistance(begin, 0, f);
      var r := DecodeTwosComp(Wrap64(to - from));
      var source: uint64 := to;
      result := last;
      NothingMovedBack(c, f, l);
      while r > 0
        invariant 0 <= r <= f
        invariant source == Wrap64(begin + r) && result == Wrap64(begin + (r + (l - f)))
        invariant View(storage[..], begin, n) == MovedBack(c, f, l, r)
      {
        PreviousIndex(begin, r);
        PreviousIndex(begin, r + (l - f));
        source := Wrap64(source - 1);
        result := Wrap64(result - 1);
        MovedBackStep(c, f, l, r);
        MoveElement(result, source, n, r - 1 + (l - f), r - 1);
        r := r - 1;
      }
    }

    /** std::move of [from, to), the elements from l on, to the places from first on. */
    method MoveForward(from: uint64, to: uint64, first: uint64, ghost f: nat, ghost l: nat) returns (result: uint64)
      requires Valid() && IsPowerOfTwo(capacity) && f < l <= Size()
      requires from == Wrap64(begin + l) && to == end && first == Wrap64(begin + f)
      modifies storage
      ensures result == Wrap64(begin + (Size() - (l - f)))
      ensures View(storage[..], begin, Size())
           == old(MovedForward(View(storage[..], begin, Size()), f, l, Size() - l))
    {
      hide View, Slot, Wrap64, MovedForward;
      ghost var n, c := Size(), View(storage[..], begin, Size());
      PowerBound(capacity);
      EndOf(begin, end);
      IndexDistance(begin, l, n);
      var r := DecodeTwosComp(Wrap64(to - from));
      var source: uint64 := from;
      result := first;
      NothingMovedForward(c, f, l);
      while r > 0
        invariant 0 <= r <= n - l
        invariant source == Wrap64(begin + (n - r)) && result == Wrap64(begin + (n - r - (l - f)))
        invariant View(storage[..], begin, n) == MovedForward(c, f, l, n - l - r)
      {
        MovedForwardStep(c, f, l, n - l - r);
        MoveElement(result, source, n, n - r - (l - f), n - r);
        NextIndex(begin, n - r);
        NextIndex(begin, n - r - (l - f));
        source := Wrap64(source + 1);
        result := Wrap64(result + 1);
        r := r - 1;
      }
    }

    /** Removes elements f to l by moving the elements before them. */
    method EraseMovingFront(first: uint64, last: uint64, ghost f: nat, ghost l: nat)
      requires Valid() && f < l <= Size()
      requires first == Wrap64(begin + f) && last == Wrap64(begin + l)
      modifies this`begin, storage
      ensures Valid() && Contents() == old(Contents()[..f] + Contents()[l..])
      ensures last == Wrap64(begin + f)
      ensures begin == Wrap64(old(begin) + (l - f))
    {
      hide IsPowerOfTwo, Wrap64, View, Slot, MovedBack;
      ghost var n, c := Size(), Contents();
      ghost var b := begin;
      var newStart := MoveBackward(begin, first, last, f, l);
      ghost var v := View(storage[..], b, n);
      assert v == MovedBack(c, f, l, 0);
      RemoveFrontPart(storage[..], b, n, l - f);
      RestAfterBackward(c, f, l);
      NewBegin(b, end, l - f);
      Reassociated(b, l - f, f);
      begin := newStart;
      assert Contents() == v[l - f..];
    }

    /** Removes elements f to l by moving the elements after them. */
    method EraseMovingBack(first: uint64, last: uint64, ghost f: nat, ghost l: nat)
      requires Valid() && f < l <= Size()
      requires first == Wrap64(begin + f) && last == Wrap64(begin + l)
      modifies this`end, storage
      ensures Valid() && Contents() == old(Contents()[..f] + Contents()[l..])
      ensures begin == old(begin) && end == Wrap64(old(begin) + (old(Size()) - (l - f)))
    {
      hide IsPowerOfTwo, Wrap64, View, Slot, MovedForward;
      ghost var n, c := Size(), Contents();
      var newEnd := MoveForward(last, end, first, f, l);
      RemoveBackPart(storage[..], begin, n, l - f);
      RestAfterForward(c, f, l);
      NewEnd(begin, end, l - f);
      end := newEnd;
    }

    /**
     Removes elements f to l, given by their wrapped indices, by moving the shorter side: the elements on
     the other side, and so all that stay when an end is removed, keep their indices.
     */
    method Erase(first: uint64, last: uint64, ghost f: nat, ghost l: nat) returns (following: uint64)
      requires Valid() && f <= l <= Size()
      requires first == Wrap64(begin + f) && last == Wrap64(begin + l)
      modifies this, storage
      ensures Valid() && Contents() == old(Contents()[..f] + Contents()[l..])
      ensures following == Wrap64(begin + f)
      ensures capacity == old(capacity) && storage == old(storage)
      ensures if f < old(Size()) - l then end == old(end) && begin == Wrap64(old(begin) + (l - f))
        else begin == old(begin) && end == Wrap64(old(begin) + (old(Size()) - (l - f)))
    {
      hide IsPowerOfTwo, Wrap64, View, Slot;
      ghost var c := Contents();
      if capacity != 0 {
        PowerBound(capacity);
      }
      WrapOfIndex(0);
      WrapOfIndex(begin);
      EndOf(begin, end);
      IndexDistance(begin, 0, f);
      IndexDistance(begin, f, l);
      IndexDistance(begin, l, Size());
      if first == last {
        assert c == c[..f] + c[l..];
        return last;
      }
      if DecodeTwosComp(Wrap64(first - begin)) < DecodeTwosComp(Wrap64(end - last)) {
        EraseMovingFront(first, last, f, l);
        following := last;
      } else {
        EraseMovingBack(first, last, f, l);
        following := first;
      }
    }
  }

  lemma EndOf(begin: uint64, end: uint64)
    ensures Wrap64(begin + Wrap64(end - begin)) == end
  {
  }

  lemma GrowBack(begin: uint64, end: uint64)
    requires Wrap64(end - begin) + 1 < TWO_64
    ensures Wrap64(Wrap64(end + 1) - begin) == Wrap64(end - begin) + 1
  {
  }

  lemma GrowFront(begin: uint64, end: uint64)
    requires Wrap64(end - begin) + 1 < TWO_64
    ensures Wrap64(end - Wrap64(begin - 1)) == Wrap64(end - begin) + 1
  {
  }

  // ----- Index arithmetic -----

  lemma WrapOfIndex(x: uint64)
    ensures Wrap64(x) == x
  {
  }

  lemma OneMore(n: nat)
    requires n <= MAX_CAPACITY
    ensures Wrap64(n + 1) == n + 1
  {
  }

  lemma DistanceToEnd(begin: uint64, end: uint64, p: nat)
    requires p <= Wrap64(end - begin)
    ensures Wrap64(begin + p) == end <==> p == Wrap64(end - begin)
  {
  }

  lemma NextIndex(begin: uint64, p: nat)
    ensures Wrap64(Wrap64(begin + p) + 1) == Wrap64(begin + (p + 1))
  {
  }

  lemma PreviousIndex(begin: uint64, p: nat)
    requires p > 0
    ensures Wrap64(Wrap64(begin + p) - 1) == Wrap64(begin + (p - 1))
  {
  }

  lemma ShrinkFront(begin: uint64, end: uint64)
    requires Wrap64(end - begin) > 0
    ensures Wrap64(end - Wrap64(begin + 1)) == Wrap64(end - begin) - 1
  {
  }

  lemma ShrinkBack(begin: uint64, end: uint64)
    requires Wrap64(end - begin) > 0
    ensures Wrap64(Wrap64(end - 1) - begin) == Wrap64(end - begin) - 1
    ensures Wrap64(end - 1) == Wrap64(begin + (Wrap64(end - begin) - 1))
  {
  }

  /** The distance between two indices of one buffer is that of the places they stand for. */
  lemma IndexDistance(begin: uint64, f: nat, l: nat)
    requires f <= l <= MAX_CAPACITY
    ensures Wrap64(Wrap64(begin + l) - Wrap64(begin + f)) == l - f
    ensures DecodeTwosComp(l - f) == l - f
  {
  }

  lemma NewBegin(begin: uint64, end: uint64, d: nat)
    requires d <= Wrap64(end - begin)
    ensures Wrap64(end - Wrap64(begin + d)) == Wrap64(end - begin) - d
  {
  }

  lemma Reassociated(begin: uint64, p: nat, q: nat)
    ensures Wrap64(Wrap64(begin + p) + q) == Wrap64(begin + (p + q))
  {
  }

  lemma NewEnd(begin: uint64, end: uint64, d: nat)
    requires d <= Wrap64(end - begin)
    ensures Wrap64(Wrap64(begin + (Wrap64(end - begin) - d)) - begin) == Wrap64(end - begin) - d
  {
  }

  lemma PowersUp(c: nat)
    requires c == 0 || IsPowerOfTwo(c)
    requires 2 * c <= MAX_CAPACITY
    ensures IsPowerOfTwo(if c * 2 > 1 then c * 2 else 1)
  {
    if c == 0 {
      Pow2Zero();
    } else {
      DoublePower(c);
    }
  }

  lemma PlainView<T>(a: seq<T>, n: nat)
    requires n <= |a|
    ensures View(a, 0, n) == a[..n]
  {
  }

  // ----- Moving part of a sequence over another -----

  /** The first f elements moved up to end at l, except that r of them still wait. */
  function MovedBack<T>(c: seq<T>, f: nat, l: nat, r: nat): (s: seq<T>)
    requires r <= f <= l <= |c|
    ensures |s| == |c|
    ensures forall j :: 0 <= j < |c| ==> s[j] == if r + (l - f) <= j < l then c[j - (l - f)] else c[j]
  {
    seq(|c|, j requires 0 <= j < |c| => if r + (l - f) <= j < l then c[j - (l - f)] else c[j])
  }

  lemma NothingMovedBack<T>(c: seq<T>, f: nat, l: nat)
    requires f <= l <= |c|
    ensures MovedBack(c, f, l, f) == c
  {
  }

  lemma MovedBackStep<T>(c: seq<T>, f: nat, l: nat, r: nat)
    requires 0 < r <= f <= l <= |c|
    ensures MovedBack(c, f, l, r)[r - 1 + (l - f) := MovedBack(c, f, l, r)[r - 1]] == MovedBack(c, f, l, r - 1)
  {
  }

  /** The first m elements from l on moved down to start at f. */
  function MovedForward<T>(c: seq<T>, f: nat, l: nat, m: nat): (s: seq<T>)
    requires f <= l && l + m <= |c|
    ensures |s| == |c|
    ensures forall j :: 0 <= j < |c| ==> s[j] == if f <= j < f + m then c[j + (l - f)] else c[j]
  {
    seq(|c|, j requires 0 <= j < |c| => if f <= j < f + m then c[j + (l - f)] else c[j])
  }

  lemma NothingMovedForward<T>(c: seq<T>, f: nat, l: nat)
    requires f <= l <= |c|
    ensures MovedForward(c, f, l, 0) == c
  {
  }

  lemma MovedForwardStep<T>(c: seq<T>, f: nat, l: nat, m: nat)
    requires f <= l && l + m < |c|
    ensures MovedForward(c, f, l, m)[f + m := MovedForward(c, f, l, m)[l + m]] == MovedForward(c, f, l, m + 1)
  {
  }

  lemma RestAfterBackward<T>(c: seq<T>, f: nat, l: nat)
    requires f <= l <= |c|
    ensures MovedBack(c, f, l, 0)[l - f..] == c[..f] + c[l..]
  {
  }

  lemma RestAfterForward<T>(c: seq<T>, f: nat, l: nat)
    requires f <= l <= |c|
    ensures MovedForward(c, f, l, |c| - l)[..|c| - (l - f)] == c[..f] + c[l..]
  {
  }

  /** What remains of a view whose begin moves up by d. */
  lemma RemoveFrontPart<T>(a: seq<T>, b: int, n: nat, d: nat)
    requires d <= n <= |a| && IsPowerOfTwo(|a|)
    ensures View(a, Wrap64(b + d), n - d) == View(a, b, n)[d..]
  {
    ViewSlice(a, b, n, d, n);
    ViewWraps(a, b + d, n - d);
    var w := View(a, b, n);
    assert w[d..n] == w[d..];
  }

  /** What remains of a view that ends d elements sooner. */
  lemma RemoveBackPart<T>(a: seq<T>, b: int, n: nat, d: nat)
    requires d <= n <= |a|
    ensures View(a, b, n - d) == View(a, b, n)[..n - d]
  {
    ViewSlice(a, b, n, 0, n - d);
    var w := View(a, b, n);
    assert w[0..n - d] == w[..n - d];
  }
}
