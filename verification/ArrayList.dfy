/**
 A queue in a linked list of fixed-size chunks, with a list of saved chunks. The queue is stated as
 the sequence of the contents of its chunks.
 */
module ArrayLists {
  import opened Machine
  import opened Slots

  // ----- The contents, chunk by chunk -----

  /** The queue that the chunk contents v make up. */
  ghost function Flatten<T>(v: seq<seq<T>>): seq<T> {
    if v == [] then [] else v[0] + Flatten(v[1..])
  }

  /** No chunk is empty, and every chunk but the first and the last is full. */
  ghost predicate Packed<T>(v: seq<seq<T>>, n: nat) {
    && (forall k :: 0 <= k < |v| ==> 0 < |v[k]| <= n)
    && (forall k :: 0 < k < |v| - 1 ==> |v[k]| == n)
  }

  /** Packed but for the last chunk, which has room and may be empty. */
  ghost predicate Roomy<T>(v: seq<seq<T>>, n: nat) {
    && v != [] && |v[|v| - 1]| < n
    && (forall k :: 0 <= k < |v| - 1 ==> 0 < |v[k]| <= n)
    && (forall k :: 0 < k < |v| - 1 ==> |v[k]| == n)
  }

  ghost predicate NeedsChunk<T>(v: seq<seq<T>>, n: nat) {
    v == [] || |v[|v| - 1]| == n
  }

  ghost function WithRoom<T>(v: seq<seq<T>>, n: nat): seq<seq<T>> {
    if NeedsChunk(v, n) then v + [[]] else v
  }

  ghost function AppendLast<T>(v: seq<seq<T>>, x: T): seq<seq<T>>
    requires v != []
  {
    v[..|v| - 1] + [v[|v| - 1] + [x]]
  }

  ghost function Pushed<T>(v: seq<seq<T>>, n: nat, x: T): seq<seq<T>> {
    AppendLast(WithRoom(v, n), x)
  }

  ghost function Popped<T>(v: seq<seq<T>>): seq<seq<T>>
    requires v != [] && v[0] != []
  {
    if |v[0]| == 1 then v[1..] else [v[0][1..]] + v[1..]
  }

  lemma {:induction false} FlattenAppend<T>(v: seq<seq<T>>, w: seq<seq<T>>)
    ensures Flatten(v + w) == Flatten(v) + Flatten(w)
    decreases |v|
  {
    if v == [] {
      assert v + w == w;
    } else {
      assert (v + w)[1..] == v[1..] + w;
      FlattenAppend(v[1..], w);
    }
  }

  lemma FlattenOne<T>(x: seq<T>)
    ensures Flatten([x]) == x
  {
    assert Flatten([x]) == x + Flatten([]);
  }

  lemma FlattenLast<T>(v: seq<seq<T>>)
    requires v != []
    ensures Flatten(v) == Flatten(v[..|v| - 1]) + v[|v| - 1]
  {
    var rest, last := v[..|v| - 1], v[|v| - 1];
    FlattenAppend(rest, [last]);
    FlattenOne(last);
    assert v == rest + [last];
  }

  lemma WithRoomIsRoomy<T>(v: seq<seq<T>>, n: nat)
    requires Packed(v, n) && n > 0
    ensures Roomy(WithRoom(v, n), n) && Flatten(WithRoom(v, n)) == Flatten(v)
  {
    if NeedsChunk(v, n) {
      FlattenAppend(v, [[]]);
      FlattenOne<T>([]);
    }
  }

  lemma RoomUndone<T>(v: seq<seq<T>>, n: nat)
    requires Packed(v, n)
    ensures var w := WithRoom(v, n);
      if NeedsChunk(v, n) then w[|w| - 1] == [] && w[..|w| - 1] == v else w == v && v[|v| - 1] != []
  {
  }

  lemma AppendLastIsPacked<T>(v: seq<seq<T>>, n: nat, x: T)
    requires Roomy(v, n)
    ensures Packed(AppendLast(v, x), n) && Flatten(AppendLast(v, x)) == Flatten(v) + [x]
  {
    FlattenLast(v);
    var w := AppendLast(v, x);
    assert w[..|w| - 1] == v[..|v| - 1];
    FlattenLast(w);
  }

  /** A push appends to the queue and keeps it packed. */
  lemma PushedIsPacked<T>(v: seq<seq<T>>, n: nat, x: T)
    requires Packed(v, n) && n > 0
    ensures Packed(Pushed(v, n, x), n) && Flatten(Pushed(v, n, x)) == Flatten(v) + [x]
  {
    WithRoomIsRoomy(v, n);
    AppendLastIsPacked(WithRoom(v, n), n, x);
  }

  /** A pop removes the first element and keeps the queue packed. */
  lemma PoppedIsPacked<T>(v: seq<seq<T>>, n: nat)
    requires Packed(v, n) && v != []
    ensures Packed(Popped(v), n)
    ensures Flatten(v) != [] && Flatten(v)[0] == v[0][0] && Flatten(Popped(v)) == Flatten(v)[1..]
  {
    var q := Flatten(v[1..]);
    assert Flatten(v) == v[0] + q;
    if |v[0]| == 1 {
      assert (v[0] + q)[1..] == q;
    } else {
      var w := Popped(v);
      assert w[1..] == v[1..];
      assert Flatten(w) == v[0][1..] + q;
      assert (v[0] + q)[1..] == v[0][1..] + q;
    }
  }

  lemma PackedNothing<T>(v: seq<seq<T>>, n: nat)
    requires Packed(v, n) && Flatten(v) == []
    ensures v == []
  {
    if v != [] {
      PoppedIsPacked(v, n);
    }
  }

  lemma {:induction false} FullLength<T>(v: seq<seq<T>>, n: nat)
    requires forall k :: 0 <= k < |v| ==> |v[k]| == n
    ensures |Flatten(v)| == |v| * n
    decreases |v|
  {
    if v != [] {
      FullLength(v[1..], n);
      assert |v| * n == n + (|v| - 1) * n;
    }
  }

  /** The length of a packed queue, from the number of chunks and the two outer ones. */
  lemma PackedLength<T>(v: seq<seq<T>>, n: nat)
    requires Packed(v, n)
    ensures |v| == 1 ==> |Flatten(v)| == |v[0]|
    ensures |v| >= 2 ==> |Flatten(v)| == |v[0]| + |v[|v| - 1]| + (|v| - 2) * n
  {
    if |v| == 1 {
      assert v == [v[0]];
      FlattenOne(v[0]);
    } else if |v| >= 2 {
      FlattenLast(v);
      var rest := v[..|v| - 1];
      var inner := rest[1..];
      assert forall k :: 0 <= k < |inner| ==> inner[k] == v[k + 1];
      FullLength(inner, n);
      assert Flatten(rest) == v[0] + Flatten(inner);
    }
  }

  /** Both outer chunks are full and hold 2^31 elements each, so that their counts wrap. */
  ghost predicate CountsOverflow<T>(v: seq<seq<T>>) {
    |v| >= 2 && |v[0]| + |v[|v| - 1]| >= TWO_32
  }

  /** The formula for the length adds the outer counts in 32 bits. */
  lemma PackedSize<T>(v: seq<seq<T>>, n: nat)
    requires Packed(v, n) && n <= MAX_CHUNK
    ensures v == [] ==> Flatten(v) == []
    ensures |v| >= 2 ==> var size := Wrap32(|v[0]| + |v[|v| - 1]|) + (|v| - 2) * n;
      (size == |Flatten(v)| <==> !CountsOverflow(v)) && size <= |Flatten(v)|
    ensures |v| == 1 ==> |Flatten(v)| == |v[0]| && !CountsOverflow(v)
    ensures |v| >= 2 ==> (|v| - 2) * n >= 0
  {
    PackedLength(v, n);
    hide Flatten;
    if v == [] {
      FlattenNothing<T>();
    } else if |v| >= 2 {
      WrapsOnce(|v[0]| + |v[|v| - 1]|);
      hide Wrap32;
    }
  }

  lemma FlattenNothing<T>()
    ensures Flatten<T>([]) == []
  {
  }

  lemma WrapsOnce(x: nat)
    requires x <= TWO_32
    ensures Wrap32(x) == if x < TWO_32 then x else 0
  {
  }

  /** A queue of two full chunks of 2^31 elements, for which the formula gives zero. */
  lemma SizeExample<T>(c: seq<T>)
    requires |c| == MAX_CHUNK
    ensures Packed([c, c], MAX_CHUNK) && CountsOverflow([c, c]) && |Flatten([c, c])| == TWO_32
    ensures Wrap32(|c| + |c|) + (2 - 2) * MAX_CHUNK == 0
  {
    FlattenAppend([c], [c]);
    FlattenOne(c);
    assert [c] + [c] == [c, c];
  }

  // ----- Pushes without allocation -----

  /** The elements that fit into the last chunk and k saved chunks. */
  ghost function RoomFor<T>(v: seq<seq<T>>, k: nat, n: nat): int {
    (if v == [] then 0 else n - |v[|v| - 1]|) + k * n
  }

  /** Whether pushing xs never finds the last chunk full with no chunk saved. */
  ghost predicate AllocationFree<T>(v: seq<seq<T>>, k: nat, n: nat, xs: seq<T>)
    decreases |xs|
  {
    xs == [] || (
      && (NeedsChunk(v, n) ==> k > 0)
      && AllocationFree(Pushed(v, n, xs[0]), if NeedsChunk(v, n) then k - 1 else k, n, xs[1..]))
  }

  lemma RoomAfterPush<T>(v: seq<seq<T>>, k: nat, n: nat, x: T)
    requires Packed(v, n) && n > 0
    ensures RoomFor(v, k, n) >= 0 && (RoomFor(v, k, n) == 0 <==> NeedsChunk(v, n) && k == 0)
    ensures RoomFor(v, k, n) > 0 ==>
      RoomFor(Pushed(v, n, x), if NeedsChunk(v, n) then k - 1 else k, n) == RoomFor(v, k, n) - 1
  {
    if k > 0 {
      assert k * n == (k - 1) * n + n && (k - 1) * n >= 0;
    }
  }

  /** Exactly as many pushes as there is room for go without an allocation. */
  lemma {:induction false} PushesWithoutAllocation<T>(v: seq<seq<T>>, k: nat, n: nat, xs: seq<T>)
    requires Packed(v, n) && n > 0
    ensures AllocationFree(v, k, n, xs) <==> |xs| <= RoomFor(v, k, n)
    decreases |xs|
  {
    if xs == [] {
      if k > 0 {
        MulAtLeast(n, k);
      }
    } else {
      RoomAfterPush(v, k, n, xs[0]);
      if RoomFor(v, k, n) > 0 {
        PushedIsPacked(v, n, xs[0]);
        PushesWithoutAllocation(Pushed(v, n, xs[0]), if NeedsChunk(v, n) then k - 1 else k, n, xs[1..]);
      }
    }
  }

  ghost function SavedAfterPop<T>(v: seq<seq<T>>, k: nat): nat
    requires v != []
  {
    if |v[0]| == 1 && k == 0 then 1 else k
  }

  /**
   A pop never takes room away, except that the last element leaves with the rest of its chunk when
   a chunk is saved already.
   */
  lemma PopKeepsRoom<T>(v: seq<seq<T>>, k: nat, n: nat)
    requires Packed(v, n) && v != []
    ensures RoomFor(Popped(v), SavedAfterPop(v, k), n) >= RoomFor(v, k, n)
        <==> !(|v| == 1 && |v[0]| == 1 && k > 0 && n > 1)
  {
  }

  // ----- Runs of pushes, failing pushes and pops -----

  datatype Op<T> = Push(x: T) | ThrowingPush(x: T) | Pop

  /** How often a chunk was popped from and pushed to since it was linked. */
  datatype Tally = Tally(popped: nat, pushed: nat)

  /** The chunk contents, the number of saved chunks, and the tally of every live chunk. */
  datatype Queue<T> = Queue(v: seq<seq<T>>, saved: nat, tallies: seq<Tally>)

  ghost predicate WellFormed<T>(q: Queue<T>, n: nat) {
    && n > 0 && Packed(q.v, n) && |q.tallies| == |q.v|
    && (forall k :: 0 <= k < |q.v| ==> q.tallies[k].pushed - q.tallies[k].popped == |q.v[k]|)
  }

  ghost function SavedAfterPush<T>(v: seq<seq<T>>, k: nat, n: nat): nat {
    if NeedsChunk(v, n) && k > 0 then k - 1 else k
  }

  ghost function Bumped(t: seq<Tally>): seq<Tally>
    requires t != []
  {
    t[|t| - 1 := t[|t| - 1].(pushed := t[|t| - 1].pushed + 1)]
  }

  /** One operation. A pop of an empty queue, which no caller may do, changes nothing. */
  ghost function Done<T>(q: Queue<T>, n: nat, op: Op<T>): Queue<T>
    requires WellFormed(q, n)
  {
    var saved := SavedAfterPush(q.v, q.saved, n);
    match op
    case Push(x) =>
      var tallies := if NeedsChunk(q.v, n) then q.tallies + [Tally(0, 0)] else q.tallies;
      Queue(Pushed(q.v, n, x), saved, Bumped(tallies))
    case ThrowingPush(_) => Queue(q.v, saved, q.tallies)
    case Pop =>
      if q.v == [] then q
      else
        var t := q.tallies[0];
        Queue(Popped(q.v), SavedAfterPop(q.v, q.saved),
          if |q.v[0]| == 1 then q.tallies[1..] else q.tallies[0 := t.(popped := t.popped + 1)])
  }

  lemma DoneIsWellFormed<T>(q: Queue<T>, n: nat, op: Op<T>)
    requires WellFormed(q, n)
    ensures WellFormed(Done(q, n, op), n)
  {
    match op
    case Push(x) => PushIsWellFormed(q, n, x);
    case ThrowingPush(_) =>
    case Pop => PopIsWellFormed(q, n);
  }

  lemma PushIsWellFormed<T>(q: Queue<T>, n: nat, x: T)
    requires WellFormed(q, n)
    ensures WellFormed(Done(q, n, Push(x)), n)
  {
    PushedIsPacked(q.v, n, x);
    hide Flatten, Packed;
  }

  lemma PopIsWellFormed<T>(q: Queue<T>, n: nat)
    requires WellFormed(q, n)
    ensures WellFormed(Done(q, n, Pop), n)
  {
    if q.v != [] {
      PoppedIsPacked(q.v, n);
      assert q.v[0] != [];
    }
    hide Flatten, Packed;
  }

  ghost function AllDone<T>(q: Queue<T>, n: nat, ops: seq<Op<T>>): Queue<T>
    requires WellFormed(q, n)
    decreases |ops|
  {
    if ops == [] then q
    else
      DoneIsWellFormed(q, n, ops[0]);
      AllDone(Done(q, n, ops[0]), n, ops[1..])
  }

  ghost function Calls<T>(op: Op<T>): nat {
    if op.Pop? then 0 else 1
  }

  ghost function PushCalls<T>(ops: seq<Op<T>>): nat {
    if ops == [] then 0 else Calls(ops[0]) + PushCalls(ops[1..])
  }

  /**
   The operations that give a saved chunk away: a pop that empties the only chunk, and a push that
   fails after having taken a saved chunk.
   */
  ghost predicate LosesRoom<T>(q: Queue<T>, n: nat, op: Op<T>) {
    q.saved > 0 && n > 1 &&
    match op
    case Push(_) => false
    case ThrowingPush(_) => NeedsChunk(q.v, n)
    case Pop => |q.v| == 1 && |q.v[0]| == 1
  }

  ghost function Room<T>(q: Queue<T>, n: nat): int {
    RoomFor(q.v, q.saved, n)
  }

  /** Every other operation leaves room for all pushes that there was room for, less its own. */
  lemma StepKeepsRoom<T>(q: Queue<T>, n: nat, op: Op<T>)
    requires WellFormed(q, n)
    ensures Room(Done(q, n, op), n) >= Room(q, n) - Calls(op) <==> !LosesRoom(q, n, op)
  {
    match op
    case Push(x) =>
      RoomAfterPush(q.v, q.saved, n, x);
      PushedIsPacked(q.v, n, x);
      RoomAfterPush(Pushed(q.v, n, x), SavedAfterPush(q.v, q.saved, n), n, x);
      hide RoomFor, Pushed, Flatten;
    case ThrowingPush(_) =>
      if q.saved > 0 {
        assert (q.saved - 1) * n == q.saved * n - n;
      }
    case Pop =>
      if q.v != [] {
        PopKeepsRoom(q.v, q.saved, n);
        hide RoomFor, Popped;
      }
  }

  /** An operation that gives a saved chunk away costs all of the chunk but one item. */
  lemma LossOfRoom<T>(q: Queue<T>, n: nat, op: Op<T>)
    requires WellFormed(q, n) && LosesRoom(q, n, op)
    ensures Room(Done(q, n, op), n) == Room(q, n) - Calls(op) - (n - 1)
  {
    assert (q.saved - 1) * n == q.saved * n - n;
  }

  /**
   Reserving d elements promises that d push calls go without an allocation, whatever is done between
   them. One operation later the promise still stands for the calls left if and only if the operation
   has given no saved chunk away, or there was room for n - 1 elements more than had been reserved.
   */
  lemma ReservationKept<T>(q: Queue<T>, n: nat, op: Op<T>, d: nat, xs: seq<T>)
    requires WellFormed(q, n) && Calls(op) <= d <= Room(q, n) && |xs| == d - Calls(op)
    ensures var r := Done(q, n, op);
      AllocationFree(r.v, r.saved, n, xs) <==> !LosesRoom(q, n, op) || d <= Room(q, n) - (n - 1)
  {
    DoneIsWellFormed(q, n, op);
    StepKeepsRoom(q, n, op);
    if LosesRoom(q, n, op) {
      LossOfRoom(q, n, op);
    }
    var r := Done(q, n, op);
    hide Done, LosesRoom, AllocationFree, RoomFor;
    PushesWithoutAllocation(r.v, r.saved, n, xs);
  }

  ghost predicate Allocates<T>(q: Queue<T>, n: nat, op: Op<T>) {
    !op.Pop? && NeedsChunk(q.v, n) && q.saved == 0
  }

  /** How many operations of a run give a saved chunk away. */
  ghost function Losses<T>(q: Queue<T>, n: nat, ops: seq<Op<T>>): nat
    requires WellFormed(q, n)
    decreases |ops|
  {
    if ops == [] then 0
    else
      DoneIsWellFormed(q, n, ops[0]);
      (if LosesRoom(q, n, ops[0]) then 1 else 0) + Losses(Done(q, n, ops[0]), n, ops[1..])
  }

  ghost predicate SomeAllocates<T>(q: Queue<T>, n: nat, ops: seq<Op<T>>)
    requires WellFormed(q, n)
    decreases |ops|
  {
    ops != [] && (
      || Allocates(q, n, ops[0])
      || (DoneIsWellFormed(q, n, ops[0]); SomeAllocates(Done(q, n, ops[0]), n, ops[1..])))
  }

  lemma RoomAfterStep<T>(q: Queue<T>, n: nat, op: Op<T>)
    requires WellFormed(q, n)
    ensures Room(Done(q, n, op), n) >= Room(q, n) - Calls(op) - (n - 1) * (if LosesRoom(q, n, op) then 1 else 0)
  {
    StepKeepsRoom(q, n, op);
    if LosesRoom(q, n, op) {
      LossOfRoom(q, n, op);
    }
  }

  /** A whole run costs its push calls, and n - 1 elements for every saved chunk it gives away. */
  lemma {:induction false} RoomAfterRun<T>(q: Queue<T>, n: nat, ops: seq<Op<T>>)
    requires WellFormed(q, n)
    ensures Room(AllDone(q, n, ops), n) >= Room(q, n) - PushCalls(ops) - (n - 1) * Losses(q, n, ops)
    decreases |ops|
  {
    if ops != [] {
      hide Done, LosesRoom, Room, WellFormed;
      DoneIsWellFormed(q, n, ops[0]);
      RoomAfterStep(q, n, ops[0]);
      var r, lost := Done(q, n, ops[0]), if LosesRoom(q, n, ops[0]) then 1 else 0;
      RoomAfterRun(r, n, ops[1..]);
      Spent(n - 1, lost, Losses(r, n, ops[1..]), Calls(ops[0]), PushCalls(ops[1..]), Room(q, n), Room(r, n));
    }
  }

  lemma Spent(m: nat, lost: nat, losses: nat, calls: nat, pushes: nat, room: int, left: int)
    requires left >= room - calls - m * lost
    ensures left - pushes - m * losses >= room - (calls + pushes) - m * (lost + losses)
  {
    Distribute(m, lost, losses);
  }

  lemma Distribute(m: int, x: int, y: int)
    ensures m * (x + y) == m * x + m * y
  {
  }

  /**
   A run of successful and failing pushes and pops in any order allocates nothing if there is room for
   its push calls and n - 1 elements more for every saved chunk that it gives away.
   */
  lemma {:induction false} RunWithoutAllocation<T>(q: Queue<T>, n: nat, ops: seq<Op<T>>)
    requires WellFormed(q, n) && PushCalls(ops) + (n - 1) * Losses(q, n, ops) <= Room(q, n)
    ensures !SomeAllocates(q, n, ops)
    decreases |ops|
  {
    if ops != [] {
      NoRoomMeansNeed(q, n);
      hide Done, LosesRoom, Room, WellFormed, NeedsChunk;
      DoneIsWellFormed(q, n, ops[0]);
      RoomAfterStep(q, n, ops[0]);
      var r, lost := Done(q, n, ops[0]), if LosesRoom(q, n, ops[0]) then 1 else 0;
      Budget(n - 1, lost, Losses(r, n, ops[1..]), Calls(ops[0]), PushCalls(ops[1..]), Room(q, n), Room(r, n));
      RunWithoutAllocation(r, n, ops[1..]);
    }
  }

  lemma Budget(m: nat, lost: nat, losses: nat, calls: nat, pushes: nat, room: int, left: int)
    requires calls + pushes + m * (lost + losses) <= room
    requires left >= room - calls - m * lost
    ensures calls <= room && pushes + m * losses <= left
  {
    Distribute(m, lost, losses);
    ProductMonotone(0, lost + losses, m);
  }

  lemma NoRoomMeansNeed<T>(q: Queue<T>, n: nat)
    requires WellFormed(q, n)
    ensures Room(q, n) >= 0 && (Room(q, n) == 0 <==> NeedsChunk(q.v, n) && q.saved == 0)
  {
    if q.saved > 0 {
      assert q.saved * n == (q.saved - 1) * n + n && (q.saved - 1) * n >= 0;
    }
  }

  /** An empty queue of chunks of four, with room reserved for four elements. */
  const RESERVED: Queue<bool> := Queue([], 1, [])

  /** A failing push spends the saved chunk: the three pushes left to the reservation need an allocation. */
  lemma FailingPushExample()
    ensures WellFormed(RESERVED, 4) && Room(RESERVED, 4) == 4 && LosesRoom(RESERVED, 4, ThrowingPush(true))
    ensures Done(RESERVED, 4, ThrowingPush(true)) == Queue([], 0, [])
    ensures SomeAllocates(RESERVED, 4, [ThrowingPush(true), Push(true), Push(true), Push(true)])
  {
    var ops := [ThrowingPush(true), Push(true), Push(true), Push(true)];
    assert ops[1..][0] == Push(true);
  }

  /** An empty queue of chunks of four after reserving five elements. */
  const SLACK: Queue<bool> := Queue([], 2, [])

  lemma SlackReserved()
    ensures SavedAfterReserve<bool>([], 0, 4, 5) == SLACK.saved
    ensures WellFormed(SLACK, 4) && Room(SLACK, 4) == 8 && LosesRoom(SLACK, 4, ThrowingPush(true))
  {
  }

  /** Rounding up has left slack: there the same failing push keeps the promise of the four pushes left. */
  lemma SlackExample(xs: seq<bool>)
    requires |xs| == 4
    ensures SavedAfterReserve<bool>([], 0, 4, 5) == SLACK.saved
    ensures WellFormed(SLACK, 4) && LosesRoom(SLACK, 4, ThrowingPush(true))
    ensures AllocationFree(Done(SLACK, 4, ThrowingPush(true)).v, Done(SLACK, 4, ThrowingPush(true)).saved, 4, xs)
  {
    hide Done, AllocationFree, LosesRoom, WellFormed, Room, SavedAfterReserve;
    SlackReserved();
    ReservationKept(SLACK, 4, ThrowingPush(true), 5, xs);
  }

  /** A pop that empties the only chunk while another is saved: room for seven shrinks to four. */
  lemma PopExample()
    ensures RoomFor([[true]], 1, 4) == 7 && RoomFor(Popped([[true]]), SavedAfterPop([[true]], 1), 4) == 4
  {
  }

  // ----- First in, first out -----

  /** The same operations on a plain queue. */
  ghost function Fifo<T>(contents: seq<T>, ops: seq<Op<T>>): seq<T>
    decreases |ops|
  {
    if ops == [] then contents
    else
      match ops[0]
      case Push(x) => Fifo(contents + [x], ops[1..])
      case ThrowingPush(_) => Fifo(contents, ops[1..])
      case Pop => Fifo(if contents == [] then [] else contents[1..], ops[1..])
  }

  lemma StepIsFifo<T>(q: Queue<T>, n: nat, op: Op<T>)
    requires WellFormed(q, n)
    ensures var contents, after := Flatten(q.v), Flatten(Done(q, n, op).v);
      match op
      case Push(x) => after == contents + [x]
      case ThrowingPush(_) => after == contents
      case Pop => after == if contents == [] then [] else contents[1..]
  {
    match op
    case Push(x) => PushedIsPacked(q.v, n, x);
    case ThrowingPush(_) =>
    case Pop =>
      if q.v != [] {
        PoppedIsPacked(q.v, n);
      }
  }

  /** Every run of pushes, failing pushes and pops is that run on a plain queue. */
  lemma {:induction false} RunIsFifo<T>(q: Queue<T>, n: nat, ops: seq<Op<T>>)
    requires WellFormed(q, n)
    ensures WellFormed(AllDone(q, n, ops), n)
    ensures Flatten(AllDone(q, n, ops).v) == Fifo(Flatten(q.v), ops)
    decreases |ops|
  {
    if ops != [] {
      DoneIsWellFormed(q, n, ops[0]);
      StepIsFifo(q, n, ops[0]);
      hide Done, WellFormed, Flatten;
      RunIsFifo(Done(q, n, ops[0]), n, ops[1..]);
    }
  }

  // ----- Counters that wrap -----

  ghost function WrappedTally(t: Tally): Span {
    Span(Wrap32(t.popped), Wrap32(t.pushed))
  }

  ghost function SpansOfTallies(t: seq<Tally>): (s: seq<Span>)
    ensures |s| == |t| && forall k :: 0 <= k < |t| ==> s[k] == WrappedTally(t[k])
  {
    seq(|t|, k requires 0 <= k < |t| => WrappedTally(t[k]))
  }

  /** The counters are the tallies in 32 bits, operation by operation. */
  lemma SpansFollowTallies<T>(q: Queue<T>, n: nat, op: Op<T>)
    requires WellFormed(q, n)
    ensures var s, t := SpansOfTallies(q.tallies), SpansOfTallies(Done(q, n, op).tallies);
      match op
      case Push(_) => t == PushedSpans(s, NeedsChunk(q.v, n))
      case ThrowingPush(_) => t == s
      case Pop => t == if q.v == [] then s else PoppedSpans(s, |q.v[0]| == 1)
  {
    assert |q.tallies| == |q.v|;
    hide Flatten, Packed, Popped, Pushed, WellFormed, NeedsChunk, SpansOfTallies, Bumped, PushedSpans, PoppedSpans;
    match op
    case Push(_) =>
      EmptyNeedsChunk(q.v, n);
      PushedTallies(q.tallies, NeedsChunk(q.v, n));
    case ThrowingPush(_) =>
    case Pop =>
      if q.v != [] {
        PoppedTallies(q.tallies, |q.v[0]| == 1);
      }
  }

  lemma EmptyNeedsChunk<T>(v: seq<seq<T>>, n: nat)
    ensures v == [] ==> NeedsChunk(v, n)
  {
  }

  lemma PushedTallies(t: seq<Tally>, needsChunk: bool)
    requires needsChunk || t != []
    ensures SpansOfTallies(Bumped(if needsChunk then t + [Tally(0, 0)] else t))
      == PushedSpans(SpansOfTallies(t), needsChunk)
  {
    BumpedSpans(if needsChunk then t + [Tally(0, 0)] else t);
    hide Bumped, BumpedEnd;
    assert SpansOfTallies(t + [Tally(0, 0)]) == SpansOfTallies(t) + [Span(0, 0)];
  }

  lemma PoppedTallies(t: seq<Tally>, empties: bool)
    requires t != []
    ensures SpansOfTallies(if empties then t[1..] else t[0 := t[0].(popped := t[0].popped + 1)])
      == PoppedSpans(SpansOfTallies(t), empties)
  {
    if !empties {
      PoppedTally(t);
    }
    hide BumpedBegin;
  }

  lemma WrapNext(x: nat)
    ensures Wrap32(Wrap32(x) + 1) == Wrap32(x + 1)
  {
  }

  lemma BumpedSpans(t: seq<Tally>)
    requires t != []
    ensures SpansOfTallies(Bumped(t)) == BumpedEnd(SpansOfTallies(t))
  {
    WrapNext(t[|t| - 1].pushed);
    hide Wrap32;
  }

  lemma PoppedTally(t: seq<Tally>)
    requires t != []
    ensures SpansOfTallies(t[0 := t[0].(popped := t[0].popped + 1)]) == BumpedBegin(SpansOfTallies(t))
  {
    WrapNext(t[0].popped);
    hide Wrap32;
  }

  ghost function Pushes<T>(ops: seq<Op<T>>): nat {
    if ops == [] then 0 else (if ops[0].Push? then 1 else 0) + Pushes(ops[1..])
  }

  /** No chunk has seen more than m pushes. */
  ghost predicate PushedAtMost(t: seq<Tally>, m: nat) {
    forall k :: 0 <= k < |t| ==> t[k].pushed <= m
  }

  lemma StepPushes<T>(q: Queue<T>, n: nat, op: Op<T>, m: nat)
    requires WellFormed(q, n) && PushedAtMost(q.tallies, m)
    ensures PushedAtMost(Done(q, n, op).tallies, m + if op.Push? then 1 else 0)
  {
    hide Packed, Pushed, Popped, Flatten;
  }

  lemma {:induction false} RunPushes<T>(q: Queue<T>, n: nat, ops: seq<Op<T>>, m: nat)
    requires WellFormed(q, n) && PushedAtMost(q.tallies, m)
    ensures WellFormed(AllDone(q, n, ops), n) && PushedAtMost(AllDone(q, n, ops).tallies, m + Pushes(ops))
    decreases |ops|
  {
    hide Done, WellFormed, PushedAtMost;
    if ops != [] {
      DoneIsWellFormed(q, n, ops[0]);
      var more := if ops[0].Push? then 1 else 0;
      StepPushes(q, n, ops[0], m);
      RunPushes(Done(q, n, ops[0]), n, ops[1..], m + more);
    }
  }

  /**
   Counters do not wrap while fewer than 2^32 elements have been pushed since the queue was last
   empty, however many chunks they went through and however many were popped.
   */
  lemma FewPushesDoNotWrap<T>(saved: nat, n: nat, ops: seq<Op<T>>)
    requires n > 0 && Pushes(ops) < TWO_32
    ensures var q := AllDone(Queue([], saved, []), n, ops);
      Unwrapped(SpansOfTallies(q.tallies), |q.tallies|)
  {
    hide AllDone, SpansOfTallies;
    RunPushes(Queue([], saved, []), n, ops, 0);
    hide Packed;
    var q := AllDone(Queue([], saved, []), n, ops);
    assert forall k :: 0 <= k < |q.tallies| ==> |q.v[k]| > 0 by {
      PackedNonempty(q.v, n);
    }
    forall k | 0 <= k < |q.tallies|
      ensures SpansOfTallies(q.tallies)[k].begin < SpansOfTallies(q.tallies)[k].end
    {
      assert SpansOfTallies(q.tallies)[k] == WrappedTally(q.tallies[k]);
    }
  }

  lemma PackedNonempty<T>(v: seq<seq<T>>, n: nat)
    requires Packed(v, n)
    ensures forall k :: 0 <= k < |v| ==> |v[k]| > 0
  {
  }

  /** j times a push and a pop. */
  ghost function Alternating<T>(x: T, j: nat): seq<Op<T>> {
    if j == 0 then [] else [Push(x), Pop] + Alternating(x, j - 1)
  }

  /** On one element in a chunk of at least two, each push and pop advances both counters by one. */
  lemma {:induction false} AlternatingAdvances<T>(x: T, saved: nat, n: nat, t: Tally, j: nat)
    requires n >= 2 && t.pushed - t.popped == 1
    ensures AllDone(Queue([[x]], saved, [t]), n, Alternating(x, j))
      == Queue([[x]], saved, [Tally(t.popped + j, t.pushed + j)])
    decreases j
  {
    PushThenPop(x, saved, n, t);
    hide Done, WellFormed;
    if j > 0 {
      var q, r := Queue([[x]], saved, [t]), Queue([[x, x]], saved, [Tally(t.popped, t.pushed + 1)]);
      var rest := Alternating(x, j - 1);
      TwoMore(x, j);
      hide AllDone, Alternating;
      FirstOfAll(q, n, Push(x), [Pop] + rest);
      FirstOfAll(r, n, Pop, rest);
      AlternatingAdvances(x, saved, n, Tally(t.popped + 1, t.pushed + 1), j - 1);
    }
  }

  lemma TwoMore<T>(x: T, j: nat)
    requires j > 0
    ensures Alternating(x, j) == [Push(x)] + ([Pop] + Alternating(x, j - 1))
  {
    assert [Push(x), Pop] + Alternating(x, j - 1) == [Push(x)] + ([Pop] + Alternating(x, j - 1));
  }

  lemma FirstOfAll<T>(q: Queue<T>, n: nat, op: Op<T>, rest: seq<Op<T>>)
    requires WellFormed(q, n)
    ensures WellFormed(Done(q, n, op), n)
    ensures AllDone(q, n, [op] + rest) == AllDone(Done(q, n, op), n, rest)
  {
    DoneIsWellFormed(q, n, op);
    hide Done, WellFormed;
    assert ([op] + rest)[1..] == rest;
  }

  lemma PushThenPop<T>(x: T, saved: nat, n: nat, t: Tally)
    requires n >= 2 && t.pushed - t.popped == 1
    ensures WellFormed(Queue([[x]], saved, [t]), n)
    ensures Done(Queue([[x]], saved, [t]), n, Push(x)) == Queue([[x, x]], saved, [Tally(t.popped, t.pushed + 1)])
    ensures WellFormed(Queue([[x, x]], saved, [Tally(t.popped, t.pushed + 1)]), n)
    ensures Done(Queue([[x, x]], saved, [Tally(t.popped, t.pushed + 1)]), n, Pop)
      == Queue([[x]], saved, [Tally(t.popped + 1, t.pushed + 1)])
  {
    assert [[x]][0] + [x] == [x, x];
    assert [x, x][1..] == [x];
  }

  lemma FirstPush<T>(x: T, saved: nat, n: nat)
    requires n >= 1
    ensures WellFormed(Queue<T>.Queue([], saved, []), n)
    ensures Done(Queue([], saved, []), n, Push(x)) == Queue([[x]], if saved > 0 then saved - 1 else 0, [Tally(0, 1)])
  {
    var none: seq<seq<T>> := [[]];
    assert none[0] + [x] == [x] && none[..0] == [];
    assert WithRoom([], n) == none && AppendLast(none, x) == [[x]];
  }

  lemma PushThenAlternate<T>(x: T, saved: nat, n: nat, j: nat)
    requires n >= 2
    ensures WellFormed(Queue<T>.Queue([], saved, []), n)
    ensures AllDone(Queue([], saved, []), n, [Push(x)] + Alternating(x, j))
      == Queue([[x]], if saved > 0 then saved - 1 else 0, [Tally(j, j + 1)])
  {
    FirstPush(x, saved, n);
    hide Done, Alternating, WellFormed, AllDone;
    var left := if saved > 0 then saved - 1 else 0;
    FirstOfAll(Queue([], saved, []), n, Push(x), Alternating(x, j));
    AlternatingAdvances(x, left, n, Tally(0, 1), j);
  }

  /** After a push and 2^32 - 1 rounds, one element is left, whose counters have wrapped. */
  lemma WrappedExample(n: nat, rounds: nat)
    requires n >= 2 && rounds == TWO_32 - 1
    ensures WellFormed(Queue<bool>.Queue([], 0, []), n)
    ensures var q := AllDone(Queue([], 0, []), n, [Push(true)] + Alternating(true, rounds));
      && q.v == [[true]]
      && SpansOfTallies(q.tallies) == [Span(0xffff_ffff, 0)]
      && Reached(SpansOfTallies(q.tallies), 1) > |Flatten(q.v)| == 1
  {
    hide AllDone, Flatten, Alternating, Reached, SpansOfTallies, WellFormed;
    PushThenAlternate(true, 0, n, rounds);
    WrappedSpan(rounds);
  }

  lemma WrappedSpan(popped: nat)
    requires popped == TWO_32 - 1
    ensures var s := SpansOfTallies([Tally(popped, popped + 1)]);
      s == [Span(0xffff_ffff, 0)] && Reached(s, 1) > |Flatten([[true]])| == 1
  {
    FlattenOne([true]);
    hide Flatten;
    var s := SpansOfTallies([Tally(popped, popped + 1)]);
    assert s[0] == Span(0xffff_ffff, 0);
    assert Reached(s, 1) == Stay(s[0]);
  }

  // ----- Reserving -----

  ghost function RoomInLast<T>(v: seq<seq<T>>, n: nat): int {
    if v == [] then 0 else n - |v[|v| - 1]|
  }

  /** The chunks saved after asking for d more elements, in 64-bit arithmetic that may wrap at each step. */
  ghost function SavedAfterReserve<T>(v: seq<seq<T>>, k: nat, n: nat, d: int): nat
    requires n > 0
  {
    var need := if v == [] then Wrap64(d) else Wrap64(Wrap64(d) - (n - |v[|v| - 1]|));
    var q := Wrap64(need + n - 1) / n;
    if q > k then q else k
  }

  lemma CeilingQuotient(x: int, n: nat, q: nat)
    requires n > 0 && x + n - 1 >= 0 && q == (x + n - 1) / n
    ensures x <= q * n && (q > 0 ==> (q - 1) * n < x)
  {
    var r := (x + n - 1) % n;
    assert x + n - 1 == q * n + r;
    assert (q - 1) * n == q * n - n;
  }

  lemma ProductMonotone(q: nat, k: nat, n: nat)
    requires q <= k
    ensures q * n <= k * n
  {
  }

  lemma WrapsMerge(d: int, room: int, x: int)
    ensures Wrap64(Wrap64(Wrap64(d) - room) + x) == Wrap64(d - room + x)
    ensures Wrap64(Wrap64(d) + x) == Wrap64(d + x)
  {
  }

  lemma SavedAfterReserveIs<T>(v: seq<seq<T>>, k: nat, n: nat, d: int)
    requires n > 0
    ensures var q := Wrap64(d - RoomInLast(v, n) + n - 1) / n;
      SavedAfterReserve(v, k, n, d) == if q > k then q else k
  {
    WrapsMerge(d, RoomInLast(v, n), n - 1);
    hide Wrap64;
  }

  /**
   Reserving room for d more elements gives it, unless d is so near 2^64 that rounding up to whole
   chunks wraps and the room was not there already.
   */
  lemma ReserveGivesRoom<T>(v: seq<seq<T>>, k: nat, n: nat, d: nat)
    requires Packed(v, n) && 0 < n <= MAX_CHUNK && d < TWO_64
    ensures RoomFor(v, SavedAfterReserve(v, k, n, d), n) >= d
        <==> d - RoomInLast(v, n) + n <= TWO_64 || RoomFor(v, k, n) >= d
  {
    SavedAfterReserveIs(v, k, n, d);
    hide SavedAfterReserve, Wrap64;
    RoundedUp(d, RoomInLast(v, n), n, k);
  }

  /** Rounding d - room up to whole chunks, in arithmetic that wraps. */
  lemma RoundedUp(d: nat, room: nat, n: nat, k: nat)
    requires room < n && 0 < n <= MAX_CHUNK && d < TWO_64
    ensures var q := Wrap64(d - room + n - 1) / n; var saved := if q > k then q else k;
      && (room + saved * n >= d <==> d - room + n <= TWO_64 || room + k * n >= d)
      && (saved > k ==> room + (saved - 1) * n < d)
  {
    var q := WrappedCeiling(d - room, n);
    hide Wrap64;
    if q <= k {
      ProductMonotone(q, k, n);
    }
  }

  lemma WrappedCeiling(x: int, n: nat) returns (q: nat)
    requires 0 < n <= MAX_CHUNK && 0 <= x + n - 1 < TWO_64 + n
    ensures q == Wrap64(x + n - 1) / n
    ensures if x + n - 1 < TWO_64 then x <= q * n && (q > 0 ==> (q - 1) * n < x) else q == 0
  {
    var t := x + n - 1;
    RoundedWrap(t, n);
    hide Wrap64;
    if t < TWO_64 {
      q := t / n;
      CeilingQuotient(x, n, q);
    } else {
      q := 0;
    }
  }

  /** Nothing more is saved than the room needs. */
  lemma ReserveIsLeast<T>(v: seq<seq<T>>, k: nat, n: nat, d: nat)
    requires Packed(v, n) && 0 < n <= MAX_CHUNK && d < TWO_64
    requires SavedAfterReserve(v, k, n, d) > k
    ensures RoomFor(v, SavedAfterReserve(v, k, n, d) - 1, n) < d
  {
    SavedAfterReserveIs(v, k, n, d);
    hide SavedAfterReserve, Wrap64;
    RoundedUp(d, RoomInLast(v, n), n, k);
  }

  /** Room for 2^64 - 1 elements in chunks of two: rounding up wraps, and nothing is saved. */
  lemma ReserveExample()
    ensures SavedAfterReserve<bool>([], 0, 2, TWO_64 - 1) == 0 && RoomFor<bool>([], 0, 2) == 0
  {
  }

  lemma RoundedWrap(t: int, n: nat)
    requires 0 < n && 0 <= t < TWO_64 + n
    ensures t < TWO_64 ==> Wrap64(t) == t
    ensures t >= TWO_64 ==> Wrap64(t) / n == 0
  {
  }

  /**
   Asking for fewer elements than there are saves nothing only while the shortfall and the room in the
   last chunk stay below one chunk; beyond that, chunks are saved for all of 2^64 elements less these two.
   */
  lemma ReserveBelowSize<T>(v: seq<seq<T>>, k: nat, n: nat, d: int)
    requires Packed(v, n) && 0 < n <= MAX_CHUNK && -TWO_64 <= d < 0
    ensures d - RoomInLast(v, n) + n > 0 ==> SavedAfterReserve(v, k, n, d) == k
    ensures d - RoomInLast(v, n) + n <= 0 ==> SavedAfterReserve(v, k, n, d) * n >= TWO_64 + d - RoomInLast(v, n)
  {
    SavedAfterReserveIs(v, k, n, d);
    hide SavedAfterReserve, Wrap64;
    BelowZero(d - RoomInLast(v, n) + n - 1, n, k);
  }

  lemma BelowZero(t: int, n: nat, k: nat)
    requires 0 < n <= MAX_CHUNK && -TWO_64 <= t < n
    ensures var q := Wrap64(t) / n; var saved := if q > k then q else k;
      if t >= 0 then saved == k else saved * n > t + TWO_64 - n
  {
    NegativeWrap(t, n);
    hide Wrap64;
    var q := Wrap64(t) / n;
    if t < 0 {
      ProductMonotone(q, if q > k then q else k, n);
    }
  }

  lemma NegativeWrap(t: int, n: nat)
    requires 0 < n <= MAX_CHUNK && -TWO_64 <= t < n
    ensures t >= 0 ==> Wrap64(t) / n == 0
    ensures t < 0 ==> Wrap64(t) / n * n > t + TWO_64 - n
  {
    WrapOfSigned(t);
    hide Wrap64;
    if t >= 0 {
      DivModUnique(t, n, 0, t);
    } else {
      LargeQuotient(t + TWO_64, n, (t + TWO_64) / n);
    }
  }

  lemma WrapOfSigned(t: int)
    requires -TWO_64 <= t < TWO_64
    ensures Wrap64(t) == if t < 0 then t + TWO_64 else t
  {
  }

  lemma LargeQuotient(a: nat, n: nat, q: int)
    requires n > 0 && q == a / n
    ensures q * n > a - n
  {
    NatDivision(a, n);
  }

  // ----- Chunks -----

  class Chunk<T(0)> {
    const items: array<T>
    var next: Chunk?<T>
    // Read modulo the number of items.
    var begin: uint32
    var end: uint32

    constructor (n: nat)
      ensures items.Length == n && fresh(items)
    {
      items := new T[n];
      next := null;
      begin, end := 0, 0;
    }

    function Count(): uint32
      reads this
    {
      Wrap32(end - begin)
    }

    ghost function Elements(): (s: seq<T>)
      requires Count() <= items.Length
      reads this, items
      ensures |s| == Count()
    {
      View(items[..], begin, Count())
    }
  }

  ghost function Head<T(0)>(cs: seq<Chunk<T>>): Chunk?<T> {
    if cs == [] then null else cs[0]
  }

  ghost function First<T(0)>(cs: seq<Chunk<T>>): set<Chunk<T>> {
    if cs == [] then {} else {cs[0]}
  }

  ghost function Tail<T(0)>(cs: seq<Chunk<T>>): Chunk?<T> {
    if cs == [] then null else cs[|cs| - 1]
  }

  ghost function ChunkAt<T(0)>(cs: seq<Chunk<T>>, k: nat): Chunk<T>
    requires k < |cs|
  {
    cs[k]
  }

  ghost function Rest<T(0)>(cs: seq<Chunk<T>>): seq<Chunk<T>> {
    if cs == [] then [] else cs[1..]
  }

  ghost function Arrays<T(0)>(cs: seq<Chunk<T>>): set<array<T>> {
    set c | c in cs :: c.items
  }

  /** The chunks follow each other, and none follows the last. */
  ghost predicate Path<T(0)>(cs: seq<Chunk<T>>)
    reads cs
  {
    && (forall k {:trigger cs[k].next} :: 0 <= k < |cs| - 1 ==> cs[k].next == cs[k + 1])
    && (cs != [] ==> cs[|cs| - 1].next == null)
  }

  /** Distinct chunks with distinct arrays of n items. */
  ghost predicate Separate<T(0)>(cs: seq<Chunk<T>>, n: nat) {
    && (forall k :: 0 <= k < |cs| ==> cs[k].items.Length == n)
    && (forall j, k :: 0 <= j < k < |cs| ==> cs[j] != cs[k] && cs[j].items != cs[k].items)
  }

  lemma SeparateAppend<T(0)>(cs: seq<Chunk<T>>, c: Chunk<T>, n: nat)
    requires Separate(cs, n) && c.items.Length == n
    requires forall d :: d in cs ==> d != c && d.items != c.items
    ensures Separate(cs + [c], n)
  {
  }

  /** The chunk c is neither among cs nor among fs, which share none, and the last of cs is no other. */
  ghost predicate Apart<T(0)>(cs: seq<Chunk<T>>, c: Chunk<T>, fs: seq<Chunk<T>>) {
    && (forall d :: d in cs ==> d != c && d.items != c.items && d !in fs)
    && (forall d :: d in fs ==> d != c && d.items != c.items)
    && (forall k :: 0 <= k < |cs| - 1 ==> cs[k] != cs[|cs| - 1])
  }

  lemma SeparateLast<T(0)>(cs: seq<Chunk<T>>, c: Chunk<T>, fs: seq<Chunk<T>>, n: nat)
    requires Separate(cs + [c] + fs, n)
    ensures c.items.Length == n && Apart(cs, c, fs)
  {
    var all := cs + [c] + fs;
    assert all[|cs|] == c;
    forall d | d in cs
      ensures d != c && d.items != c.items && d !in fs
    {
      var i :| 0 <= i < |cs| && cs[i] == d;
      assert all[i] == d;
      forall k | 0 <= k < |fs|
        ensures fs[k] != d
      {
        assert all[|cs| + 1 + k] == fs[k];
      }
    }
    forall k | 0 <= k < |cs| - 1
      ensures cs[k] != cs[|cs| - 1]
    {
      assert all[k] != all[|cs| - 1];
    }
    forall d | d in fs
      ensures d != c && d.items != c.items
    {
      var k :| 0 <= k < |fs| && fs[k] == d;
      assert all[|cs| + 1 + k] == d;
    }
  }

  lemma SeparateSides<T(0)>(cs: seq<Chunk<T>>, fs: seq<Chunk<T>>, n: nat)
    requires Separate(cs + fs, n)
    ensures forall j, k :: 0 <= j < |cs| && 0 <= k < |fs| ==> cs[j] != fs[k]
  {
    forall j, k | 0 <= j < |cs| && 0 <= k < |fs|
      ensures cs[j] != fs[k]
    {
      assert (cs + fs)[j] == cs[j] && (cs + fs)[|cs| + k] == fs[k];
    }
  }

  lemma SeparateWithoutLast<T(0)>(cs: seq<Chunk<T>>, fs: seq<Chunk<T>>, n: nat)
    requires cs != [] && Separate(cs + fs, n)
    ensures Separate(cs[..|cs| - 1] + fs, n)
  {
    var before, all := cs[..|cs| - 1] + fs, cs + fs;
    assert forall k :: 0 <= k < |before| ==> before[k] == all[if k < |cs| - 1 then k else k + 1];
  }

  lemma FirstApart<T(0)>(cs: seq<Chunk<T>>, fs: seq<Chunk<T>>, n: nat)
    requires cs != [] && Separate(cs + fs, n)
    ensures forall k :: 1 <= k < |cs| ==> cs[k] != cs[0]
  {
    forall k | 1 <= k < |cs|
      ensures cs[k] != cs[0]
    {
      assert (cs + fs)[k] == cs[k] && (cs + fs)[0] == cs[0];
    }
  }

  lemma SeparateFirstPart<T(0)>(cs: seq<Chunk<T>>, fs: seq<Chunk<T>>, n: nat)
    requires Separate(cs + fs, n)
    ensures Separate(cs + [], n)
  {
    assert forall k :: 0 <= k < |cs| ==> (cs + [])[k] == (cs + fs)[k];
  }

  lemma SeparateInserted<T(0)>(cs: seq<Chunk<T>>, c: Chunk<T>, fs: seq<Chunk<T>>, n: nat)
    requires Separate(cs + fs, n) && c.items.Length == n
    requires forall d :: d in cs + fs ==> d != c && d.items != c.items
    ensures Separate(cs + ([c] + fs), n)
  {
    var all, with := cs + fs, cs + ([c] + fs);
    assert forall k :: 0 <= k < |cs| ==> with[k] == all[k];
    assert forall k :: |cs| < k < |with| ==> with[k] == all[k - 1];
    assert forall k :: 0 <= k < |all| ==> all[k] in cs + fs;
  }

  lemma SeparateWithoutFirst<T(0)>(cs: seq<Chunk<T>>, fs: seq<Chunk<T>>, n: nat)
    requires cs != [] && Separate(cs + fs, n)
    ensures Separate(cs[1..] + fs, n) && (fs == [] ==> Separate(cs[1..] + [cs[0]], n))
  {
    var after, all := cs[1..] + fs, cs + fs;
    assert after == all[1..];
    if fs == [] {
      var moved := cs[1..] + [cs[0]];
      assert forall k :: 0 <= k < |moved| ==> moved[k] == all[if k < |cs| - 1 then k + 1 else 0];
    }
  }

  lemma EmptyChunk<T(0)>(c: Chunk<T>)
    requires c.begin == c.end
    ensures c.Count() == 0 && c.Elements() == []
  {
  }

  /** The two counters of a chunk. */
  datatype Span = Span(begin: uint32, end: uint32)

  ghost function SpansOf<T(0)>(cs: seq<Chunk<T>>): (s: seq<Span>)
    reads cs
    ensures |s| == |cs| && forall k :: 0 <= k < |cs| ==> s[k] == Span(cs[k].begin, cs[k].end)
  {
    if cs == [] then []
    else SpansOf(cs[..|cs| - 1]) + [Span(cs[|cs| - 1].begin, cs[|cs| - 1].end)]
  }

  lemma SpansAre<T(0)>(cs: seq<Chunk<T>>, s: seq<Span>)
    requires |cs| == |s| && forall k :: 0 <= k < |cs| ==> cs[k].begin == s[k].begin && cs[k].end == s[k].end
    ensures SpansOf(cs) == s
  {
    hide SpansOf;
    assert forall k :: 0 <= k < |s| ==> SpansOf(cs)[k] == s[k];
  }

  ghost function BumpedEnd(s: seq<Span>): seq<Span>
    requires s != []
  {
    s[|s| - 1 := s[|s| - 1].(end := Wrap32(s[|s| - 1].end + 1))]
  }

  ghost function BumpedBegin(s: seq<Span>): seq<Span>
    requires s != []
  {
    s[0 := s[0].(begin := Wrap32(s[0].begin + 1))]
  }

  ghost function PushedSpans(s: seq<Span>, needsChunk: bool): seq<Span>
    requires needsChunk || s != []
  {
    BumpedEnd(if needsChunk then s + [Span(0, 0)] else s)
  }

  ghost function PoppedSpans(s: seq<Span>, empties: bool): seq<Span>
    requires s != []
  {
    if empties then s[1..] else BumpedBegin(s)
  }

  ghost predicate Filled<T(0)>(cs: seq<Chunk<T>>, v: seq<seq<T>>)
    reads cs, Arrays(cs)
  {
    && |cs| == |v|
    && (forall k :: 0 <= k < |cs| ==> cs[k].Count() <= cs[k].items.Length && cs[k].Elements() == v[k])
  }

  // ----- The list -----

  class ArrayList<T(0)> {
    const itemsPerChunk: nat
    var frontChunk: Chunk?<T>
    var backChunk: Chunk?<T>
    var nchunks: nat
    var freeChunks: Chunk?<T>
    var nfreeChunks: nat

    /** The live chunks cs have the contents v, and fs are the saved chunks. */
    ghost predicate Linked(cs: seq<Chunk<T>>, fs: seq<Chunk<T>>, v: seq<seq<T>>)
      reads this, cs, fs, Arrays(cs)
    {
      && IsPowerOfTwo(itemsPerChunk) && 0 < itemsPerChunk <= MAX_CHUNK
      && nchunks == |cs| && frontChunk == Head(cs) && backChunk == Tail(cs) && Path(cs)
      && nfreeChunks == |fs| && freeChunks == Head(fs) && Path(fs)
      && Separate(cs + fs, itemsPerChunk)
      && Filled(cs, v)
    }

    /** What holds between operations. */
    ghost predicate Holds(cs: seq<Chunk<T>>, fs: seq<Chunk<T>>, v: seq<seq<T>>)
      reads this, cs, fs, Arrays(cs)
    {
      Linked(cs, fs, v) && Packed(v, itemsPerChunk)
    }

    constructor (n: nat)
      requires IsPowerOfTwo(n) && n <= MAX_CHUNK
      ensures itemsPerChunk == n && Holds([], [], [])
    {
      itemsPerChunk := n;
      frontChunk, backChunk, freeChunks := null, null, null;
      nchunks, nfreeChunks := 0, 0;
      new;
      PowerBound(n);
    }

    function Empty(ghost cs: seq<Chunk<T>>, ghost fs: seq<Chunk<T>>, ghost v: seq<seq<T>>): (b: bool)
      requires Holds(cs, fs, v)
      reads this, cs, fs, Arrays(cs)
      ensures b <==> Flatten(v) == []
    {
      assert v != [] ==> Flatten(v)[0] == v[0][0];
      frontChunk == null
    }

    /** The formula for the length. */
    function OuterSize(): nat
      requires frontChunk != null ==> backChunk != null && (backChunk == frontChunk || nchunks >= 2)
      reads this, frontChunk, backChunk
    {
      if frontChunk == null then
        0
      else if backChunk == frontChunk then
        Wrap32(frontChunk.end - frontChunk.begin)
      else
        Wrap32(frontChunk.end - frontChunk.begin + backChunk.end - backChunk.begin)
          + (nchunks - 2) * itemsPerChunk
    }

    /** The length in constant time, unless the two outer counts sum to 2^32. */
    function Size(ghost cs: seq<Chunk<T>>, ghost fs: seq<Chunk<T>>, ghost v: seq<seq<T>>): (size: nat)
      requires Holds(cs, fs, v)
      reads this, cs, fs, Arrays(cs)
      ensures size == |Flatten(v)| <==> !CountsOverflow(v)
      ensures size <= |Flatten(v)|
    {
      hide Holds, Flatten, CountsOverflow;
      SizeFromOuter(cs, fs, v);
      OuterSize()
    }

    lemma SizeFromOuter(cs: seq<Chunk<T>>, fs: seq<Chunk<T>>, v: seq<seq<T>>)
      requires Holds(cs, fs, v)
      ensures frontChunk != null ==>
        frontChunk in cs && backChunk in cs && (backChunk == frontChunk || nchunks >= 2)
      ensures (OuterSize() == |Flatten(v)| <==> !CountsOverflow(v)) && OuterSize() <= |Flatten(v)|
    {
      hide Holds, Flatten, CountsOverflow, Wrap32;
      OuterChunks(cs, fs, v);
      if |v| >= 2 {
        TwoCounts(frontChunk.begin, frontChunk.end, backChunk.begin, backChunk.end);
      }
    }

    lemma OuterChunks(cs: seq<Chunk<T>>, fs: seq<Chunk<T>>, v: seq<seq<T>>)
      requires Holds(cs, fs, v)
      ensures |cs| == |v| == nchunks && itemsPerChunk > 0
      ensures if v == [] then frontChunk == null && Flatten(v) == [] && !CountsOverflow(v)
        else
          && frontChunk == cs[0] && backChunk == cs[|cs| - 1] && (backChunk == frontChunk <==> |v| == 1)
          && frontChunk.Count() == |v[0]| && backChunk.Count() == |v[|v| - 1]|
      ensures |v| == 1 ==> |Flatten(v)| == |v[0]| && !CountsOverflow(v)
      ensures |v| >= 2 ==> var size := Wrap32(|v[0]| + |v[|v| - 1]|) + (|v| - 2) * itemsPerChunk;
        (size == |Flatten(v)| <==> !CountsOverflow(v)) && 0 <= (|v| - 2) * itemsPerChunk <= size <= |Flatten(v)|
    {
      PackedSize(v, itemsPerChunk);
      hide Flatten, Wrap32, IsPowerOfTwo, CountsOverflow;
      if cs != [] && backChunk == frontChunk {
        SingleChunk(cs, fs, itemsPerChunk);
      }
      assert v != [] ==> cs[0].Elements() == v[0] && cs[|cs| - 1].Elements() == v[|v| - 1];
    }

    method Front(ghost cs: seq<Chunk<T>>, ghost fs: seq<Chunk<T>>, ghost v: seq<seq<T>>) returns (x: T)
      requires Holds(cs, fs, v) && Flatten(v) != []
      ensures x == Flatten(v)[0]
    {
      hide IsPowerOfTwo, Slot;
      PoppedIsPacked(v, itemsPerChunk);
      assert frontChunk == (cs + fs)[0] && v[0] == cs[0].Elements();
      hide Packed, Flatten, Separate, Path;
      x := frontChunk.items[Slot(frontChunk.begin, itemsPerChunk)];
    }

    method Back(ghost cs: seq<Chunk<T>>, ghost fs: seq<Chunk<T>>, ghost v: seq<seq<T>>) returns (x: T)
      requires Holds(cs, fs, v) && Flatten(v) != []
      ensures x == Flatten(v)[|Flatten(v)| - 1]
    {
      hide IsPowerOfTwo, Slot, Wrap32, Path;
      assert v != [];
      hide Flatten;
      ghost var last := |cs| - 1;
      FlattenLast(v);
      assert backChunk == (cs + fs)[last] && v[last] == cs[last].Elements();
      hide Packed, Separate;
      var b, e := backChunk.begin, backChunk.end;
      LastIndex(b, e);
      Wrap32KeepsSlot(b + (Wrap32(e - b) - 1), itemsPerChunk);
      x := backChunk.items[Slot(Wrap32(e - 1), itemsPerChunk)];
    }

    /** Takes a saved chunk, or else a new one. */
    method TakeChunk(ghost cs: seq<Chunk<T>>, ghost fs: seq<Chunk<T>>) returns (c: Chunk<T>)
      requires nfreeChunks == |fs| && freeChunks == Head(fs) && Path(fs)
      requires Separate(cs + fs, itemsPerChunk)
      modifies this`freeChunks, this`nfreeChunks
      ensures nfreeChunks == |Rest(fs)| && freeChunks == Head(Rest(fs)) && Path(Rest(fs))
      ensures Separate(cs + [c] + Rest(fs), itemsPerChunk)
      ensures if fs == [] then fresh(c) && fresh(c.items) else c == fs[0]
    {
      if freeChunks != null {
        c := freeChunks;
        freeChunks := freeChunks.next;
        nfreeChunks := nfreeChunks - 1;
        assert cs + fs == cs + [c] + fs[1..];
      } else {
        c := new Chunk<T>(itemsPerChunk);
        assert cs + fs == cs && cs + [c] + Rest(fs) == cs + [c];
        SeparateAppend(cs, c, itemsPerChunk);
      }
    }

    /** Makes c, which no other chunk of the list is, the empty last chunk. */
    method LinkBack(c: Chunk<T>, ghost cs: seq<Chunk<T>>, ghost fs: seq<Chunk<T>>, ghost v: seq<seq<T>>)
      requires nchunks == |cs| && frontChunk == Head(cs) && backChunk == Tail(cs) && Path(cs) && Filled(cs, v)
      requires Path(fs) && Apart(cs, c, fs)
      modifies this`frontChunk, this`backChunk, this`nchunks, cs, c
      ensures nchunks == |cs + [c]| && frontChunk == Head(cs + [c]) && backChunk == c
      ensures Path(cs + [c]) && Path(fs) && Filled(cs + [c], v + [[]])
      ensures c.begin == c.end == 0 && forall d :: d in cs ==> d.begin == old(d.begin) && d.end == old(d.end)
    {
      hide View, Wrap32;
      var previous := backChunk;
      assert previous != null ==> previous == cs[|cs| - 1] && previous in cs;
      assert forall k :: 0 <= k < |cs| ==> cs[k] in cs;
      backChunk := c;
      backChunk.next := null;
      backChunk.begin := 0;
      backChunk.end := 0;
      if previous != null {
        previous.next := backChunk;
      }
      if frontChunk == null {
        frontChunk := backChunk;
      }
      nchunks := nchunks + 1;
      EmptyChunk(c);
    }

    /** Links an empty chunk behind the last. */
    method BackChunkNew(ghost cs: seq<Chunk<T>>, ghost fs: seq<Chunk<T>>, ghost v: seq<seq<T>>)
      requires Linked(cs, fs, v)
      modifies this, cs, fs
      ensures backChunk != null && Linked(cs + [backChunk], Rest(fs), v + [[]])
      ensures if fs == [] then fresh(backChunk) && fresh(backChunk.items) else backChunk == fs[0]
      ensures SpansOf(cs + [backChunk]) == old(SpansOf(cs)) + [Span(0, 0)]
    {
      hide IsPowerOfTwo, Separate, Path, Apart, View, Wrap32, SpansOf;
      ghost var s := SpansOf(cs);
      var c := TakeChunk(cs, fs);
      SeparateLast(cs, c, Rest(fs), itemsPerChunk);
      assert Filled(cs, v);
      hide Filled;
      LinkBack(c, cs, Rest(fs), v);
      SpansAre(cs + [c], s + [Span(0, 0)]);
    }

    /** Makes sure that the last chunk has room. */
    method EnsureRoomBack(ghost cs: seq<Chunk<T>>, ghost fs: seq<Chunk<T>>, ghost v: seq<seq<T>>)
      returns (ghost cs': seq<Chunk<T>>, ghost fs': seq<Chunk<T>>)
      requires Holds(cs, fs, v)
      modifies this, cs, fs
      ensures Linked(cs', fs', WithRoom(v, itemsPerChunk)) && backChunk != null
      ensures if NeedsChunk(v, itemsPerChunk)
              then cs' == cs + [backChunk] && fs' == Rest(fs)
              else cs' == cs && fs' == fs
      ensures if NeedsChunk(v, itemsPerChunk) && fs == []
              then fresh(backChunk) && fresh(backChunk.items)
              else backChunk in cs + fs
      ensures SpansOf(cs') == old(if NeedsChunk(v, itemsPerChunk) then SpansOf(cs) + [Span(0, 0)] else SpansOf(cs))
    {
      hide IsPowerOfTwo, Separate, Path, View, SpansOf;
      cs', fs' := cs, fs;
      assert backChunk != null ==> cs[|cs| - 1].Elements() == v[|v| - 1];
      if backChunk == null || backChunk.Count() == itemsPerChunk {
        BackChunkNew(cs, fs, v);
        cs', fs' := cs + [backChunk], Rest(fs);
      }
    }

    /** Constructs an element behind the last, where the last chunk has room. */
    method ConstructBack(x: T, ghost cs: seq<Chunk<T>>, ghost fs: seq<Chunk<T>>, ghost v: seq<seq<T>>)
      requires Linked(cs, fs, v) && Roomy(v, itemsPerChunk) && backChunk != null
      modifies backChunk`end, backChunk.items
      ensures Linked(cs, fs, AppendLast(v, x))
      ensures SpansOf(cs) == BumpedEnd(old(SpansOf(cs)))
    {
      hide Roomy, AppendLast, SpansOf;
      ghost var s := SpansOf(cs);
      assert cs != [] && backChunk == cs[|cs| - 1];
      hide Linked;
      StoreBack(x, cs, fs, v);
      SpansAre(cs, BumpedEnd(s));
    }

    method StoreBack(x: T, ghost cs: seq<Chunk<T>>, ghost fs: seq<Chunk<T>>, ghost v: seq<seq<T>>)
      requires Linked(cs, fs, v) && Roomy(v, itemsPerChunk) && backChunk != null
      modifies backChunk`end, backChunk.items
      ensures Linked(cs, fs, AppendLast(v, x))
      ensures backChunk.end == Wrap32(old(backChunk.end) + 1)
      ensures forall k :: 0 <= k < |cs| - 1 ==> cs[k].end == old(cs[k].end)
    {
      hide IsPowerOfTwo, View, Slot, Wrap32;
      ghost var last := |cs| - 1;
      ghost var a, b: int, n: nat := backChunk.items[..], backChunk.begin, backChunk.Count();
      assert backChunk == (cs + fs)[last] && v[last] == cs[last].Elements();
      CountAfter(b, backChunk.end);
      Wrap32KeepsSlot(b + n, itemsPerChunk);
      AppendView(a, b, n, x);
      backChunk.items[Slot(backChunk.end, itemsPerChunk)] := x;
      backChunk.end := Wrap32(backChunk.end + 1);
      assert backChunk.items[..] == a[Slot(b + n, itemsPerChunk) := x];
      assert backChunk.Elements() == v[last] + [x];
      forall k | 0 <= k < last
        ensures cs[k].Count() <= cs[k].items.Length && cs[k].Elements() == v[k] && cs[k] != backChunk
      {
        assert cs[k] == (cs + fs)[k] && (cs + fs)[k] != (cs + fs)[last];
      }
      assert Filled(cs, AppendLast(v, x));
    }

    /** Unlinks the last chunk if it is empty, after the construction of an element has failed. */
    method UndoRoomBack(ghost cs: seq<Chunk<T>>, ghost fs: seq<Chunk<T>>, ghost v: seq<seq<T>>)
      requires Linked(cs, fs, v) && Roomy(v, itemsPerChunk) && backChunk != null
      modifies this, cs
      ensures if v[|v| - 1] == [] then Holds(cs[..|cs| - 1], fs, v[..|v| - 1]) else Holds(cs, fs, v)
      ensures forall c :: c in cs ==> c.begin == old(c.begin) && c.end == old(c.end)
    {
      hide IsPowerOfTwo, View, Slot, Wrap32;
      assert backChunk == cs[|cs| - 1] && backChunk.Elements() == v[|v| - 1];
      EmptyIffEqual(backChunk.begin, backChunk.end);
      SeparateSides(cs, fs, itemsPerChunk);
      if backChunk.begin == backChunk.end {
        nchunks := nchunks - 1;
        if nchunks == 0 {
          backChunk, frontChunk := null, null;
        } else {
          UnlinkLast(cs, fs);
        }
        SeparateWithoutLast(cs, fs, itemsPerChunk);
        assert Filled(cs[..|cs| - 1], v[..|v| - 1]);
      }
    }

    /** Finds the chunk before the last from the front on, and makes it the last. */
    method UnlinkLast(ghost cs: seq<Chunk<T>>, ghost fs: seq<Chunk<T>>)
      requires |cs| > 1 && frontChunk == cs[0] && backChunk == cs[|cs| - 1] && Path(cs)
      requires Separate(cs + fs, itemsPerChunk)
      modifies this`backChunk, ChunkAt(cs, |cs| - 2)`next
      ensures backChunk == cs[|cs| - 2] && Path(cs[..|cs| - 1])
    {
      var last := backChunk;
      backChunk := frontChunk;
      ghost var k := 0;
      while backChunk.next != last
        invariant 0 <= k <= |cs| - 2 && backChunk == cs[k]
        modifies this`backChunk
        decreases |cs| - k
      {
        backChunk := backChunk.next;
        k := k + 1;
      }
      assert (cs + fs)[k + 1] == cs[k + 1] && (cs + fs)[|cs| - 1] == last;
      assert forall j :: 0 <= j < |cs| - 2 ==> (cs + fs)[j] == cs[j] && (cs + fs)[|cs| - 2] == cs[|cs| - 2];
      backChunk.next := null;
    }

    /** Appends x; if its construction throws, the contents are as before. */
    method PushBack(x: T, throws: bool, ghost cs: seq<Chunk<T>>, ghost fs: seq<Chunk<T>>, ghost v: seq<seq<T>>)
      returns (ghost cs': seq<Chunk<T>>, ghost fs': seq<Chunk<T>>)
      requires Holds(cs, fs, v)
      modifies this, cs, fs, Arrays(cs), Arrays(fs)
      ensures Holds(cs', fs', if throws then v else Pushed(v, itemsPerChunk, x))
      ensures fs' == if NeedsChunk(v, itemsPerChunk) then Rest(fs) else fs
      ensures throws ==> cs' == cs
      ensures SpansOf(cs') == old(
        if throws then SpansOf(cs) else PushedSpans(SpansOf(cs), NeedsChunk(v, itemsPerChunk)))
      ensures !NeedsChunk(v, itemsPerChunk) || fs != [] ==> forall c :: c in cs' ==> c in cs + fs
    {
      hide IsPowerOfTwo, Separate, Path, Filled, NeedsChunk, WithRoom, Packed, Roomy, AppendLast, View, Wrap32;
      hide SpansOf, BumpedEnd;
      ghost var s := SpansOf(cs);
      WithRoomIsRoomy(v, itemsPerChunk);
      PushedIsPacked(v, itemsPerChunk, x);
      RoomUndone(v, itemsPerChunk);
      cs', fs' := EnsureRoomBack(cs, fs, v);
      if throws {
        UndoRoomBack(cs', fs', WithRoom(v, itemsPerChunk));
        assert NeedsChunk(v, itemsPerChunk) ==> cs'[..|cs'| - 1] == cs;
        SpansAre(cs, s);
        cs' := cs;
      } else {
        ConstructBack(x, cs', fs', WithRoom(v, itemsPerChunk));
      }
    }

    /** Unlinks the first chunk, which is empty, and saves it unless one is saved already. */
    method FrontChunkDelete(ghost cs: seq<Chunk<T>>, ghost fs: seq<Chunk<T>>, ghost v: seq<seq<T>>)
      returns (ghost fs': seq<Chunk<T>>)
      requires Linked(cs, fs, v) && cs != []
      modifies this, ChunkAt(cs, 0)`next
      ensures Linked(cs[1..], fs', v[1..])
      ensures fs' == if fs == [] then [cs[0]] else fs
      ensures SpansOf(cs[1..]) == old(SpansOf(cs))[1..]
    {
      hide IsPowerOfTwo, View, Slot, Wrap32, SpansOf;
      ghost var s := SpansOf(cs);
      SeparateSides(cs, fs, itemsPerChunk);
      SeparateWithoutFirst(cs, fs, itemsPerChunk);
      FirstApart(cs, fs, itemsPerChunk);
      var next := frontChunk.next;
      fs' := fs;
      if nfreeChunks < 1 {
        frontChunk.next := freeChunks;
        freeChunks := frontChunk;
        nfreeChunks := nfreeChunks + 1;
        fs' := [cs[0]];
      }
      if backChunk == frontChunk {
        backChunk := null;
      }
      frontChunk := next;
      nchunks := nchunks - 1;
      assert Filled(cs[1..], v[1..]);
      SpansAre(cs[1..], s[1..]);
    }

    /** Drops the first element, which may leave the first chunk empty. */
    method DropFront(ghost cs: seq<Chunk<T>>, ghost fs: seq<Chunk<T>>, ghost v: seq<seq<T>>)
      requires Linked(cs, fs, v) && v != [] && v[0] != [] && frontChunk != null
      modifies frontChunk`begin
      ensures Linked(cs, fs, [v[0][1..]] + v[1..])
      ensures frontChunk.begin == frontChunk.end <==> |v[0]| == 1
      ensures SpansOf(cs) == BumpedBegin(old(SpansOf(cs)))
    {
      hide IsPowerOfTwo, View, Slot, Wrap32, SpansOf;
      ghost var s := SpansOf(cs);
      ghost var a, b: int, n: nat := frontChunk.items[..], frontChunk.begin, frontChunk.Count();
      assert frontChunk == (cs + fs)[0] && v[0] == cs[0].Elements();
      FirstApart(cs, fs, itemsPerChunk);
      CountWithout(b, frontChunk.end);
      ViewSlice(a, b, n, 1, n);
      View32Wraps(a, b + 1, n - 1);
      assert View(a, b, n)[1..n] == v[0][1..];
      frontChunk.begin := Wrap32(frontChunk.begin + 1);
      EmptyIffEqual(frontChunk.begin, frontChunk.end);
      assert cs[0].Elements() == v[0][1..];
      assert Filled(cs, [v[0][1..]] + v[1..]);
      SpansAre(cs, BumpedBegin(s));
    }

    /** Removes the first element. */
    method PopFront(ghost cs: seq<Chunk<T>>, ghost fs: seq<Chunk<T>>, ghost v: seq<seq<T>>)
      returns (ghost cs': seq<Chunk<T>>, ghost fs': seq<Chunk<T>>)
      requires Holds(cs, fs, v) && Flatten(v) != []
      modifies this, First(cs)
      ensures v != [] && v[0] != [] && Holds(cs', fs', Popped(v))
      ensures cs' == if |v[0]| == 1 then cs[1..] else cs
      ensures fs' == if |v[0]| == 1 && fs == [] then [cs[0]] else fs
      ensures SpansOf(cs') == PoppedSpans(old(SpansOf(cs)), |v[0]| == 1)
    {
      hide IsPowerOfTwo, Separate, Path, View, Wrap32, SpansOf;
      assert v != [] && v[0] != [] && |cs| == |v|;
      hide Filled;
      PoppedIsPacked(v, itemsPerChunk);
      DropFront(cs, fs, v);
      cs', fs' := cs, fs;
      if frontChunk.begin == frontChunk.end {
        fs' := FrontChunkDelete(cs, fs, [v[0][1..]] + v[1..]);
        cs' := cs[1..];
        assert ([v[0][1..]] + v[1..])[1..] == Popped(v);
      }
    }

    method Clear(ghost cs: seq<Chunk<T>>, ghost fs: seq<Chunk<T>>, ghost v: seq<seq<T>>)
      returns (ghost fs': seq<Chunk<T>>)
      requires Holds(cs, fs, v)
      modifies this, cs
      ensures Holds([], fs', [])
      ensures |fs'| == if cs != [] && fs == [] then 1 else |fs|
    {
      hide Holds, Flatten, Popped, SpansOf, PoppedSpans, Packed;
      ghost var v', k := v, 0;
      fs' := fs;
      while !Empty(cs[k..], fs', v')
        invariant 0 <= k <= |cs| && Holds(cs[k..], fs', v')
        invariant |fs'| == if k > 0 && fs == [] then 1 else |fs|
        decreases |Flatten(v')|
      {
        PopShortens(cs[k..], fs', v');
        ghost var cs';
        cs', fs' := PopFront(cs[k..], fs', v');
        if |v'[0]| == 1 {
          assert cs[k..][1..] == cs[k + 1..];
          k := k + 1;
        }
        v' := Popped(v');
      }
      HoldsNothing(cs[k..], fs', v');
    }

    lemma PopShortens(cs: seq<Chunk<T>>, fs: seq<Chunk<T>>, v: seq<seq<T>>)
      requires Holds(cs, fs, v) && Flatten(v) != []
      ensures cs != [] && v != [] && v[0] != [] && |Flatten(Popped(v))| < |Flatten(v)|
    {
      assert v != [];
      PoppedIsPacked(v, itemsPerChunk);
    }

    lemma HoldsNothing(cs: seq<Chunk<T>>, fs: seq<Chunk<T>>, v: seq<seq<T>>)
      requires Holds(cs, fs, v) && Flatten(v) == []
      ensures cs == [] && v == []
    {
      PackedNothing(v, itemsPerChunk);
    }

    /** Frees the saved chunks. */
    method ShrinkToFit(ghost cs: seq<Chunk<T>>, ghost fs: seq<Chunk<T>>, ghost v: seq<seq<T>>)
      requires Holds(cs, fs, v)
      modifies this`freeChunks, this`nfreeChunks
      ensures Holds(cs, [], v)
    {
      hide IsPowerOfTwo, View, Wrap32, Packed;
      ghost var k := 0;
      while freeChunks != null
        invariant 0 <= k <= |fs| && freeChunks == Head(fs[k..])
        decreases |fs| - k
      {
        var next := freeChunks.next;
        freeChunks := next;
        k := k + 1;
      }
      nfreeChunks := 0;
      SeparateFirstPart(cs, fs, itemsPerChunk);
      assert Filled(cs, v);
    }

    /** Saves one more chunk. */
    method SaveNewChunk(ghost cs: seq<Chunk<T>>, ghost fs: seq<Chunk<T>>, ghost v: seq<seq<T>>)
      returns (ghost fs': seq<Chunk<T>>)
      requires Holds(cs, fs, v)
      modifies this`freeChunks, this`nfreeChunks
      ensures |fs'| == |fs| + 1 && fs'[1..] == fs && fresh(fs'[0]) && Holds(cs, fs', v)
    {
      hide IsPowerOfTwo, View, Wrap32, Packed;
      var c := new Chunk<T>(itemsPerChunk);
      SeparateInserted(cs, c, fs, itemsPerChunk);
      c.next := freeChunks;
      freeChunks := c;
      nfreeChunks := nfreeChunks + 1;
      fs' := [c] + fs;
      assert Filled(cs, v);
    }

    /** Saves chunks until as many are saved as the wrapping arithmetic asks for. */
    method Reserve(n: uint64, ghost cs: seq<Chunk<T>>, ghost fs: seq<Chunk<T>>, ghost v: seq<seq<T>>)
      returns (ghost fs': seq<Chunk<T>>)
      requires Holds(cs, fs, v)
      modifies this`freeChunks, this`nfreeChunks
      ensures Holds(cs, fs', v)
      ensures |fs'| == SavedAfterReserve(v, |fs|, itemsPerChunk, n - old(Size(cs, fs, v)))
      ensures fs'[|fs'| - |fs|..] == fs
    {
      hide IsPowerOfTwo, Separate, Path, View, Wrap32, Wrap64, Flatten;
      fs' := fs;
      var need := Wrap64(n - Size(cs, fs, v));
      assert (backChunk == null <==> v == []) && |v| == |cs|;
      assert backChunk != null ==> backChunk.Count() == |v[|v| - 1]|;
      hide Filled, Packed;
      if backChunk != null {
        need := Wrap64(need - (itemsPerChunk - backChunk.Count()));
      }
      var needed := Wrap64(need + itemsPerChunk - 1) / itemsPerChunk;
      if needed > nfreeChunks {
        fs' := SaveNewChunks(needed - nfreeChunks, cs, fs, v);
      }
    }

    method SaveNewChunks(count: nat, ghost cs: seq<Chunk<T>>, ghost fs: seq<Chunk<T>>, ghost v: seq<seq<T>>)
      returns (ghost fs': seq<Chunk<T>>)
      requires Holds(cs, fs, v)
      modifies this`freeChunks, this`nfreeChunks
      ensures Holds(cs, fs', v) && |fs'| == |fs| + count && fs'[count..] == fs
    {
      hide Holds;
      fs' := fs;
      var needed := count;
      while needed > 0
        invariant 0 <= needed <= count && |fs'| == |fs| + (count - needed)
        invariant Holds(cs, fs', v) && fs'[count - needed..] == fs
        modifies this`freeChunks, this`nfreeChunks
        decreases needed
      {
        ghost var before := fs';
        fs' := SaveNewChunk(cs, fs', v);
        needed := needed - 1;
        assert fs'[count - needed..] == before[count - needed - 1..];
      }
    }
  }

  lemma SingleChunk<T(0)>(cs: seq<Chunk<T>>, fs: seq<Chunk<T>>, n: nat)
    requires cs != [] && Separate(cs + fs, n) && cs[0] == cs[|cs| - 1]
    ensures |cs| == 1
  {
    assert (cs + fs)[0] == (cs + fs)[|cs| - 1];
  }

  lemma TwoCounts(b0: uint32, e0: uint32, b1: uint32, e1: uint32)
    ensures Wrap32(e0 - b0 + e1 - b1) == Wrap32(Wrap32(e0 - b0) + Wrap32(e1 - b1))
  {
  }

  lemma CountAfter(b: uint32, e: uint32)
    requires Wrap32(e - b) + 1 < TWO_32
    ensures e == Wrap32(b + Wrap32(e - b))
    ensures Wrap32(Wrap32(e + 1) - b) == Wrap32(e - b) + 1
  {
  }

  lemma CountWithout(b: uint32, e: uint32)
    requires Wrap32(e - b) > 0
    ensures Wrap32(e - Wrap32(b + 1)) == Wrap32(e - b) - 1
  {
  }

  lemma EmptyIffEqual(b: uint32, e: uint32)
    ensures b == e <==> Wrap32(e - b) == 0
  {
  }

  lemma LastIndex(b: uint32, e: uint32)
    requires Wrap32(e - b) > 0
    ensures Wrap32(e - 1) == Wrap32(b + (Wrap32(e - b) - 1))
  {
  }

  // ----- Iteration -----

  /** A chunk, by its number, and an item index in it; the number of chunks stands for the end. */
  datatype Place = Place(chunk: nat, index: uint64)

  ghost function StartOf(s: seq<Span>, k: nat): Place {
    Place(k, if k < |s| then s[k].begin else 0)
  }

  /** The place that an increment leads to: a 64-bit index is compared with a 32-bit counter. */
  ghost function NextPlace(s: seq<Span>, p: Place): Place
    requires p.chunk < |s|
  {
    var i := Wrap64(p.index + 1);
    if i == s[p.chunk].end then StartOf(s, p.chunk + 1) else Place(p.chunk, i)
  }

  /** The place after m increments from the front, or the end if that comes before. */
  ghost function After(s: seq<Span>, m: nat): Place {
    if m == 0 then
      StartOf(s, 0)
    else
      var p := After(s, m - 1);
      if p.chunk < |s| then NextPlace(s, p) else p
  }

  /** The increments that leave a chunk. */
  ghost function Stay(c: Span): nat {
    Wrap64(c.end - c.begin)
  }

  /** The increments that lead to chunk k. */
  ghost function Reached(s: seq<Span>, k: nat): nat
    requires k <= |s|
  {
    if k == 0 then 0 else Reached(s, k - 1) + Stay(s[k - 1])
  }

  /** The counters s count the elements of the chunks v, and no chunk is empty. */
  ghost predicate Counts<T>(s: seq<Span>, v: seq<seq<T>>) {
    && |s| == |v|
    && (forall k :: 0 <= k < |s| ==> 0 < Wrap32(s[k].end - s[k].begin) == |v[k]|)
  }

  /** Whether the counters of the first k chunks have not wrapped between begin and end. */
  ghost predicate Unwrapped(s: seq<Span>, k: nat)
    requires k <= |s|
  {
    forall j :: 0 <= j < k ==> s[j].begin < s[j].end
  }

  ghost function Offset<T>(v: seq<seq<T>>, k: nat): nat
    requires k <= |v|
  {
    |Flatten(v[..k])|
  }

  lemma OffsetEnds<T>(v: seq<seq<T>>)
    ensures Offset(v, 0) == 0 && Offset(v, |v|) == |Flatten(v)|
  {
    assert v[..|v|] == v;
  }

  lemma OffsetStep<T>(v: seq<seq<T>>, k: nat)
    requires k < |v|
    ensures Offset(v, k + 1) == Offset(v, k) + |v[k]|
  {
    var w := v[..k + 1];
    assert w[..k] == v[..k];
    FlattenLast(w);
  }

  lemma ElementAt<T>(v: seq<seq<T>>, k: nat, o: nat)
    requires k < |v| && o < |v[k]|
    ensures Offset(v, k) + o < |Flatten(v)| && Flatten(v)[Offset(v, k) + o] == v[k][o]
  {
    assert v == v[..k] + v[k..];
    FlattenAppend(v[..k], v[k..]);
    assert Flatten(v[k..]) == v[k] + Flatten(v[k..][1..]);
  }

  /** A chunk is left after as many increments as it has elements, or 2^64 - 2^32 more if it wrapped. */
  lemma StayOfChunk(c: Span)
    ensures Stay(c) == Wrap32(c.end - c.begin) + if c.begin <= c.end then 0 else TWO_64 - TWO_32
    ensures c.begin != c.end ==> Wrap32(c.end - c.begin) > 0
  {
  }

  lemma IndexMeetsEnd(b: uint32, e: uint32, o: nat)
    requires o < Wrap64(e - b)
    ensures Wrap64(Wrap64(b + o) + 1) == Wrap64(b + (o + 1))
    ensures Wrap64(b + (o + 1)) == e <==> o + 1 == Wrap64(e - b)
  {
  }

  lemma Step(s: seq<Span>, m: nat, k: nat, o: nat)
    requires k < |s| && o < Stay(s[k]) && After(s, m) == Place(k, Wrap64(s[k].begin + o))
    ensures After(s, m + 1) == if o + 1 == Stay(s[k]) then StartOf(s, k + 1)
                               else Place(k, Wrap64(s[k].begin + (o + 1)))
  {
    IndexMeetsEnd(s[k].begin, s[k].end, o);
    hide Wrap64;
  }

  lemma {:induction false} VisitsChunk(s: seq<Span>, m: nat, k: nat, o: nat)
    requires k < |s| && o < Stay(s[k]) && After(s, m) == StartOf(s, k)
    ensures After(s, m + o) == Place(k, Wrap64(s[k].begin + o))
    decreases o
  {
    if o == 0 {
      assert Wrap64(s[k].begin) == s[k].begin;
    } else {
      hide After, Wrap64;
      VisitsChunk(s, m, k, o - 1);
      Step(s, m + o - 1, k, o - 1);
    }
  }

  lemma LeavesChunk(s: seq<Span>, m: nat, k: nat)
    requires k < |s| && Stay(s[k]) > 0 && After(s, m) == StartOf(s, k)
    ensures After(s, m + Stay(s[k])) == StartOf(s, k + 1)
  {
    hide After, StartOf, Stay;
    var last := Stay(s[k]) - 1;
    VisitsChunk(s, m, k, last);
    Step(s, m + last, k, last);
  }

  ghost predicate NoneEmpty(s: seq<Span>) {
    forall k :: 0 <= k < |s| ==> Stay(s[k]) > 0
  }

  lemma {:induction false} ReachesChunk(s: seq<Span>, k: nat)
    requires NoneEmpty(s) && k <= |s|
    ensures After(s, Reached(s, k)) == StartOf(s, k)
    decreases k
  {
    AfterNothing(s);
    hide After, StartOf, Stay;
    if k > 0 {
      ReachesChunk(s, k - 1);
      assert Stay(s[k - 1]) > 0;
      hide NoneEmpty;
      LeavesChunk(s, Reached(s, k - 1), k - 1);
    }
  }

  lemma AfterNothing(s: seq<Span>)
    ensures After(s, 0) == StartOf(s, 0)
  {
  }

  lemma {:induction false} BeforeChunk(s: seq<Span>, k: nat, m: nat)
    requires NoneEmpty(s) && k <= |s| && m < Reached(s, k)
    ensures After(s, m).chunk < k
    decreases k
  {
    hide After, StartOf, Stay;
    if m < Reached(s, k - 1) {
      BeforeChunk(s, k - 1, m);
    } else {
      ReachesChunk(s, k - 1);
      VisitsChunk(s, Reached(s, k - 1), k - 1, m - Reached(s, k - 1));
    }
  }

  lemma {:induction false} StaysAtEnd(s: seq<Span>, m: nat)
    requires NoneEmpty(s) && m >= Reached(s, |s|)
    ensures After(s, m) == StartOf(s, |s|)
    decreases m
  {
    if m == Reached(s, |s|) {
      ReachesChunk(s, |s|);
    } else {
      StaysAtEnd(s, m - 1);
    }
  }

  lemma CountsNoneEmpty<T>(s: seq<Span>, v: seq<seq<T>>)
    requires Counts(s, v)
    ensures NoneEmpty(s)
  {
    forall k | 0 <= k < |s|
      ensures Stay(s[k]) > 0
    {
      StayOfChunk(s[k]);
    }
  }

  /** It takes at least as many increments to reach a chunk as there are elements before it. */
  lemma {:induction false} ReachedOrLate<T>(s: seq<Span>, v: seq<seq<T>>, k: nat)
    requires Counts(s, v) && k <= |s|
    ensures Reached(s, k) >= Offset(v, k)
    ensures Reached(s, k) == Offset(v, k) <==> Unwrapped(s, k)
    decreases k
  {
    OffsetEnds(v);
    hide Offset, Stay;
    if k > 0 {
      ReachedOrLate(s, v, k - 1);
      OffsetStep(v, k - 1);
      StayOfChunk(s[k - 1]);
      UnwrappedStep(s, k);
      hide Wrap32, Unwrapped;
    }
  }

  lemma UnwrappedStep(s: seq<Span>, k: nat)
    requires 0 < k <= |s|
    ensures Unwrapped(s, k) <==> Unwrapped(s, k - 1) && s[k - 1].begin < s[k - 1].end
  {
  }

  /**
   Iterating from the front is at the end from a fixed number of increments on, and not before. The
   number is at least the length of the queue, and is the length if and only if no chunk's counters
   have wrapped.
   */
  lemma IterationEnds<T>(s: seq<Span>, v: seq<seq<T>>, m: nat)
    requires Counts(s, v)
    ensures After(s, m).chunk == |s| <==> m >= Reached(s, |s|)
    ensures Reached(s, |s|) >= |Flatten(v)|
    ensures Reached(s, |s|) == |Flatten(v)| <==> Unwrapped(s, |s|)
  {
    CountsNoneEmpty(s, v);
    OffsetEnds(v);
    ReachedOrLate(s, v, |s|);
    hide Offset, Counts, After, Flatten, Reached, NoneEmpty, Unwrapped;
    if m >= Reached(s, |s|) {
      StaysAtEnd(s, m);
    } else {
      BeforeChunk(s, |s|, m);
    }
  }

  /** Without wrapped counters the end is reached just after the last element. */
  lemma EndAfterLast<T>(s: seq<Span>, v: seq<seq<T>>)
    requires Counts(s, v) && Unwrapped(s, |s|)
    ensures After(s, |Flatten(v)|).chunk == |s|
    ensures forall m :: 0 <= m < |Flatten(v)| ==> After(s, m).chunk < |s|
  {
    var length := |Flatten(v)|;
    hide After, Flatten, Counts, Reached, Unwrapped;
    IterationEnds(s, v, length);
    forall m | 0 <= m < length
      ensures After(s, m).chunk < |s|
    {
      IterationEnds(s, v, m);
      ChunkInRange(s, m);
    }
  }

  lemma {:induction false} ChunkInRange(s: seq<Span>, m: nat)
    ensures After(s, m).chunk <= |s|
    decreases m
  {
    if m > 0 {
      ChunkInRange(s, m - 1);
    }
  }

  /** Increments visit the elements in order, up to the first chunk whose counters have wrapped. */
  lemma VisitsInOrder<T>(s: seq<Span>, v: seq<seq<T>>, k: nat, o: nat)
    requires Counts(s, v) && k < |v| == |s| && o < |v[k]| && Unwrapped(s, k)
    ensures s[k].begin + o < TWO_64 && After(s, Offset(v, k) + o) == Place(k, s[k].begin + o)
    ensures Offset(v, k) + o < |Flatten(v)| && Flatten(v)[Offset(v, k) + o] == v[k][o]
  {
    hide Offset, Flatten, After, Stay, Wrap64, Wrap32, Reached, Counts;
    CountsNoneEmpty(s, v);
    ReachedOrLate(s, v, k);
    ReachesChunk(s, k);
    ElementAt(v, k, o);
    LengthBelowStay(s, v, k);
    WrapSum(s[k].begin, o);
    VisitsChunk(s, Offset(v, k), k, o);
  }

  lemma LengthBelowStay<T>(s: seq<Span>, v: seq<seq<T>>, k: nat)
    requires Counts(s, v) && k < |v|
    ensures |s| == |v| && |v[k]| <= Stay(s[k]) && |v[k]| < TWO_32
  {
    StayOfChunk(s[k]);
  }

  lemma WrapSum(b: uint32, o: nat)
    ensures o < TWO_32 ==> Wrap64(b + o) == b + o
  {
  }

  /** The counters of a list's live chunks count its contents. */
  lemma CountsOfList<T(0)>(l: ArrayList<T>, cs: seq<Chunk<T>>, fs: seq<Chunk<T>>, v: seq<seq<T>>)
    requires l.Holds(cs, fs, v)
    ensures Counts(SpansOf(cs), v)
  {
    hide View, Wrap32, Slot, SpansOf;
    var s := SpansOf(cs);
    forall k | 0 <= k < |s|
      ensures 0 < Wrap32(s[k].end - s[k].begin) == |v[k]|
    {
      assert cs[k].Elements() == v[k];
    }
  }

  class Iterator<T(0)> {
    var chunk: Chunk?<T>
    var itemIndex: uint64

    ghost predicate IsAt(cs: seq<Chunk<T>>, p: Place)
      reads this
    {
      && p.chunk <= |cs|
      && chunk == (if p.chunk < |cs| then cs[p.chunk] else null)
      && itemIndex == p.index
    }

    constructor (c: Chunk?<T>, ghost cs: seq<Chunk<T>>)
      requires c == Head(cs)
      ensures IsAt(cs, StartOf(SpansOf(cs), 0))
    {
      chunk := c;
      itemIndex := if c != null then c.begin else 0;
    }

    method Increment(ghost cs: seq<Chunk<T>>, ghost p: Place)
      requires Path(cs) && IsAt(cs, p) && p.chunk < |cs|
      modifies this
      ensures IsAt(cs, NextPlace(SpansOf(cs), p))
    {
      hide SpansOf, Wrap64;
      itemIndex := Wrap64(itemIndex + 1);
      if itemIndex == chunk.end {
        chunk := chunk.next;
        itemIndex := if chunk != null then chunk.begin else 0;
      }
    }

    /** The element that the iterator refers to, element o of chunk k. */
    method Value(itemsPerChunk: nat, ghost cs: seq<Chunk<T>>, ghost v: seq<seq<T>>, ghost k: nat, ghost o: nat)
      returns (x: T)
      requires Filled(cs, v) && k < |v| && o < |v[k]| && cs[k].items.Length == itemsPerChunk
      requires cs[k].begin + o < TWO_64 && IsAt(cs, Place(k, cs[k].begin + o))
      ensures x == v[k][o]
    {
      x := chunk.items[Slot(itemIndex, itemsPerChunk)];
    }
  }

  lemma ListFacts<T(0)>(l: ArrayList<T>, cs: seq<Chunk<T>>, fs: seq<Chunk<T>>, v: seq<seq<T>>)
    requires l.Holds(cs, fs, v)
    ensures l.frontChunk == Head(cs) && Path(cs) && Filled(cs, v)
    ensures forall k :: 0 <= k < |cs| ==> cs[k].items.Length == l.itemsPerChunk && |v[k]| > 0
  {
    hide Path, IsPowerOfTwo, View;
    assert forall k :: 0 <= k < |cs| ==> (cs + fs)[k] == cs[k];
  }

  lemma UnwrappedBefore(s: seq<Span>, k: nat)
    requires Unwrapped(s, |s|) && k <= |s|
    ensures Unwrapped(s, k)
  {
  }

  /** One increment leads from each element to the next, or to the next chunk. */
  lemma AfterOneMore<T>(s: seq<Span>, v: seq<seq<T>>, k: nat, o: nat)
    requires Counts(s, v) && Unwrapped(s, |s|) && k < |v| && o < |v[k]|
    ensures After(s, Offset(v, k) + o).chunk == k
    ensures After(s, Offset(v, k) + o + 1) == NextPlace(s, After(s, Offset(v, k) + o))
    ensures After(s, Offset(v, k) + o + 1).chunk == if o + 1 == |v[k]| then k + 1 else k
  {
    UnwrappedBefore(s, k);
    UnwrappedBefore(s, k + 1);
    hide Offset, Unwrapped, NextPlace;
    VisitsInOrder(s, v, k, o);
    assert After(s, Offset(v, k) + o + 1) == NextPlace(s, After(s, Offset(v, k) + o));
    hide After, Counts, Reached;
    if o + 1 == |v[k]| {
      CountsNoneEmpty(s, v);
      ReachesChunk(s, k + 1);
      ReachedOrLate(s, v, k + 1);
      OffsetStep(v, k);
    } else {
      VisitsInOrder(s, v, k, o + 1);
    }
  }

  /** A list with its chunks, its saved chunks and its counters as in q. */
  ghost predicate Represents<T(0)>(l: ArrayList<T>, cs: seq<Chunk<T>>, fs: seq<Chunk<T>>, q: Queue<T>)
    reads l, cs, fs, Arrays(cs)
  {
    && l.Holds(cs, fs, q.v) && WellFormed(q, l.itemsPerChunk)
    && |fs| == q.saved && SpansOf(cs) == SpansOfTallies(q.tallies)
  }

  /** Every operation takes the list where it takes the model of it. */
  method Perform<T(0)>(l: ArrayList<T>, op: Op<T>, ghost cs: seq<Chunk<T>>, ghost fs: seq<Chunk<T>>, ghost q: Queue<T>)
    returns (ghost cs': seq<Chunk<T>>, ghost fs': seq<Chunk<T>>)
    requires Represents(l, cs, fs, q) && (op.Pop? ==> q.v != [])
    modifies l, cs, fs, Arrays(cs), Arrays(fs)
    ensures Represents(l, cs', fs', Done(q, l.itemsPerChunk, op))
    ensures !Allocates(q, l.itemsPerChunk, op) ==> forall c :: c in cs' ==> c in cs + fs
  {
    hide Packed, Pushed, Popped, NeedsChunk, SpansOf, PushedSpans, PoppedSpans, Flatten;
    DoneIsWellFormed(q, l.itemsPerChunk, op);
    SpansFollowTallies(q, l.itemsPerChunk, op);
    match op
    case Push(x) =>
      cs', fs' := l.PushBack(x, false, cs, fs, q.v);
    case ThrowingPush(x) =>
      cs', fs' := l.PushBack(x, true, cs, fs, q.v);
    case Pop =>
      PoppedIsPacked(q.v, l.itemsPerChunk);
      cs', fs' := l.PopFront(cs, fs, q.v);
  }

  /** The element at a position of the queue, and the position of the next. */
  lemma NextPosition<T>(s: seq<Span>, v: seq<seq<T>>, k: nat, o: nat) returns (k': nat, o': nat)
    requires Counts(s, v) && Unwrapped(s, |s|) && k < |v| && o < |v[k]|
    requires forall j :: 0 <= j < |v| ==> |v[j]| > 0
    ensures k' <= |v| && (if k' < |v| then o' < |v[k']| else o' == 0)
    ensures Offset(v, k') + o' == Offset(v, k) + o + 1
    ensures |s| == |v| && s[k].begin + o < TWO_64 && After(s, Offset(v, k) + o) == Place(k, s[k].begin + o)
    ensures Offset(v, k) + o < |Flatten(v)| && Flatten(v)[Offset(v, k) + o] == v[k][o]
    ensures After(s, Offset(v, k) + o + 1) == NextPlace(s, After(s, Offset(v, k) + o))
    ensures After(s, Offset(v, k) + o + 1).chunk == k'
  {
    assert |s| == |v|;
    hide Offset, Flatten, After, Counts, Unwrapped, NextPlace;
    UnwrappedBefore(s, k);
    VisitsInOrder(s, v, k, o);
    AfterOneMore(s, v, k, o);
    OffsetStep(v, k);
    k', o' := if o + 1 == |v[k]| then k + 1 else k, if o + 1 == |v[k]| then 0 else o + 1;
  }

  /** What a loop from begin() to end() sees: the queue, when no chunk's counters have wrapped. */
  method Collect<T(0)>(l: ArrayList<T>, ghost cs: seq<Chunk<T>>, ghost fs: seq<Chunk<T>>, ghost v: seq<seq<T>>)
    returns (elements: seq<T>)
    requires l.Holds(cs, fs, v) && Unwrapped(SpansOf(cs), |cs|)
    ensures elements == Flatten(v)
  {
    hide SpansOf, View, Wrap32, Wrap64, IsPowerOfTwo, Packed, Flatten, After, Offset, Counts, Unwrapped;
    ghost var s := SpansOf(cs);
    CountsOfList(l, cs, fs, v);
    OffsetEnds(v);
    ListFacts(l, cs, fs, v);
    hide l.Holds, l.Linked;
    elements := [];
    var it := new Iterator<T>(l.frontChunk, cs);
    ghost var k: nat, o: nat := 0, 0;
    AfterNothing(s);
    while it.chunk != null
      invariant k <= |cs| == |v| && (if k < |cs| then o < |v[k]| else o == 0)
      invariant |elements| == Offset(v, k) + o && |elements| <= |Flatten(v)|
      invariant elements == Flatten(v)[..|elements|]
      invariant it.IsAt(cs, After(s, |elements|)) && After(s, |elements|).chunk == k
      modifies it
      decreases |Flatten(v)| - |elements|
    {
      ghost var k', o' := NextPosition(s, v, k, o);
      hide NextPlace, StartOf, Separate;
      var x := it.Value(l.itemsPerChunk, cs, v, k, o);
      it.Increment(cs, After(s, |elements|));
      elements := elements + [x];
      k, o := k', o';
    }
  }
}
