/**
 The sequence lock around the clock's sample as an interleaving of atomic steps: any number of threads
 call the clock, readers take no lock, writers are serialised by one. A schedule lists which thread
 takes each step and what it reads from outside, so a statement about every schedule is a statement
 about every interleaving on a sequentially consistent memory.
 */
module SeqLock {
  import opened Machine
  import opened ClockSample

  type Tid = nat

  datatype Owner = Nobody | Thread(tid: Tid)

  datatype Field = BaseNs | BaseCycles | NsscaledPerCycle | MinCyclesPerSample | RawNs
  datatype Store = Store(field: Field, value: uint64)

  /** The order in which both the fast path and the slow path load the fields. */
  const LOADS := [BaseNs, BaseCycles, NsscaledPerCycle, MinCyclesPerSample, RawNs]

  function Get(sample: Sample, f: Field): uint64 {
    match f
    case BaseNs => sample.baseNs
    case BaseCycles => sample.baseCycles
    case NsscaledPerCycle => sample.nsscaledPerCycle
    case MinCyclesPerSample => sample.minCyclesPerSample
    case RawNs => sample.rawNs
  }

  function Put(sample: Sample, f: Field, v: uint64): Sample {
    match f
    case BaseNs => sample.(baseNs := v)
    case BaseCycles => sample.(baseCycles := v)
    case NsscaledPerCycle => sample.(nsscaledPerCycle := v)
    case MinCyclesPerSample => sample.(minCyclesPerSample := v)
    case RawNs => sample.(rawNs := v)
  }

  function PutAll(sample: Sample, stores: seq<Store>): Sample
    decreases stores
  {
    if stores == [] then sample
    else PutAll(Put(sample, stores[0].field, stores[0].value), stores[1..])
  }

  /** The stores of UpdateLastSample, in program order, with the values computed on the way. */
  function Stores(sample: Sample, r: Reading): seq<Store> {
    if MustRestart(sample, r) then
      [Store(RawNs, r.nowNs), Store(BaseNs, r.nowNs), Store(BaseCycles, r.nowCycles),
       Store(NsscaledPerCycle, 0), Store(MinCyclesPerSample, 0)]
    else if CanCalibrate(sample, r) then
      var estimate := BaseEstimate(sample, r);
      var diffNs := DiffNs(r.nowNs, estimate);
      var slope := CorrectingSlope(sample, r, diffNs);
      if SlopeAccepted(slope, diffNs) then
        [Store(NsscaledPerCycle, slope),
         Store(MinCyclesPerSample, DivideAndScale(MIN_NS_BETWEEN_SAMPLES, slope)),
         Store(RawNs, r.nowNs), Store(BaseNs, estimate), Store(BaseCycles, r.nowCycles)]
      else
        [Store(NsscaledPerCycle, 0), Store(MinCyclesPerSample, 0),
         Store(RawNs, r.nowNs), Store(BaseNs, r.nowNs), Store(BaseCycles, r.nowCycles)]
    else []
  }

  /** Field by field, the stores add up to the calibration step. */
  lemma StoresMakeNextSample(sample: Sample, r: Reading)
    ensures PutAll(sample, Stores(sample, r)) == NextSample(sample, r)
  {
    hide BaseEstimate, DiffNs, CorrectingSlope, SlopeAccepted, DivideAndScale;
    var stores := Stores(sample, r);
    if stores != [] {
      PutAllFive(sample, stores);
    }
  }

  lemma PutAllFive(sample: Sample, s: seq<Store>)
    requires |s| == 5
    ensures PutAll(sample, s) ==
      Put(Put(Put(Put(Put(sample, s[0].field, s[0].value), s[1].field, s[1].value),
                  s[2].field, s[2].value), s[3].field, s[3].value), s[4].field, s[4].value)
  {
    hide Put, PutAll;
    PutAllUnfold(sample, s);
    var p1 := Put(sample, s[0].field, s[0].value);
    PutAllUnfold(p1, s[1..]);
    var p2 := Put(p1, s[1].field, s[1].value);
    PutAllUnfold(p2, s[1..][1..]);
    assert s[1..][1..] == s[2..];
    var p3 := Put(p2, s[2].field, s[2].value);
    PutAllUnfold(p3, s[2..][1..]);
    assert s[2..][1..] == s[3..];
    var p4 := Put(p3, s[3].field, s[3].value);
    PutAllUnfold(p4, s[3..][1..]);
    assert s[3..][1..] == s[4..];
    PutAllUnfold(Put(p4, s[4].field, s[4].value), s[4..][1..]);
  }

  lemma PutAllUnfold(sample: Sample, s: seq<Store>)
    ensures PutAll(sample, s) == if s == [] then sample else PutAll(Put(sample, s[0].field, s[0].value), s[1..])
  {
  }

  // ----- Threads -----

  /**
   Where a thread stands in a call. since is the sequence word when the call began; seq0 what the fast
   path read of it first; loaded counts the fields loaded so far into view. version and updated
   record which completed sample a finished slow path answered from.
   */
  datatype Thread =
    | Idle
    | Started(since: nat, now: uint64)
    | FastPath(since: nat, now: uint64, seq0: nat, loaded: nat, view: Sample)
    | FastReturn(since: nat, now: uint64, seq0: nat, view: Sample, result: uint64)
    | WantLock(since: nat)
    | SlowPath(since: nat, reading: Reading, loaded: nat, view: Sample)
    | Storing(since: nat, reading: Reading, view: Sample, stores: seq<Store>, lockValue: nat, estimate: uint64)
    | Unlocking(since: nat, reading: Reading, version: nat, updated: bool, result: uint64)
    | SlowReturn(since: nat, reading: Reading, version: nat, updated: bool, result: uint64)

  /** Shared memory, the spin lock's owner, all threads, and the history of completed updates. */
  datatype State = State(
    seqWord: nat,
    lastSample: Sample,
    owner: Owner,
    threads: map<Tid, Thread>,
    history: seq<Sample>,
    readings: seq<Reading>)

  const INITIAL := State(0, ZERO_SAMPLE, Nobody, map[], [ZERO_SAMPLE], [])

  function ThreadOf(s: State, t: Tid): Thread {
    if t in s.threads then s.threads[t] else Idle
  }

  function SetThread(s: State, t: Tid, th: Thread): State {
    s.(threads := s.threads[t := th])
  }

  /** One choice of the scheduler: who moves, and what that thread reads from the outside if it does. */
  datatype Choice = Choice(tid: Tid, now: uint64, reading: Reading)

  /** One atomic step of thread c.tid. A thread waiting for the lock does not move while it is taken. */
  function Step(s: State, c: Choice): State {
    var t := c.tid;
    match ThreadOf(s, t)
    case Idle =>
      SetThread(s, t, Started(s.seqWord, c.now))
    case FastReturn(_, _, _, _, _) =>
      SetThread(s, t, Started(s.seqWord, c.now))
    case SlowReturn(_, _, _, _, _) =>
      SetThread(s, t, Started(s.seqWord, c.now))
    case Started(since, now) =>
      SetThread(s, t, FastPath(since, now, s.seqWord, 0, ZERO_SAMPLE))
    case FastPath(since, now, seq0, loaded, view) =>
      if loaded < 4 then
        SetThread(s, t, FastPath(since, now, seq0, loaded + 1, Put(view, LOADS[loaded], Get(s.lastSample, LOADS[loaded]))))
      else if seq0 == s.seqWord && seq0 % 2 == 0 && DeltaCycles(view, now) < view.minCyclesPerSample then
        SetThread(s, t, FastReturn(since, now, seq0, view, Interpolated(view, DeltaCycles(view, now))))
      else
        SetThread(s, t, WantLock(since))
    case WantLock(since) =>
      if s.owner == Nobody then
        SetThread(s, t, SlowPath(since, c.reading, 0, ZERO_SAMPLE)).(owner := Owner.Thread(t))
      else s
    case SlowPath(since, r, loaded, view) =>
      if loaded < 5 then
        SetThread(s, t, SlowPath(since, r, loaded + 1, Put(view, LOADS[loaded], Get(s.lastSample, LOADS[loaded]))))
      else if DeltaCycles(view, r.nowCycles) < view.minCyclesPerSample then
        SetThread(s, t, Unlocking(since, r, |s.readings|, false, Interpolated(view, DeltaCycles(view, r.nowCycles))))
      else
        SetThread(s, t, Storing(since, r, view, Stores(view, r), s.seqWord + 2, Estimate(view, r))).(seqWord := s.seqWord + 1)
    case Storing(since, r, view, stores, lockValue, estimate) =>
      if stores != [] then
        SetThread(s, t, Storing(since, r, view, stores[1..], lockValue, estimate))
          .(lastSample := Put(s.lastSample, stores[0].field, stores[0].value))
      else
        SetThread(s, t, Unlocking(since, r, |s.readings|, true, estimate))
          .(seqWord := lockValue, history := s.history + [s.lastSample], readings := s.readings + [r])
    case Unlocking(since, r, version, updated, result) =>
      SetThread(s, t, SlowReturn(since, r, version, updated, result)).(owner := Nobody)
  }

  function Run(schedule: seq<Choice>): State {
    if schedule == [] then INITIAL
    else Step(Run(schedule[..|schedule| - 1]), schedule[|schedule| - 1])
  }

  // ----- The invariant -----

  /** The first n loaded fields of view are those of sample. */
  predicate Agrees(view: Sample, sample: Sample, n: nat) {
    forall i :: 0 <= i < n && i < 5 ==> Get(view, LOADS[i]) == Get(sample, LOADS[i])
  }

  predicate HoldsLock(th: Thread) {
    th.SlowPath? || th.Storing? || th.Unlocking?
  }

  /** The history is the sequential run of the calibration step over the readings taken. */
  ghost predicate HistoryOk(s: State) {
    && |s.history| == |s.readings| + 1
    && s.history[0] == ZERO_SAMPLE
    && forall k :: 0 <= k < |s.readings| ==> s.history[k + 1] == NextSample(s.history[k], s.readings[k])
  }

  predicate WriterActive(s: State) {
    s.owner.Thread? && ThreadOf(s, s.owner.tid).Storing?
  }

  predicate SeqOk(s: State) {
    && |s.history| == |s.readings| + 1
    && s.seqWord / 2 == |s.readings|
    && (s.seqWord % 2 == 1 <==> WriterActive(s))
    && (s.seqWord % 2 == 0 ==> s.lastSample == s.history[|s.readings|])
  }

  /** What a slow path's answer is, given the history. */
  predicate SlowResultOk(s: State, r: Reading, version: nat, updated: bool, result: uint64) {
    && version < |s.history| == |s.readings| + 1
    && (updated ==>
          version < |s.readings| && s.readings[version] == r && result == Estimate(s.history[version], r))
    && (!updated ==>
          var delta := DeltaCycles(s.history[version], r.nowCycles);
          delta < s.history[version].minCyclesPerSample && result == Interpolated(s.history[version], delta))
  }

  predicate ThreadOk(s: State, th: Thread) {
    match th
    case Idle => true
    case Started(since, _) => since <= s.seqWord
    case WantLock(since) => since <= s.seqWord
    case FastPath(since, _, seq0, loaded, view) =>
      && since <= seq0 <= s.seqWord && loaded <= 4
      && (seq0 == s.seqWord && seq0 % 2 == 0 ==> Agrees(view, s.lastSample, loaded))
    case FastReturn(since, now, seq0, view, result) =>
      && since <= seq0 <= s.seqWord && seq0 % 2 == 0
      && seq0 / 2 < |s.history|
      && Agrees(view, s.history[seq0 / 2], 4)
      && DeltaCycles(view, now) < view.minCyclesPerSample
      && result == Interpolated(view, DeltaCycles(view, now))
    case SlowPath(since, r, loaded, view) =>
      since <= s.seqWord && loaded <= 5 && Agrees(view, s.lastSample, loaded)
    case Storing(since, r, view, stores, lockValue, estimate) =>
      && since <= s.seqWord
      && lockValue == s.seqWord + 1
      && |s.history| == |s.readings| + 1 && view == s.history[|s.readings|]
      && PutAll(s.lastSample, stores) == NextSample(view, r)
      && estimate == Estimate(view, r)
    case Unlocking(since, r, version, updated, result) =>
      since <= s.seqWord && since / 2 <= version && SlowResultOk(s, r, version, updated, result)
    case SlowReturn(since, r, version, updated, result) =>
      since <= s.seqWord && since / 2 <= version && SlowResultOk(s, r, version, updated, result)
  }

  /** Exactly the lock's owner is inside the locked region. */
  ghost predicate LockOk(s: State) {
    forall t: Tid :: HoldsLock(ThreadOf(s, t)) <==> s.owner == Owner.Thread(t)
  }

  ghost predicate ThreadsOk(s: State) {
    forall t: Tid :: ThreadOk(s, ThreadOf(s, t))
  }

  ghost predicate Inv(s: State) {
    HistoryOk(s) && SeqOk(s) && LockOk(s) && ThreadsOk(s)
  }

  // ----- Every step keeps the invariant -----

  lemma SetThreadOf(s: State, t: Tid, th: Thread, u: Tid)
    ensures ThreadOf(SetThread(s, t, th), u) == if u == t then th else ThreadOf(s, u)
  {
  }

  /** A step that changes one thread and nothing it shares. */
  lemma LocalStep(s: State, t: Tid, th: Thread)
    requires Inv(s) && ThreadOk(s, th)
    requires HoldsLock(th) == HoldsLock(ThreadOf(s, t))
    requires !th.Storing? && !ThreadOf(s, t).Storing?
    ensures Inv(SetThread(s, t, th))
  {
    var s' := SetThread(s, t, th);
    hide ThreadOk;
    forall u: Tid
      ensures ThreadOk(s', ThreadOf(s', u))
      ensures HoldsLock(ThreadOf(s', u)) <==> s'.owner == Owner.Thread(u)
    {
      SetThreadOf(s, t, th, u);
      ThreadOkShared(s, s', ThreadOf(s', u));
    }
  }

  /** What holds of a thread depends only on the shared memory and the history. */
  lemma ThreadOkShared(s: State, s': State, th: Thread)
    requires s'.seqWord == s.seqWord && s'.lastSample == s.lastSample
    requires s'.history == s.history && s'.readings == s.readings
    ensures ThreadOk(s', th) == ThreadOk(s, th)
  {
  }

  lemma AgreesExtended(view: Sample, sample: Sample, n: nat)
    requires n < 5 && Agrees(view, sample, n)
    ensures Agrees(Put(view, LOADS[n], Get(sample, LOADS[n])), sample, n + 1)
  {
  }

  lemma AgreesAll(view: Sample, sample: Sample)
    requires Agrees(view, sample, 5)
    ensures view == sample
  {
    assert forall i :: 0 <= i < 5 ==> Get(view, LOADS[i]) == Get(sample, LOADS[i]);
    assert LOADS[0] == BaseNs && LOADS[1] == BaseCycles && LOADS[2] == NsscaledPerCycle
      && LOADS[3] == MinCyclesPerSample && LOADS[4] == RawNs;
  }

  lemma LockStep(s: State, t: Tid, th: Thread)
    requires Inv(s) && ThreadOk(s, th) && s.owner == Nobody
    requires th.SlowPath?
    ensures Inv(SetThread(s, t, th).(owner := Owner.Thread(t)))
  {
    var s' := SetThread(s, t, th).(owner := Owner.Thread(t));
    assert !HoldsLock(ThreadOf(s, t));
    hide ThreadOk;
    forall u: Tid
      ensures ThreadOk(s', ThreadOf(s', u))
      ensures HoldsLock(ThreadOf(s', u)) <==> s'.owner == Owner.Thread(u)
    {
      SetThreadOf(s, t, th, u);
      assert HoldsLock(ThreadOf(s, u)) <==> s.owner == Owner.Thread(u);
      ThreadOkShared(s, s', ThreadOf(s', u));
    }
  }

  lemma UnlockStep(s: State, t: Tid, th: Thread)
    requires Inv(s) && ThreadOk(s, th) && ThreadOf(s, t).Unlocking?
    requires !HoldsLock(th)
    ensures Inv(SetThread(s, t, th).(owner := Nobody))
  {
    var s' := SetThread(s, t, th).(owner := Nobody);
    assert s.owner == Owner.Thread(t);
    hide ThreadOk;
    forall u: Tid
      ensures ThreadOk(s', ThreadOf(s', u))
      ensures HoldsLock(ThreadOf(s', u)) <==> s'.owner == Owner.Thread(u)
    {
      SetThreadOf(s, t, th, u);
      assert HoldsLock(ThreadOf(s, u)) <==> s.owner == Owner.Thread(u);
      ThreadOkShared(s, s', ThreadOf(s', u));
    }
  }

  /** A thread that does not hold the lock is indifferent to what a writer does to shared memory. */
  lemma OutsiderOk(s: State, s': State, th: Thread)
    requires ThreadOk(s, th) && !HoldsLock(th)
    requires SeqOk(s)
    requires s'.seqWord > s.seqWord || (s'.seqWord == s.seqWord && s.seqWord % 2 == 1)
    requires s.history <= s'.history && s.readings <= s'.readings
    requires |s'.history| == |s'.readings| + 1
    ensures ThreadOk(s', th)
  {
  }

  /** Taking the sequence lock, storing a field and releasing it: the only steps readers can notice. */
  lemma WriterStep(s: State, s': State, t: Tid)
    requires Inv(s) && s.owner == Owner.Thread(t) && s'.owner == s.owner
    requires s'.threads == s.threads[t := ThreadOf(s', t)] && HoldsLock(ThreadOf(s', t))
    requires s'.seqWord > s.seqWord || (s'.seqWord == s.seqWord && s.seqWord % 2 == 1)
    requires s.history <= s'.history && s.readings <= s'.readings
    requires HistoryOk(s') && SeqOk(s') && ThreadOk(s', ThreadOf(s', t))
    ensures Inv(s')
  {
    hide ThreadOk, HistoryOk;
    forall u: Tid
      ensures ThreadOk(s', ThreadOf(s', u))
      ensures HoldsLock(ThreadOf(s', u)) <==> s'.owner == Owner.Thread(u)
    {
      if u != t {
        assert ThreadOf(s', u) == ThreadOf(s, u);
        assert HoldsLock(ThreadOf(s, u)) <==> s.owner == Owner.Thread(u);
        assert |s'.history| == |s'.readings| + 1;
        OutsiderOk(s, s', ThreadOf(s, u));
      }
    }
  }

  lemma FastPathStep(s: State, c: Choice)
    requires Inv(s) && ThreadOf(s, c.tid).FastPath?
    ensures Inv(Step(s, c))
  {
    var th := ThreadOf(s, c.tid);
    assert ThreadOk(s, th);
    if th.loaded < 4 {
      if th.seq0 == s.seqWord && th.seq0 % 2 == 0 {
        AgreesExtended(th.view, s.lastSample, th.loaded);
      }
    }
    var th' := ThreadOf(Step(s, c), c.tid);
    assert ThreadOk(s, th');
    hide ThreadOk, Agrees, Interpolated, DeltaCycles;
    LocalStep(s, c.tid, th');
  }

  lemma SlowPathStep(s: State, c: Choice)
    requires Inv(s) && ThreadOf(s, c.tid).SlowPath?
    ensures Inv(Step(s, c))
  {
    var t := c.tid;
    var th := ThreadOf(s, t);
    assert ThreadOk(s, th);
    assert HoldsLock(th) && s.owner == Owner.Thread(t);
    hide Interpolated, DeltaCycles, NextSample, Estimate;
    if th.loaded < 5 {
      AgreesExtended(th.view, s.lastSample, th.loaded);
      hide Agrees;
      LocalStep(s, t, ThreadOf(Step(s, c), t));
    } else {
      AgreesAll(th.view, s.lastSample);
      hide Agrees;
      if DeltaCycles(th.view, th.reading.nowCycles) < th.view.minCyclesPerSample {
        LocalStep(s, t, ThreadOf(Step(s, c), t));
      } else {
        StoresMakeNextSample(th.view, th.reading);
        hide Stores;
        WriterStep(s, Step(s, c), t);
      }
    }
  }

  lemma StoringStep(s: State, c: Choice)
    requires Inv(s) && ThreadOf(s, c.tid).Storing?
    ensures Inv(Step(s, c))
  {
    var t := c.tid;
    var th := ThreadOf(s, t);
    assert ThreadOk(s, th);
    assert HoldsLock(th) && s.owner == Owner.Thread(t);
    hide NextSample, Estimate, Interpolated;
    PutAllUnfold(s.lastSample, th.stores);
    hide PutAll;
    WriterStep(s, Step(s, c), t);
  }

  lemma StepKeepsInv(s: State, c: Choice)
    requires Inv(s)
    ensures Inv(Step(s, c))
  {
    var t := c.tid;
    var th := ThreadOf(s, t);
    assert ThreadOk(s, th);
    match th
    case FastPath(_, _, _, _, _) =>
      FastPathStep(s, c);
    case SlowPath(_, _, _, _) =>
      SlowPathStep(s, c);
    case Storing(_, _, _, _, _, _) =>
      StoringStep(s, c);
    case WantLock(since) =>
      if s.owner == Nobody {
        LockStep(s, t, SlowPath(since, c.reading, 0, ZERO_SAMPLE));
      }
    case Unlocking(since, r, version, updated, result) =>
      UnlockStep(s, t, SlowReturn(since, r, version, updated, result));
    case Started(_, _) =>
      LocalStep(s, t, ThreadOf(Step(s, c), t));
    case _ =>
      LocalStep(s, t, Started(s.seqWord, c.now));
  }

  lemma {:induction false} EveryRunKeepsInv(schedule: seq<Choice>)
    ensures Inv(Run(schedule))
    decreases |schedule|
  {
    if schedule != [] {
      EveryRunKeepsInv(schedule[..|schedule| - 1]);
      StepKeepsInv(Run(schedule[..|schedule| - 1]), schedule[|schedule| - 1]);
    }
  }

  // ----- What holds of every interleaving -----

  /** The calibration step applied to a list of readings in turn. */
  function SequentialRun(readings: seq<Reading>): Sample {
    if readings == [] then ZERO_SAMPLE
    else NextSample(SequentialRun(readings[..|readings| - 1]), readings[|readings| - 1])
  }

  lemma {:induction false} SequentialRunReachable(readings: seq<Reading>)
    ensures Reachable(SequentialRun(readings))
    decreases |readings|
  {
    if readings == [] {
      ZeroSampleReachable();
    } else {
      SequentialRunReachable(readings[..|readings| - 1]);
      hide NextSample, Reachable;
      NextSampleReachable(SequentialRun(readings[..|readings| - 1]), readings[|readings| - 1]);
    }
  }

  lemma {:induction false} HistoryIsSequential(s: State, k: nat)
    requires HistoryOk(s) && k < |s.history|
    ensures s.history[k] == SequentialRun(s.readings[..k])
    decreases k
  {
    hide NextSample;
    if k > 0 {
      HistoryIsSequential(s, k - 1);
      assert s.readings[..k][..k - 1] == s.readings[..k - 1];
    }
  }

  /**
   The sequence word is odd exactly while some thread is between SeqAcquire and SeqRelease; that
   thread is the only one. While it is even, memory is the sequential run of all completed updates.
   */
  lemma OddWhileWriting(schedule: seq<Choice>)
    ensures var s := Run(schedule);
      && (s.seqWord % 2 == 1 <==> exists t: Tid :: ThreadOf(s, t).Storing?)
      && (forall t: Tid, u: Tid :: ThreadOf(s, t).Storing? && ThreadOf(s, u).Storing? ==> t == u)
      && (s.seqWord % 2 == 0 ==> s.lastSample == SequentialRun(s.readings))
  {
    EveryRunKeepsInv(schedule);
    var s := Run(schedule);
    forall t: Tid | ThreadOf(s, t).Storing?
      ensures s.owner == Owner.Thread(t)
    {
      assert HoldsLock(ThreadOf(s, t));
    }
    HistoryIsSequential(s, |s.readings|);
    assert s.readings[..|s.readings|] == s.readings;
  }

  /**
   A reader that saw the same even sequence word twice holds four fields of one completed update, no
   older than the last update completed when its call began; its result is the exact interpolation
   along that sample, with no wrap in the product and an advance of less than one interval.
   */
  lemma FastReadsAreConsistent(schedule: seq<Choice>, t: Tid)
    requires ThreadOf(Run(schedule), t).FastReturn?
    ensures var s := Run(schedule);
      var th := ThreadOf(s, t);
      var k := th.seq0 / 2;
      && th.seq0 == 2 * k && th.since / 2 <= k <= |s.readings|
      && var sample := SequentialRun(s.readings[..k]);
         var delta := DeltaCycles(sample, th.now);
         && th.view.baseNs == sample.baseNs && th.view.baseCycles == sample.baseCycles
         && th.view.nsscaledPerCycle == sample.nsscaledPerCycle
         && th.view.minCyclesPerSample == sample.minCyclesPerSample
         && delta < sample.minCyclesPerSample
         && IsExactInterpolation(sample, delta, th.result)
  {
    EveryRunKeepsInv(schedule);
    var s := Run(schedule);
    var th := ThreadOf(s, t);
    assert ThreadOk(s, th);
    var k := th.seq0 / 2;
    HistoryIsSequential(s, k);
    SequentialRunReachable(s.readings[..k]);
    var sample := s.history[k];
    AgreesFour(th.view, sample);
    SameLine(th.view, sample, th.now);
    hide Run, ThreadOk, Agrees, Reachable, NextSample, SequentialRun, Interpolated, IsExactInterpolation, DeltaCycles;
    FastPathIsExact(sample, DeltaCycles(sample, th.now));
  }

  lemma SameLine(view: Sample, sample: Sample, now: uint64)
    requires view.(rawNs := sample.rawNs) == sample
    ensures DeltaCycles(view, now) == DeltaCycles(sample, now)
    ensures Interpolated(view, DeltaCycles(view, now)) == Interpolated(sample, DeltaCycles(sample, now))
  {
  }

  lemma AgreesFour(view: Sample, sample: Sample)
    requires Agrees(view, sample, 4)
    ensures view.baseNs == sample.baseNs && view.baseCycles == sample.baseCycles
    ensures view.nsscaledPerCycle == sample.nsscaledPerCycle
    ensures view.minCyclesPerSample == sample.minCyclesPerSample
  {
    assert LOADS[0] == BaseNs && LOADS[1] == BaseCycles && LOADS[2] == NsscaledPerCycle
      && LOADS[3] == MinCyclesPerSample;
    assert forall i :: 0 <= i < 4 ==> Get(view, LOADS[i]) == Get(sample, LOADS[i]);
  }

  /** A slow-path call answers from the sample current when it held the lock, or from its own update. */
  lemma SlowReadsAreConsistent(schedule: seq<Choice>, t: Tid)
    requires ThreadOf(Run(schedule), t).SlowReturn?
    ensures var s := Run(schedule);
      var th := ThreadOf(s, t);
      && th.since / 2 <= th.version <= |s.readings|
      && var sample := SequentialRun(s.readings[..th.version]);
         if th.updated then
           && th.version < |s.readings| && s.readings[th.version] == th.reading
           && th.result == Estimate(sample, th.reading)
         else
           && DeltaCycles(sample, th.reading.nowCycles) < sample.minCyclesPerSample
           && IsExactInterpolation(sample, DeltaCycles(sample, th.reading.nowCycles), th.result)
  {
    EveryRunKeepsInv(schedule);
    var s := Run(schedule);
    var th := ThreadOf(s, t);
    assert ThreadOk(s, th);
    HistoryIsSequential(s, th.version);
    SequentialRunReachable(s.readings[..th.version]);
    hide Run, Reachable, NextSample, SequentialRun, Interpolated, IsExactInterpolation, DeltaCycles, Estimate;
    if !th.updated {
      FastPathIsExact(s.history[th.version], DeltaCycles(s.history[th.version], th.reading.nowCycles));
    }
  }

  /**
   What an updating slow call answers: exactly the kernel time it read when it restarts, when it is too
   early to measure, and when it leaves no slope; otherwise the time it stored for readers to start
   from, which is within 100 ms of the kernel's unless the error is the one whose negation wraps.
   */
  lemma SlowUpdatesAnswer(schedule: seq<Choice>, t: Tid)
    requires var th := ThreadOf(Run(schedule), t); th.SlowReturn? && th.updated
    ensures var s := Run(schedule);
      var th := ThreadOf(s, t);
      && th.since / 2 <= th.version < |s.readings| && s.readings[th.version] == th.reading
      && var sample, next := SequentialRun(s.readings[..th.version]), SequentialRun(s.readings[..th.version + 1]);
         var now := th.reading.nowNs;
         if Restarts(sample, th.reading) || !Calibrates(sample, th.reading) || next.nsscaledPerCycle == 0 then
           th.result == now
         else
           && th.result == next.baseNs && next.rawNs == now && next.baseCycles == th.reading.nowCycles
           && (-100_000_000 < DiffNs(now, th.result) < 100_000_000 || DiffNs(now, th.result) == INT64_MIN)
  {
    hide Run, ThreadOf, NextSample, Restarts, Calibrates, Estimate, DiffNs, IsExactInterpolation, DeltaCycles, SequentialRun;
    SlowReadsAreConsistent(schedule, t);
    var s := Run(schedule);
    var th := ThreadOf(s, t);
    SequentialStep(s.readings, th.version);
    UpdateLaw(SequentialRun(s.readings[..th.version]), th.reading);
  }

  lemma SequentialStep(readings: seq<Reading>, k: nat)
    requires k < |readings|
    ensures SequentialRun(readings[..k + 1]) == NextSample(SequentialRun(readings[..k]), readings[k])
  {
    hide NextSample;
    assert readings[..k + 1][..k] == readings[..k];
  }

  // ----- A thread left alone finishes its call -----

  /** n steps of one thread. */
  function Steps(s: State, c: Choice, n: nat): State {
    if n == 0 then s else Step(Steps(s, c, n - 1), c)
  }

  predicate BetweenCalls(th: Thread) {
    th.Idle? || th.FastReturn? || th.SlowReturn?
  }

  /** Nothing but thread t changed. */
  predicate OnlyThread(s: State, s': State, t: Tid) {
    s' == SetThread(s, t, ThreadOf(s', t))
  }

  lemma SetTwice(s: State, t: Tid, th: Thread, th': Thread)
    ensures SetThread(SetThread(s, t, th), t, th') == SetThread(s, t, th')
    ensures ThreadOf(SetThread(s, t, th), t) == th
  {
    assert s.threads[t := th][t := th'] == s.threads[t := th'];
  }

  /** After the call began and read the word, n loads. */
  lemma {:induction false} FastLoads(s: State, c: Choice, n: nat)
    requires BetweenCalls(ThreadOf(s, c.tid)) && n <= 4
    ensures var s' := Steps(s, c, 2 + n);
      var th := ThreadOf(s', c.tid);
      && OnlyThread(s, s', c.tid)
      && th.FastPath? && th.since == th.seq0 == s.seqWord && th.now == c.now && th.loaded == n
      && Agrees(th.view, s.lastSample, n)
    decreases n
  {
    var s' := Steps(s, c, 2 + n);
    if n == 0 {
      FastBegins(s, c);
    } else {
      FastLoads(s, c, n - 1);
      var before := Steps(s, c, 2 + (n - 1));
      var th := ThreadOf(before, c.tid);
      assert s' == Step(before, c) by { hide Step; }
      hide Steps;
      AgreesExtended(th.view, s.lastSample, n - 1);
      SetTwice(s, c.tid, th, ThreadOf(s', c.tid));
      hide Agrees;
    }
  }

  lemma FastBegins(s: State, c: Choice)
    requires BetweenCalls(ThreadOf(s, c.tid))
    ensures Steps(s, c, 2) == SetThread(s, c.tid, FastPath(s.seqWord, c.now, s.seqWord, 0, ZERO_SAMPLE))
  {
    var started: Thread := Started(s.seqWord, c.now);
    UnfoldSteps(s, c, 1);
    UnfoldSteps(s, c, 0);
    hide Steps;
    assert Step(s, c) == SetThread(s, c.tid, started);
    SetTwice(s, c.tid, started, FastPath(s.seqWord, c.now, s.seqWord, 0, ZERO_SAMPLE));
  }

  lemma UnfoldSteps(s: State, c: Choice, n: nat)
    ensures Steps(s, c, 0) == s
    ensures Steps(s, c, n + 1) == Step(Steps(s, c, n), c)
  {
    hide Step;
  }

  /**
   A lock-free read that is not disturbed: in seven steps it has returned on the fast path if no writer
   is active and the sample is recent enough, and wants the lock otherwise. It changes nothing shared.
   */
  lemma LoneReadIsFast(s: State, c: Choice)
    requires BetweenCalls(ThreadOf(s, c.tid))
    ensures var s' := Steps(s, c, 7);
      var th := ThreadOf(s', c.tid);
      var delta := DeltaCycles(s.lastSample, c.now);
      && OnlyThread(s, s', c.tid)
      && if s.seqWord % 2 == 0 && delta < s.lastSample.minCyclesPerSample then
           && th.FastReturn? && th.since == th.seq0 == s.seqWord && th.now == c.now
           && th.result == Interpolated(s.lastSample, delta)
         else
           th == WantLock(s.seqWord)
  {
    FastLoads(s, c, 4);
    UnfoldSteps(s, c, 6);
    hide Steps;
    var before := Steps(s, c, 6);
    var th := ThreadOf(before, c.tid);
    AgreesFour(th.view, s.lastSample);
    SameLine(th.view, s.lastSample, c.now);
    hide Agrees, Interpolated, DeltaCycles;
    SetTwice(s, c.tid, th, ThreadOf(Step(before, c), c.tid));
  }

  /** The lock taken, and n fields loaded under it. */
  lemma {:induction false} SlowLoads(s: State, c: Choice, n: nat) returns (view: Sample)
    requires ThreadOf(s, c.tid).WantLock? && s.owner == Nobody && n <= 5
    ensures var t := c.tid;
      Steps(s, c, 1 + n)
      == SetThread(s, t, SlowPath(ThreadOf(s, t).since, c.reading, n, view)).(owner := Owner.Thread(t))
    ensures Agrees(view, s.lastSample, n)
    decreases n
  {
    var t, since := c.tid, ThreadOf(s, c.tid).since;
    if n == 0 {
      view := ZERO_SAMPLE;
      UnfoldSteps(s, c, 0);
      hide Steps;
    } else {
      var loaded := SlowLoads(s, c, n - 1);
      view := Put(loaded, LOADS[n - 1], Get(s.lastSample, LOADS[n - 1]));
      AgreesExtended(loaded, s.lastSample, n - 1);
      UnfoldSteps(s, c, n);
      hide Steps, Agrees, Put, Get;
      SetTwice(s, t, SlowPath(since, c.reading, n - 1, loaded), SlowPath(since, c.reading, n, view));
    }
  }

  /** n stores made with the sequence word odd. */
  lemma {:induction false} StoresMade(s: State, c: Choice, n: nat)
    requires ThreadOf(s, c.tid).Storing? && n <= |ThreadOf(s, c.tid).stores|
    ensures var t := c.tid; var th := ThreadOf(s, t);
      Steps(s, c, n) == SetThread(s, t, th.(stores := th.stores[n..])).(lastSample := PutAll(s.lastSample, th.stores[..n]))
    decreases n
  {
    var t := c.tid;
    var th := ThreadOf(s, t);
    if n == 0 {
      UnfoldSteps(s, c, 0);
      hide Steps, Step;
      assert th.stores[0..] == th.stores && s.threads[t := th] == s.threads;
      PutAllUnfold(s.lastSample, th.stores[..0]);
    } else {
      StoresMade(s, c, n - 1);
      UnfoldSteps(s, c, n - 1);
      hide Steps, PutAll, Put;
      var before := Steps(s, c, n - 1);
      var done := th.stores[..n - 1];
      PutAllSnoc(s.lastSample, done, th.stores[n - 1]);
      assert th.stores[..n] == done + [th.stores[n - 1]];
      assert th.stores[n - 1..][0] == th.stores[n - 1] && th.stores[n - 1..][1..] == th.stores[n..];
      SetTwice(s, t, th.(stores := th.stores[n - 1..]), th.(stores := th.stores[n..]));
    }
  }

  lemma {:induction false} PutAllSnoc(sample: Sample, s: seq<Store>, x: Store)
    ensures PutAll(sample, s + [x]) == Put(PutAll(sample, s), x.field, x.value)
    decreases s
  {
    hide Put;
    if s == [] {
      assert s + [x] == [x] && [x][1..] == [];
      PutAllUnfold(Put(sample, x.field, x.value), []);
    } else {
      assert (s + [x])[1..] == s[1..] + [x] && (s + [x])[0] == s[0];
      PutAllSnoc(Put(sample, s[0].field, s[0].value), s[1..], x);
    }
  }

  lemma {:induction false} StepsAdd(s: State, c: Choice, m: nat, n: nat)
    ensures Steps(s, c, m + n) == Steps(Steps(s, c, m), c, n)
    decreases n
  {
    hide Step;
    if n > 0 {
      StepsAdd(s, c, m, n - 1);
    }
  }

  /**
   A slow call that finds the lock free and is left alone finishes: it gives the lock back, and has
   changed nothing but its own state when the sample was recent enough, or else exactly the sample,
   the history and the word, by one update.
   */
  lemma LoneSlowCallFinishes(s: State, c: Choice) returns (n: nat)
    requires Inv(s) && ThreadOf(s, c.tid).WantLock? && s.owner == Nobody
    ensures n <= 14
    ensures var since, r, sample, k := ThreadOf(s, c.tid).since, c.reading, s.lastSample, |s.readings|;
      var delta, next := DeltaCycles(sample, r.nowCycles), NextSample(sample, r);
      Steps(s, c, n) ==
        if delta < sample.minCyclesPerSample then
          SetThread(s, c.tid, SlowReturn(since, r, k, false, Interpolated(sample, delta)))
        else
          SetThread(s, c.tid, SlowReturn(since, r, k, true, Estimate(sample, r)))
            .(seqWord := s.seqWord + 2, lastSample := next, history := s.history + [next], readings := s.readings + [r])
  {
    var t, since, r := c.tid, ThreadOf(s, c.tid).since, c.reading;
    var view := SlowLoads(s, c, 5);
    AgreesAll(view, s.lastSample);
    hide Steps, Agrees, NextSample, Estimate, Interpolated, DeltaCycles, Stores, Inv;
    UnfoldSteps(s, c, 6);
    var locked := Steps(s, c, 6);
    var decided := Step(locked, c);
    SetTwice(s, t, ThreadOf(locked, t), ThreadOf(decided, t));
    if DeltaCycles(view, r.nowCycles) < view.minCyclesPerSample {
      UnfoldSteps(s, c, 7);
      SetTwice(s, t, ThreadOf(decided, t), ThreadOf(Step(decided, c), t));
      n := 8;
    } else {
      n := LoneUpdate(s, c, view);
    }
  }

  /** With the stores made, the word is released and then the lock. */
  lemma UpdateEnds(s: State, c: Choice)
    requires ThreadOf(s, c.tid).Storing? && ThreadOf(s, c.tid).stores == []
    ensures var th := ThreadOf(s, c.tid);
      Step(Step(s, c), c) ==
        SetThread(s, c.tid, SlowReturn(th.since, th.reading, |s.readings|, true, th.estimate))
          .(owner := Nobody, seqWord := th.lockValue, history := s.history + [s.lastSample], readings := s.readings + [th.reading])
  {
    var th := ThreadOf(s, c.tid);
    var unlocking: Thread := Unlocking(th.since, th.reading, |s.readings|, true, th.estimate);
    SetTwice(s, c.tid, unlocking, SlowReturn(th.since, th.reading, |s.readings|, true, th.estimate));
  }

  /** The word taken and all stores made. */
  lemma UpdateStores(s: State, c: Choice, view: Sample)
    requires ThreadOf(s, c.tid).WantLock? && s.owner == Nobody
    requires view == s.lastSample && DeltaCycles(view, c.reading.nowCycles) >= view.minCyclesPerSample
    requires Steps(s, c, 6)
      == SetThread(s, c.tid, SlowPath(ThreadOf(s, c.tid).since, c.reading, 5, view)).(owner := Owner.Thread(c.tid))
    ensures var r := c.reading;
      Steps(s, c, 7 + |Stores(view, r)|) ==
        SetThread(s, c.tid, Storing(ThreadOf(s, c.tid).since, r, view, [], s.seqWord + 2, Estimate(view, r)))
          .(owner := Owner.Thread(c.tid), seqWord := s.seqWord + 1, lastSample := NextSample(view, r))
  {
    var t, since, r := c.tid, ThreadOf(s, c.tid).since, c.reading;
    var stores := Stores(view, r);
    StoresMakeNextSample(view, r);
    UnfoldSteps(s, c, 6);
    hide Stores, NextSample, Estimate, DeltaCycles, PutAll, Steps;
    var storing: Thread := Storing(since, r, view, stores, s.seqWord + 2, Estimate(view, r));
    SetTwice(s, t, SlowPath(since, r, 5, view), storing);
    var locked := SetThread(s, t, storing).(owner := Owner.Thread(t), seqWord := s.seqWord + 1);
    assert Steps(s, c, 7) == locked;
    hide Step;
    StoresMade(locked, c, |stores|);
    StepsAdd(s, c, 7, |stores|);
    assert stores[..|stores|] == stores && stores[|stores|..] == [];
    SetTwice(s, t, storing, storing.(stores := []));
  }

  lemma LoneUpdate(s: State, c: Choice, view: Sample) returns (n: nat)
    requires ThreadOf(s, c.tid).WantLock? && s.owner == Nobody
    requires view == s.lastSample && DeltaCycles(view, c.reading.nowCycles) >= view.minCyclesPerSample
    requires Steps(s, c, 6)
      == SetThread(s, c.tid, SlowPath(ThreadOf(s, c.tid).since, c.reading, 5, view)).(owner := Owner.Thread(c.tid))
    ensures n <= 14
    ensures var since, r, k := ThreadOf(s, c.tid).since, c.reading, |s.readings|;
      var next := NextSample(view, r);
      Steps(s, c, n) ==
        SetThread(s, c.tid, SlowReturn(since, r, k, true, Estimate(view, r)))
          .(seqWord := s.seqWord + 2, lastSample := next, history := s.history + [next], readings := s.readings + [r])
  {
    var t, since, r := c.tid, ThreadOf(s, c.tid).since, c.reading;
    assert |Stores(view, r)| <= 5;
    hide Stores, NextSample, Estimate, DeltaCycles, Steps, Step;
    var made := 7 + |Stores(view, r)|;
    UpdateStores(s, c, view);
    var storing: Thread := Storing(since, r, view, [], s.seqWord + 2, Estimate(view, r));
    var stored := Steps(s, c, made);
    SetTwice(s, t, storing, SlowReturn(since, r, |s.readings|, true, Estimate(view, r)));
    assert ThreadOf(stored, t) == storing;
    UpdateEnds(stored, c);
    UnfoldSteps(s, c, made);
    UnfoldSteps(s, c, made + 1);
    n := made + 2;
    assert made + 1 + 1 == n;
  }

  // ----- The time base is piecewise linear without gaps -----

  /** No reading so far was one for which the calibration guards tell nothing. */
  ghost predicate GuardsHold(readings: seq<Reading>) {
    forall j :: 0 <= j < |readings| ==> !GuardsFail(SequentialRun(readings[..j]), readings[j])
  }

  lemma {:induction false} SequentialRunTrusted(readings: seq<Reading>)
    requires GuardsHold(readings)
    ensures Trusted(SequentialRun(readings))
    decreases |readings|
  {
    hide NextSample, GuardsFail;
    if readings != [] {
      var k := |readings| - 1;
      var before := readings[..k];
      assert forall j :: 0 <= j < k ==> before[..j] == readings[..j];
      SequentialRunTrusted(before);
      hide Trusted;
      AcceptedSegmentsMeet(SequentialRun(before), readings[k]);
    } else {
      assert ZERO_SAMPLE.rawNs == ZERO_SAMPLE.baseNs;
    }
  }

  /**
   In every run, each completed update that replaces a slope by another starts the new line on the
   old one, as any reader would have computed it there, with a product that fits 64 bits.
   */
  lemma SegmentsAlwaysMeet(schedule: seq<Choice>, k: nat)
    requires var readings := Run(schedule).readings; k < |readings| && GuardsHold(readings[..k + 1])
    ensures var readings := Run(schedule).readings;
      var sample, next := SequentialRun(readings[..k]), SequentialRun(readings[..k + 1]);
      var delta := DeltaCycles(sample, readings[k].nowCycles);
      ReplacesSlope(sample, readings[k]) ==>
        && delta * sample.nsscaledPerCycle < TWO_64
        && next.baseNs == Interpolated(sample, delta)
        && Interpolated(next, DeltaCycles(next, readings[k].nowCycles)) == Interpolated(sample, delta)
  {
    var readings := Run(schedule).readings;
    hide Run, NextSample, GuardsFail, ReplacesSlope, Trusted, Interpolated, DeltaCycles;
    var upTo, before := readings[..k + 1], readings[..k];
    assert forall j :: 0 <= j < k + 1 ==> upTo[..j] == readings[..j];
    assert forall j :: 0 <= j < k ==> before[..j] == upTo[..j] && before[j] == upTo[j];
    assert upTo[..k] == before && upTo[k] == readings[k];
    SequentialRunTrusted(before);
    AcceptedSegmentsMeet(SequentialRun(before), readings[k]);
  }

  // ----- Histories -----

  /** Completed updates are never rewritten. */
  lemma {:induction false} HistoryOnlyGrows(schedule: seq<Choice>, more: seq<Choice>)
    ensures Run(schedule).readings <= Run(schedule + more).readings
    ensures Run(schedule).seqWord <= Run(schedule + more).seqWord
    decreases |more|
  {
    if more == [] {
      assert schedule + more == schedule;
    } else {
      var n := |more| - 1;
      var longer := schedule + more[..n];
      HistoryOnlyGrows(schedule, more[..n]);
      assert (schedule + more)[..|schedule + more| - 1] == longer;
      EveryRunKeepsInv(longer);
      assert ThreadOk(Run(longer), ThreadOf(Run(longer), more[n].tid));
      StepGrows(Run(longer), more[n]);
    }
  }

  lemma StepGrows(s: State, c: Choice)
    requires ThreadOk(s, ThreadOf(s, c.tid))
    ensures s.readings <= Step(s, c).readings
    ensures s.seqWord <= Step(s, c).seqWord
  {
    hide NextSample, Estimate, Interpolated, Agrees, Stores;
  }
}
