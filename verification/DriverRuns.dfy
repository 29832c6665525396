/**
 What holds of a driver in every state and over every sequence of calls.
 */
module DriverRuns {
  import opened Results
  import opened Words
  import opened Command
  import opened BufferStore
  import opened Submission
  import opened Lifecycle
  import opened DriverSpec
  import opened DriverLaws
  import QueueSpec

  // ----- Single calls -----

  /** A successful allocation names a buffer that did not exist before, of the requested size, all zero and empty. */
  lemma AllocationIsNew(d: Driver, size: usize)
    requires d.Valid() && Step(d, AllocateCall(size)).1.Allocated?
    ensures var (d', answer) := Step(d, AllocateCall(size));
            && answer.id !in d.store.buffers
            && d'.store.buffers.Keys == d.store.buffers.Keys + {answer.id}
            && |d'.store.buffers[answer.id].storage| == size && d'.store.buffers[answer.id].used == 0
            && (forall b <- d'.store.buffers[answer.id].storage :: b == 0)
            && (forall id <- d.store.buffers :: d'.store.buffers[id] == d.store.buffers[id])
  {
  }

  lemma StepKeepsValid(d: Driver, call: Call)
    requires d.Valid()
    ensures Step(d, call).0.Valid() && Step(d, call).0.capacity == d.capacity
  {
  }

  lemma {:induction false} AfterIsValid(d: Driver, calls: seq<Call>, k: nat)
    requires d.Valid() && k <= |calls|
    ensures After(d, calls, k).Valid() && After(d, calls, k).capacity == d.capacity
  {
    if k > 0 {
      AfterIsValid(d, calls, k - 1);
      StepKeepsValid(After(d, calls, k - 1), calls[k - 1]);
    }
  }

  /** Every run obeys the law of each of its calls, in the words of any queue. */
  lemma RunsAreLawful<QE>(
    d: Driver, calls: seq<Call>, answers: seq<Answer<QE>>,
    word: QueueSpec.Rejection -> QE, duplicate: u64 -> QE, full: usize -> QE)
    requires d.Valid() && |answers| == |calls| && AnswersAsSpecified(word, d, calls, answers)
    requires forall id: u64 :: word(QueueSpec.Duplicate(CommandId(id))) == duplicate(id)
    requires forall capacity: usize :: word(QueueSpec.Full(capacity)) == full(capacity)
    ensures LawfulRun(d, calls, answers, After(d, calls, |calls|), duplicate, full)
  {
    var states := seq(|calls| + 1, k requires 0 <= k <= |calls| => After(d, calls, k));
    forall k | 0 <= k < |calls|
      ensures CallLaw(states[k], calls[k], states[k + 1], answers[k], duplicate, full)
    {
      AfterIsValid(d, calls, k);
      CallObeysLaw(After(d, calls, k), calls[k], word, duplicate, full);
    }
    assert LawfulStates(states, calls, answers, duplicate, full);
  }

  // ----- Lifecycle -----

  /** Call `k` loads firmware successfully. */
  predicate Loads(d: Driver, calls: seq<Call>, k: nat)
    requires k < |calls|
  {
    calls[k].LoadFirmwareCall? && AnswerAt(d, calls, k) == Done
  }

  /** Call `k` starts the device successfully. */
  predicate Starts(d: Driver, calls: seq<Call>, k: nat)
    requires k < |calls|
  {
    calls[k].StartCall? && AnswerAt(d, calls, k) == Done
  }

  /** Call `n` is the only load before `k`, and `info` is the version its image carried. */
  ghost predicate OnlyLoad(d: Driver, calls: seq<Call>, n: nat, k: nat, info: FirmwareInfo)
    requires k <= |calls|
  {
    && n < k && Loads(d, calls, n)
    && (forall m | 0 <= m < k && m != n :: !Loads(d, calls, m))
    && Acceptable(calls[n].image)
    && info == FirmwareInfo(calls[n].image[4], calls[n].image[5])
  }

  /** Call `n` is the only start before `k`. */
  ghost predicate OnlyStart(d: Driver, calls: seq<Call>, n: nat, k: nat)
    requires k <= |calls|
  {
    n < k && Starts(d, calls, n) && forall m | 0 <= m < k && m != n :: !Starts(d, calls, m)
  }

  ghost predicate NeverLoaded(d: Driver, calls: seq<Call>, k: nat)
    requires k <= |calls|
  {
    forall m | 0 <= m < k :: !Loads(d, calls, m)
  }

  ghost predicate NeverStarted(d: Driver, calls: seq<Call>, k: nat)
    requires k <= |calls|
  {
    forall m | 0 <= m < k :: !Starts(d, calls, m)
  }

  /** The state a driver is in tells what was loaded and started to get there. */
  ghost predicate Explained(d: Driver, calls: seq<Call>, k: nat)
    requires k <= |calls|
  {
    match After(d, calls, k).lifecycle
    case Offline => NeverLoaded(d, calls, k) && NeverStarted(d, calls, k)
    case FirmwareLoaded(info) => (exists n :: OnlyLoad(d, calls, n, k, info)) && NeverStarted(d, calls, k)
    case Ready(info) => exists n, s :: OnlyLoad(d, calls, n, k, info) && OnlyStart(d, calls, s, k) && n < s
    case Faulted => false
  }

  /**
   In every run the lifecycle is explained by exactly one accepted image, followed by
   exactly one start; the version it carries is that image's, and no run reaches Faulted.
   */
  lemma LifecycleIsExplained(q: QueueSpec.Pending, capacity: usize, calls: seq<Call>, k: nat)
    requires k <= |calls|
    ensures Explained(Initial(q, capacity), calls, k)
  {
    for n := 0 to k
      invariant Explained(Initial(q, capacity), calls, n)
    {
      ExplanationExtends(Initial(q, capacity), calls, n);
    }
  }

  lemma ExplanationExtends(d: Driver, calls: seq<Call>, k: nat)
    requires k < |calls| && Explained(d, calls, k)
    ensures Explained(d, calls, k + 1)
  {
    var n := k + 1;
    LifecycleStep(d, calls, k);
    match After(d, calls, k).lifecycle {
      case Offline =>
        if Loads(d, calls, k) {
          assert OnlyLoad(d, calls, k, n, After(d, calls, n).lifecycle.info);
        }
      case FirmwareLoaded(info) =>
        var l :| OnlyLoad(d, calls, l, k, info);
        assert OnlyLoad(d, calls, l, n, info);
        if Starts(d, calls, k) {
          assert OnlyStart(d, calls, k, n);
        }
      case Ready(info) =>
        var l, s :| OnlyLoad(d, calls, l, k, info) && OnlyStart(d, calls, s, k) && l < s;
        assert OnlyLoad(d, calls, l, n, info) && OnlyStart(d, calls, s, n);
    }
  }

  /** What one call does to the lifecycle. */
  lemma LifecycleStep(d: Driver, calls: seq<Call>, k: nat)
    requires k < |calls|
    ensures Loads(d, calls, k) ==>
              && After(d, calls, k).lifecycle == Offline && Acceptable(calls[k].image)
              && After(d, calls, k + 1).lifecycle ==
                 FirmwareLoaded(FirmwareInfo(calls[k].image[4], calls[k].image[5]))
    ensures Starts(d, calls, k) ==>
              && After(d, calls, k).lifecycle.FirmwareLoaded?
              && After(d, calls, k + 1).lifecycle == Ready(After(d, calls, k).lifecycle.info)
    ensures !Loads(d, calls, k) && !Starts(d, calls, k) ==>
              After(d, calls, k + 1).lifecycle == After(d, calls, k).lifecycle
  {
  }

  /** How far a device has come. */
  function Stage(lifecycle: DeviceState): nat {
    match lifecycle
    case Offline => 0
    case FirmwareLoaded(_) => 1
    case Ready(_) => 2
    case Faulted => 3
  }

  /** The lifecycle never goes back, and never changes again once the device is ready. */
  lemma {:induction false} LifecycleOnlyAdvances(d: Driver, calls: seq<Call>, j: nat, k: nat)
    requires j <= k <= |calls|
    ensures Stage(After(d, calls, j).lifecycle) <= Stage(After(d, calls, k).lifecycle)
    ensures After(d, calls, j).lifecycle.Ready? ==> After(d, calls, k).lifecycle == After(d, calls, j).lifecycle
    decreases k - j
  {
    if j < k {
      LifecycleOnlyAdvances(d, calls, j, k - 1);
    }
  }

  // ----- Submissions -----

  /** A call appends the submission it accepts, removes the one it hands out, or keeps the queue. */
  lemma OneCallMovesAtMostOne(d: Driver, call: Call)
    requires d.Valid()
    ensures var (d', answer) := Step(d, call);
            if call.SubmitCall? && answer == Done then d'.pending == d.pending + [Requested(call.id, call.raw)]
            else if call == NextCall && answer.submission.Some? then d.pending == [answer.submission.value] + d'.pending
            else d'.pending == d.pending
  {
  }

  /** The submissions accepted by the first `k` calls, exactly as they were requested. */
  function Accepted(d: Driver, calls: seq<Call>, k: nat): QueueSpec.Pending
    requires k <= |calls|
  {
    if k == 0 then []
    else if calls[k - 1].SubmitCall? && AnswerAt(d, calls, k - 1) == Done then
      Accepted(d, calls, k - 1) + [Requested(calls[k - 1].id, calls[k - 1].raw)]
    else Accepted(d, calls, k - 1)
  }

  /** The submissions handed out by the first `k` calls. */
  function HandedOut(d: Driver, calls: seq<Call>, k: nat): QueueSpec.Pending
    requires k <= |calls|
  {
    if k == 0 then []
    else if calls[k - 1] == NextCall && AnswerAt(d, calls, k - 1).submission.Some? then
      HandedOut(d, calls, k - 1) + [AnswerAt(d, calls, k - 1).submission.value]
    else HandedOut(d, calls, k - 1)
  }

  /** Everything requested and accepted is handed out or still pending, unchanged and in order. */
  lemma {:induction false} SubmissionsAreConserved(d: Driver, calls: seq<Call>, k: nat)
    requires d.Valid() && k <= |calls|
    ensures d.pending + Accepted(d, calls, k) == HandedOut(d, calls, k) + After(d, calls, k).pending
  {
    if k > 0 {
      SubmissionsAreConserved(d, calls, k - 1);
      AfterIsValid(d, calls, k - 1);
      var before, now := After(d, calls, k - 1), After(d, calls, k);
      OneCallMovesAtMostOne(before, calls[k - 1]);
      var accepted, out := Accepted(d, calls, k - 1), HandedOut(d, calls, k - 1);
      if calls[k - 1].SubmitCall? && AnswerAt(d, calls, k - 1) == Done {
        QueueSpec.AppendBoth(d.pending, accepted, out, before.pending, Requested(calls[k - 1].id, calls[k - 1].raw));
      } else if now.pending != before.pending {
        QueueSpec.MoveAcross(out, before.pending);
      }
    }
  }

  /** A submission the device can execute: well formed, and within a live buffer's bytes. */
  predicate Backed(s: Store, x: ValidatedSubmission) {
    && WellFormed(x.command)
    && x.bufferId in s.buffers
    && x.command.range.End() <= |s.buffers[x.bufferId].storage|
  }

  /** Driver calls never drop a buffer or change its size, so backing is never lost. */
  lemma BackingIsKept(d: Driver, call: Call, x: ValidatedSubmission)
    requires d.Valid() && Backed(d.store, x)
    ensures Backed(Step(d, call).0.store, x)
  {
  }

  lemma AcceptedIsBacked(d: Driver, id: BufferId, raw: RawCommand)
    requires d.Valid() && Submit(d, id, raw).1.Ok?
    ensures Backed(d.store, Requested(id, raw))
  {
  }

  /**
   Whatever the queue held at first, every submission accepted by any run is backed from
   then on, even if later writes shrink the initialized prefix below its range.
   */
  lemma {:induction false} AcceptedStayBacked(d: Driver, calls: seq<Call>, k: nat)
    requires d.Valid() && k <= |calls|
    ensures forall x <- Accepted(d, calls, k) :: Backed(After(d, calls, k).store, x)
  {
    if k > 0 {
      var before := After(d, calls, k - 1);
      AcceptedStayBacked(d, calls, k - 1);
      AfterIsValid(d, calls, k - 1);
      forall x | x in Accepted(d, calls, k)
        ensures Backed(After(d, calls, k).store, x)
      {
        if x !in Accepted(d, calls, k - 1) {
          AcceptedIsBacked(before, calls[k - 1].id, calls[k - 1].raw);
        }
        BackingIsKept(before, calls[k - 1], x);
      }
    }
  }

  ghost predicate AllBacked(d: Driver) {
    forall x <- d.pending :: Backed(d.store, x)
  }

  /** Every pending submission is one the queue was created with, or is backed. */
  lemma PendingIsBackedOrInitial(d: Driver, calls: seq<Call>, k: nat)
    requires d.Valid() && k <= |calls|
    ensures forall x <- After(d, calls, k).pending :: x in d.pending || Backed(After(d, calls, k).store, x)
    ensures forall x <- HandedOut(d, calls, k) :: x in d.pending || Backed(After(d, calls, k).store, x)
  {
    SubmissionsAreConserved(d, calls, k);
    AcceptedStayBacked(d, calls, k);
    var all := d.pending + Accepted(d, calls, k);
    assert forall x <- HandedOut(d, calls, k) + After(d, calls, k).pending :: x in all;
    assert forall x <- After(d, calls, k).pending :: x in HandedOut(d, calls, k) + After(d, calls, k).pending;
    assert forall x <- HandedOut(d, calls, k) :: x in HandedOut(d, calls, k) + After(d, calls, k).pending;
  }

  /**
   A new driver keeps all its pending submissions backed in every reachable state if
   and only if the queue it was given is empty.
   */
  lemma BackedAlwaysIffStartedEmpty(q: QueueSpec.Pending, capacity: usize)
    requires QueueSpec.Valid(q, capacity)
    ensures (forall calls, k: nat | k <= |calls| :: AllBacked(After(Initial(q, capacity), calls, k))) <==> q == []
  {
    var d := Initial(q, capacity);
    if q == [] {
      forall calls: seq<Call>, k: nat | k <= |calls|
        ensures AllBacked(After(d, calls, k))
      {
        PendingIsBackedOrInitial(d, calls, k);
      }
    } else {
      assert q[0] in After(d, [], 0).pending && !Backed(After(d, [], 0).store, q[0]);
      assert !AllBacked(After(d, [], 0));
    }
  }

  /** Before the device is ready nothing is allocated and nothing is accepted. */
  lemma {:induction false} WorkNeedsReady(q: QueueSpec.Pending, capacity: usize, calls: seq<Call>, k: nat)
    requires k <= |calls|
    ensures var d := Initial(q, capacity);
            !After(d, calls, k).lifecycle.Ready? ==>
              After(d, calls, k).store == Fresh && Accepted(d, calls, k) == []
  {
    if k > 0 {
      WorkNeedsReady(q, capacity, calls, k - 1);
    }
  }

  // ----- The initialized prefix -----

  /** Every pending range lies within the initialized prefix, as it did when accepted. */
  ghost predicate WithinUsed(d: Driver) {
    forall x <- d.pending ::
      && WellFormed(x.command) && x.bufferId in d.store.buffers
      && x.command.range.End() <= d.store.buffers[x.bufferId].used
  }

  /** A write that would leave less initialized data than a pending submission refers to. */
  predicate Undercuts(d: Driver, call: Call) {
    && call.WriteCall? && d.lifecycle.Ready?
    && call.id in d.store.buffers && |call.data| <= |d.store.buffers[call.id].storage|
    && exists x <- d.pending :: x.bufferId == call.id && |call.data| < x.command.range.offset + x.command.range.length
  }

  /**
   Unlike the capacity bound, the bound by `used` is not kept by every call; it is kept
   exactly by those that do not undercut a pending submission.
   */
  lemma UsedBoundKeptExactly(d: Driver, call: Call)
    requires d.Valid() && WithinUsed(d)
    ensures WithinUsed(Step(d, call).0) <==> !Undercuts(d, call)
  {
  }

  /** The bound by `used` holds in every state of the first `n` calls. */
  ghost predicate StaysWithinUsed(d: Driver, calls: seq<Call>, n: nat)
    requires n <= |calls|
  {
    forall k | 0 <= k <= n :: WithinUsed(After(d, calls, k))
  }

  /** No call of the first `n` undercuts a submission that is pending when it is made. */
  ghost predicate NeverUndercuts(d: Driver, calls: seq<Call>, n: nat)
    requires n <= |calls|
  {
    forall k | 0 <= k < n :: !Undercuts(After(d, calls, k), calls[k])
  }

  /** A run keeps every pending range within `used` if and only if none of its writes undercuts one. */
  lemma UsedBoundKeptByRuns(d: Driver, calls: seq<Call>, n: nat)
    requires d.Valid() && WithinUsed(d) && n <= |calls|
    ensures StaysWithinUsed(d, calls, n) <==> NeverUndercuts(d, calls, n)
  {
    if StaysWithinUsed(d, calls, n) {
      WithinUsedNeverUndercuts(d, calls, n);
    } else if NeverUndercuts(d, calls, n) {
      forall k | 0 <= k <= n
        ensures WithinUsed(After(d, calls, k))
      {
        WithinUsedSoFar(d, calls, k);
      }
    }
  }

  lemma WithinUsedNeverUndercuts(d: Driver, calls: seq<Call>, n: nat)
    requires d.Valid() && n <= |calls| && StaysWithinUsed(d, calls, n)
    ensures NeverUndercuts(d, calls, n)
  {
    forall k | 0 <= k < n
      ensures !Undercuts(After(d, calls, k), calls[k])
    {
      UsedBoundAfterOneCall(d, calls, k);
    }
  }

  lemma WithinUsedSoFar(d: Driver, calls: seq<Call>, n: nat)
    requires d.Valid() && WithinUsed(d) && n <= |calls| && NeverUndercuts(d, calls, n)
    ensures WithinUsed(After(d, calls, n))
  {
    for k := 0 to n
      invariant WithinUsed(After(d, calls, k))
    {
      UsedBoundAfterOneCall(d, calls, k);
    }
  }

  lemma UsedBoundAfterOneCall(d: Driver, calls: seq<Call>, k: nat)
    requires d.Valid() && k < |calls| && WithinUsed(After(d, calls, k))
    ensures WithinUsed(After(d, calls, k + 1)) <==> !Undercuts(After(d, calls, k), calls[k])
  {
    AfterIsValid(d, calls, k);
    UsedBoundKeptExactly(After(d, calls, k), calls[k]);
  }

  /** So for a new driver around an empty queue nothing else is needed. */
  lemma NewDriverKeepsUsedBound(capacity: usize, calls: seq<Call>, n: nat)
    requires capacity > 0 && n <= |calls|
    ensures StaysWithinUsed(Initial([], capacity), calls, n) <==> NeverUndercuts(Initial([], capacity), calls, n)
  {
    UsedBoundKeptByRuns(Initial([], capacity), calls, n);
  }

  /** The smallest run that breaks the bound: eight bytes are submitted, then one byte is written over them. */
  lemma LaterWriteUndercuts(capacity: usize)
    requires capacity > 0
    ensures var id := BufferId(0);
            var calls := [LoadFirmwareCall(MAGIC + [1, 0]), StartCall, AllocateCall(8), WriteCall(id, Zeros(8)),
                          SubmitCall(id, RawCommand(1, 0, 8, 0)), WriteCall(id, [7])];
            var d := Initial([], capacity);
            && AnswerAt(d, calls, 4) == Done && WithinUsed(After(d, calls, 5))
            && AnswerAt(d, calls, 5) == Done && !WithinUsed(After(d, calls, 6))
  {
    var id, info := BufferId(0), FirmwareInfo(1, 0);
    var calls := [LoadFirmwareCall(MAGIC + [1, 0]), StartCall, AllocateCall(8), WriteCall(id, Zeros(8)),
                  SubmitCall(id, RawCommand(1, 0, 8, 0)), WriteCall(id, [7])];
    var d := Initial([], capacity);
    assert After(d, calls, 1) == d.(lifecycle := FirmwareLoaded(info));
    assert After(d, calls, 2) == d.(lifecycle := Ready(info));
    var ready := After(d, calls, 2);
    assert After(d, calls, 3) == ready.(store := Store(1, map[id := Buffer(id, Zeros(8), 0)]));
    assert After(d, calls, 4) == ready.(store := Store(1, map[id := Buffer(id, Zeros(8), 8)])) by {
      assert Overlay(Zeros(8), 0, Zeros(8)) == Zeros(8);
    }
    var x := Requested(id, RawCommand(1, 0, 8, 0));
    assert After(d, calls, 5) == After(d, calls, 4).(pending := [x]);
    assert After(d, calls, 6) == Step(After(d, calls, 5), calls[5]).0;
    assert x in After(d, calls, 6).pending && After(d, calls, 6).store.buffers[id].used == 1;
  }

  // ----- Reuse of command ids -----

  /** Call `k` hands out a submission with this id. */
  predicate HandsOut(d: Driver, calls: seq<Call>, k: nat, id: CommandId)
    requires k < |calls|
  {
    && calls[k] == NextCall
    && AnswerAt(d, calls, k).submission.Some?
    && AnswerAt(d, calls, k).submission.value.Id() == id
  }

  /** An id stays pending from one call to another unless it was handed out in between. */
  lemma {:induction false} PendingUntilHandedOut(d: Driver, calls: seq<Call>, j: nat, k: nat, id: CommandId)
    requires d.Valid() && j <= k <= |calls| && QueueSpec.HasId(After(d, calls, j).pending, id)
    ensures QueueSpec.HasId(After(d, calls, k).pending, id) || exists m | j <= m < k :: HandsOut(d, calls, m, id)
    decreases k - j
  {
    if j < k {
      PendingUntilHandedOut(d, calls, j, k - 1, id);
      AfterIsValid(d, calls, k - 1);
      OneCallMovesAtMostOne(After(d, calls, k - 1), calls[k - 1]);
      var before, now := After(d, calls, k - 1).pending, After(d, calls, k).pending;
      if QueueSpec.HasId(before, id) && !HandsOut(d, calls, k - 1, id) {
        var i :| 0 <= i < |before| && before[i].Id() == id;
        assert now[if |now| < |before| then i - 1 else i].Id() == id;
      }
    }
  }

  /** A command id is accepted a second time only after its first submission was handed out. */
  lemma ReuseNeedsHandOut(d: Driver, calls: seq<Call>, j: nat, k: nat)
    requires d.Valid() && j < k < |calls|
    requires calls[j].SubmitCall? && calls[k].SubmitCall? && calls[j].raw.id == calls[k].raw.id
    requires AnswerAt(d, calls, j) == Done && AnswerAt(d, calls, k) == Done
    ensures exists m | j < m < k :: HandsOut(d, calls, m, CommandId(calls[j].raw.id))
  {
    var id := CommandId(calls[j].raw.id);
    AfterIsValid(d, calls, j);
    SubmitDecision(After(d, calls, j), calls[j].id, calls[j].raw);
    PassingIsAccepted(After(d, calls, j), calls[j].id, calls[j].raw);
    var first := After(d, calls, j + 1).pending;
    assert first[|first| - 1].Id() == id;
    PendingUntilHandedOut(d, calls, j + 1, k, id);
    AfterIsValid(d, calls, k);
    SubmitDecision(After(d, calls, k), calls[k].id, calls[k].raw);
    assert Passes(After(d, calls, k), calls[k].id, calls[k].raw, CHECKS[8]);
  }
}
