/**
 What each call of the driver must do, as a relation between the driver before, the
 driver after and the answer.  The relations name every error outright and do not mention
 the functions of `DriverSpec`, which are shown to obey them.  They are generic in the
 queue's error type: `duplicate` and `full` are the errors a queue refuses with.
 */
module DriverLaws {
  import opened Results
  import opened Words
  import opened Command
  import opened BufferStore
  import opened Submission
  import opened Lifecycle
  import opened DriverSpec
  import BufferLaws
  import QueueSpec

  // ----- Lifecycle and buffers -----

  /** Only the lifecycle moves, and a refusal carries the lifecycle's error. */
  ghost predicate LoadFirmwareLaw<QE>(d: Driver, image: Bytes, d': Driver, r: Result<(), GenericDriverError<QE>>) {
    && d' == d.(lifecycle := d'.lifecycle)
    && (r.Err? ==> r.error.StateFailure?)
    && LoadLaw(d.lifecycle, image, d'.lifecycle, if r.Ok? then Ok(()) else Err(r.error.state))
  }

  ghost predicate StartDeviceLaw<QE>(d: Driver, d': Driver, r: Result<(), GenericDriverError<QE>>) {
    && d' == d.(lifecycle := d'.lifecycle)
    && (r.Err? ==> r.error.StateFailure?)
    && StartLaw(d.lifecycle, d'.lifecycle, if r.Ok? then Ok(()) else Err(r.error.state))
  }

  /** How a call is refused on a device that is not ready. */
  predicate NotReady<QE>(error: GenericDriverError<QE>, lifecycle: DeviceState) {
    error.StateFailure? && RefusedIn(error.state, EnsureReadyOperation, lifecycle)
  }

  /** A ready driver's table changes as the table's law says, and its error is the table's. */
  ghost predicate AllocateBufferLaw<QE>(
    d: Driver, capacity: usize, d': Driver, r: Result<BufferId, GenericDriverError<QE>>)
  {
    if !d.lifecycle.Ready? then
      d' == d && r.Err? && NotReady(r.error, d.lifecycle)
    else
      && d' == d.(store := d'.store)
      && (r.Err? ==> r.error.BufferFailure?)
      && BufferLaws.AllocateLaw(d.store, capacity, d'.store, if r.Ok? then Ok(r.value) else Err(r.error.buffer))
  }

  ghost predicate WriteBufferLaw<QE>(
    d: Driver, id: BufferId, data: Bytes, d': Driver, r: Result<(), GenericDriverError<QE>>)
  {
    if !d.lifecycle.Ready? then
      d' == d && r.Err? && NotReady(r.error, d.lifecycle)
    else
      && d' == d.(store := d'.store)
      && (r.Err? ==> r.error.BufferFailure?)
      && BufferLaws.WriteLaw(d.store, id, data, d'.store, if r.Ok? then Ok(()) else Err(r.error.buffer))
  }

  // ----- Submissions -----

  /** The checks a submission passes through, in the order in which they are made. */
  datatype Check =
    | DeviceReady
    | IdNonzero
    | OffsetAligned
    | LengthPositive
    | EndFits
    | PriorityKnown
    | BufferLive
    | EndInitialized
    | IdNotPending
    | QueueHasRoom

  const CHECKS: seq<Check> := [
    DeviceReady, IdNonzero, OffsetAligned, LengthPositive, EndFits, PriorityKnown,
    BufferLive, EndInitialized, IdNotPending, QueueHasRoom]

  predicate Passes(d: Driver, id: BufferId, raw: RawCommand, check: Check) {
    match check
    case DeviceReady => d.lifecycle.Ready?
    case IdNonzero => raw.id != 0
    case OffsetAligned => raw.offset % 4 == 0
    case LengthPositive => raw.length > 0
    case EndFits => raw.offset + raw.length <= USIZE_MAX
    case PriorityKnown => raw.priority <= 3
    case BufferLive => id in d.store.buffers
    case EndInitialized => id in d.store.buffers ==> raw.offset + raw.length <= d.store.buffers[id].used
    case IdNotPending => forall i | 0 <= i < |d.pending| :: d.pending[i].command.id.raw != raw.id
    case QueueHasRoom => |d.pending| < d.capacity
  }

  /** The error that reports a failed check. */
  ghost predicate Refuses<QE>(
    error: GenericDriverError<QE>, d: Driver, id: BufferId, raw: RawCommand, check: Check, duplicate: QE, full: QE)
  {
    match check
    case DeviceReady => NotReady(error, d.lifecycle)
    case IdNonzero => error == SubmissionFailure(CommandRejected(ZeroCommandId))
    case OffsetAligned => error == SubmissionFailure(CommandRejected(MisalignedOffset(raw.offset, 4)))
    case LengthPositive => error == SubmissionFailure(CommandRejected(ZeroLength))
    case EndFits => error == SubmissionFailure(CommandRejected(CommandError.RangeOverflow(raw.offset, raw.length)))
    case PriorityKnown => error == SubmissionFailure(CommandRejected(InvalidPriority(raw.priority, 0, 3)))
    case BufferLive => error == SubmissionFailure(BufferRejected(UnknownBuffer(id)))
    case EndInitialized =>
      && id in d.store.buffers && raw.offset + raw.length <= USIZE_MAX
      && error == SubmissionFailure(RangeExceedsInitialized(raw.offset + raw.length, d.store.buffers[id].used))
    case IdNotPending => error == QueueFailure(duplicate)
    case QueueHasRoom => error == QueueFailure(full)
  }

  /** The submission a client asked for, field by field. */
  function Requested(id: BufferId, raw: RawCommand): ValidatedSubmission {
    ValidatedSubmission(id,
      ValidatedCommand(CommandId(raw.id), CommandRange(raw.offset, raw.length), Priority(raw.priority)))
  }

  /** `n` is the first check that a submission fails. */
  predicate FirstFailing(d: Driver, id: BufferId, raw: RawCommand, n: nat) {
    && n < |CHECKS|
    && !Passes(d, id, raw, CHECKS[n])
    && forall m | 0 <= m < n :: Passes(d, id, raw, CHECKS[m])
  }

  lemma FailingCheckImpliesFirst(d: Driver, id: BufferId, raw: RawCommand, n: nat)
    requires n < |CHECKS| && !Passes(d, id, raw, CHECKS[n])
    ensures exists m :: FirstFailing(d, id, raw, m)
  {
    if !FirstFailing(d, id, raw, n) {
      var m :| 0 <= m < n && !Passes(d, id, raw, CHECKS[m]);
      FailingCheckImpliesFirst(d, id, raw, m);
    }
  }

  /** A submission that passes every check is appended as requested. */
  lemma PassingIsAccepted(d: Driver, id: BufferId, raw: RawCommand)
    requires d.Valid() && forall n | 0 <= n < |CHECKS| :: Passes(d, id, raw, CHECKS[n])
    ensures Submit(d, id, raw) == (d.(pending := d.pending + [Requested(id, raw)]), Ok(()))
  {
    assert Passes(d, id, raw, CHECKS[0]) && Passes(d, id, raw, CHECKS[1]) && Passes(d, id, raw, CHECKS[2]);
    assert Passes(d, id, raw, CHECKS[3]) && Passes(d, id, raw, CHECKS[4]) && Passes(d, id, raw, CHECKS[5]);
    assert Passes(d, id, raw, CHECKS[6]) && Passes(d, id, raw, CHECKS[7]) && Passes(d, id, raw, CHECKS[8]);
    assert Passes(d, id, raw, CHECKS[9]);
    assert TryFrom(raw) == Ok(Requested(id, raw).command);
    assert !QueueSpec.HasId(d.pending, CommandId(raw.id));
  }

  /** A submission is refused for the first check it fails, and changes nothing. */
  lemma FirstFailingIsReported(d: Driver, id: BufferId, raw: RawCommand, n: nat)
    requires d.Valid() && FirstFailing(d, id, raw, n)
    ensures var (d', r) := Submit(d, id, raw);
            && d' == d && r.Err?
            && Refuses(r.error, d, id, raw, CHECKS[n],
                       QueueSpec.Duplicate(CommandId(raw.id)), QueueSpec.Full(d.capacity))
  {
    assert n > 0 ==> Passes(d, id, raw, CHECKS[0]);
    assert n > 1 ==> Passes(d, id, raw, CHECKS[1]);
    assert n > 2 ==> Passes(d, id, raw, CHECKS[2]);
    assert n > 3 ==> Passes(d, id, raw, CHECKS[3]);
    assert n > 4 ==> Passes(d, id, raw, CHECKS[4]);
    assert n > 5 ==> Passes(d, id, raw, CHECKS[5]);
    assert n > 6 ==> Passes(d, id, raw, CHECKS[6]);
    assert n > 7 ==> Passes(d, id, raw, CHECKS[7]);
    assert n > 8 ==> Passes(d, id, raw, CHECKS[8]);
  }

  /**
   `submit` accepts exactly the submissions that pass every check; what it refuses has a
   first failing check, and that is the one it reports (`FirstFailingIsReported`).
   */
  lemma SubmitDecision(d: Driver, id: BufferId, raw: RawCommand)
    requires d.Valid()
    ensures Submit(d, id, raw).1.Ok? <==> forall n | 0 <= n < |CHECKS| :: Passes(d, id, raw, CHECKS[n])
    ensures Submit(d, id, raw).1.Err? ==> exists n: nat :: FirstFailing(d, id, raw, n)
  {
    if n :| 0 <= n < |CHECKS| && !Passes(d, id, raw, CHECKS[n]) {
      FailingCheckImpliesFirst(d, id, raw, n);
      var m :| FirstFailing(d, id, raw, m);
      FirstFailingIsReported(d, id, raw, m);
    } else {
      PassingIsAccepted(d, id, raw);
    }
  }

  /**
   A submission that passes every check is appended as the client asked for it.  Any other
   is refused for the first check it fails, and changes nothing.
   */
  ghost predicate SubmitLaw<QE>(
    d: Driver, id: BufferId, raw: RawCommand, d': Driver, r: Result<(), GenericDriverError<QE>>,
    duplicate: QE, full: QE)
  {
    && (r.Ok? <==> forall n | 0 <= n < |CHECKS| :: Passes(d, id, raw, CHECKS[n]))
    && (r.Ok? ==> d' == d.(pending := d.pending + [Requested(id, raw)]))
    && (r.Err? ==> d' == d)
    && (r.Err? ==> exists n: nat :: FirstFailing(d, id, raw, n))
    && forall n: nat | FirstFailing(d, id, raw, n) ::
         r.Err? && Refuses(r.error, d, id, raw, CHECKS[n], duplicate, full)
  }

  // ----- Any call -----

  function Outcome<QE>(answer: Answer<QE>): Result<(), GenericDriverError<QE>>
    requires answer.Done? || answer.Failed?
  {
    if answer.Done? then Ok(()) else Err(answer.error)
  }

  function AllocationOutcome<QE>(answer: Answer<QE>): Result<BufferId, GenericDriverError<QE>>
    requires answer.Allocated? || answer.Failed?
  {
    if answer.Allocated? then Ok(answer.id) else Err(answer.error)
  }

  /** Handing out and showing answer with the oldest pending submission whenever there is one. */
  ghost predicate CallLaw<QE>(
    d: Driver, call: Call, d': Driver, answer: Answer<QE>, duplicate: u64 -> QE, full: usize -> QE)
  {
    match call
    case LoadFirmwareCall(image) =>
      (answer.Done? || answer.Failed?) && LoadFirmwareLaw(d, image, d', Outcome(answer))
    case StartCall =>
      (answer.Done? || answer.Failed?) && StartDeviceLaw(d, d', Outcome(answer))
    case AllocateCall(size) =>
      (answer.Allocated? || answer.Failed?) && AllocateBufferLaw(d, size, d', AllocationOutcome(answer))
    case WriteCall(id, data) =>
      (answer.Done? || answer.Failed?) && WriteBufferLaw(d, id, data, d', Outcome(answer))
    case SubmitCall(id, raw) =>
      && (answer.Done? || answer.Failed?)
      && SubmitLaw(d, id, raw, d', Outcome(answer), duplicate(raw.id), full(d.capacity))
    case NextCall =>
      if d.pending == [] then d' == d && answer == Taken(None)
      else d' == d.(pending := d.pending[1..]) && answer == Taken(Some(d.pending[0]))
    case PeekCall => d' == d && answer == Taken(if d.pending == [] then None else Some(d.pending[0]))
    case LenCall => d' == d && answer == Count(|d.pending|)
    case IsEmptyCall => d' == d && answer == Flag(d.pending == [])
    case IsFullCall => d' == d && answer == Flag(|d.pending| == d.capacity)
  }

  /** `states` are the drivers before, between and after the calls, and every call obeys its law. */
  ghost predicate LawfulStates<QE>(
    states: seq<Driver>, calls: seq<Call>, answers: seq<Answer<QE>>, duplicate: u64 -> QE, full: usize -> QE)
  {
    && |states| == |calls| + 1 && |answers| == |calls|
    && forall k | 0 <= k < |calls| :: CallLaw(states[k], calls[k], states[k + 1], answers[k], duplicate, full)
  }

  /** A run that leads from `d` to `d'` by calls that all obey their law. */
  ghost predicate LawfulRun<QE>(
    d: Driver, calls: seq<Call>, answers: seq<Answer<QE>>, d': Driver, duplicate: u64 -> QE, full: usize -> QE)
  {
    exists states :: LawfulStates(states, calls, answers, duplicate, full) && states[0] == d && states[|calls|] == d'
  }

  // ----- The driver as specified obeys the laws, in any backend's words -----

  lemma LoadFirmwareObeysLaw<QE>(d: Driver, image: Bytes, word: QueueSpec.Rejection -> QE)
    ensures var (d', r) := LoadFirmware(d, image);
            LoadFirmwareLaw(d, image, d', RewordResult(r, word))
  {
    LoadObeysLaw(d.lifecycle, image);
  }

  lemma StartDeviceObeysLaw<QE>(d: Driver, word: QueueSpec.Rejection -> QE)
    ensures var (d', r) := Start(d);
            StartDeviceLaw(d, d', RewordResult(r, word))
  {
    StartObeysLaw(d.lifecycle);
  }

  lemma AllocateBufferObeysLaw<QE>(d: Driver, capacity: usize, word: QueueSpec.Rejection -> QE)
    ensures var (d', r) := AllocateBuffer(d, capacity);
            AllocateBufferLaw(d, capacity, d', RewordResult(r, word))
  {
    BufferLaws.AllocateObeysLaw(d.store, capacity);
  }

  lemma WriteBufferObeysLaw<QE>(d: Driver, id: BufferId, data: Bytes, word: QueueSpec.Rejection -> QE)
    ensures var (d', r) := WriteBuffer(d, id, data);
            WriteBufferLaw(d, id, data, d', RewordResult(r, word))
  {
    BufferLaws.WriteObeysLaw(d.store, id, data);
  }

  lemma SubmitObeysLaw<QE>(d: Driver, id: BufferId, raw: RawCommand, word: QueueSpec.Rejection -> QE)
    requires d.Valid()
    ensures var (d', r) := Submit(d, id, raw);
            SubmitLaw(d, id, raw, d', RewordResult(r, word),
                      word(QueueSpec.Duplicate(CommandId(raw.id))), word(QueueSpec.Full(d.capacity)))
  {
    SubmitDecision(d, id, raw);
    FailureChangesNothing(d, SubmitCall(id, raw));
    var r := Submit(d, id, raw).1;
    if r.Ok? {
      PassingIsAccepted(d, id, raw);
    }
    forall n: nat | FirstFailing(d, id, raw, n)
      ensures r.Err?
      ensures Refuses(Reword(r.error, word), d, id, raw, CHECKS[n],
                      word(QueueSpec.Duplicate(CommandId(raw.id))), word(QueueSpec.Full(d.capacity)))
    {
      FirstFailingIsReported(d, id, raw, n);
      RefusalIsReworded(r.error, d, id, raw, CHECKS[n], word);
    }
  }

  lemma RefusalIsReworded<QE>(
    error: Error, d: Driver, id: BufferId, raw: RawCommand, check: Check, word: QueueSpec.Rejection -> QE)
    requires Refuses(error, d, id, raw, check, QueueSpec.Duplicate(CommandId(raw.id)), QueueSpec.Full(d.capacity))
    ensures Refuses(Reword(error, word), d, id, raw, check,
                    word(QueueSpec.Duplicate(CommandId(raw.id))), word(QueueSpec.Full(d.capacity)))
  {
  }

  /** Every call, whatever the words of the queue behind the driver. */
  lemma CallObeysLaw<QE>(
    d: Driver, call: Call, word: QueueSpec.Rejection -> QE, duplicate: u64 -> QE, full: usize -> QE)
    requires d.Valid()
    requires forall id: u64 :: word(QueueSpec.Duplicate(CommandId(id))) == duplicate(id)
    requires forall capacity: usize :: word(QueueSpec.Full(capacity)) == full(capacity)
    ensures var (d', answer) := Step(d, call);
            CallLaw(d, call, d', RewordAnswer(answer, word), duplicate, full)
  {
    match call {
      case LoadFirmwareCall(image) => LoadFirmwareObeysLaw(d, image, word);
      case StartCall => StartDeviceObeysLaw(d, word);
      case AllocateCall(size) => AllocateBufferObeysLaw(d, size, word);
      case WriteCall(id, data) => WriteBufferObeysLaw(d, id, data, word);
      case SubmitCall(id, raw) => SubmitObeysLaw(d, id, raw, word);
      case _ =>
    }
  }
}
