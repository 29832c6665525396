/**
 The driver as a state machine on values: the meaning shared by `GenericGpuDriver`
 (src/generic_driver.rs) and `SimulatedGpuDriver` (src/driver.rs).
 */
module DriverSpec {
  import opened Results
  import opened Words
  import opened Command
  import opened BufferStore
  import opened Submission
  import opened Lifecycle
  import QueueSpec

  /** Errors are generic in the queue's error type `QE`. */
  datatype GenericDriverError<QE> =
    | StateFailure(state: StateError)
    | BufferFailure(buffer: DriverError)
    | SubmissionFailure(submission: SubmissionError)
    | QueueFailure(queue: QE)

  /** Errors of the abstract driver, before a backend words its rejections. */
  type Error = GenericDriverError<QueueSpec.Rejection>

  datatype Driver = Driver(lifecycle: DeviceState, store: Store, pending: QueueSpec.Pending, capacity: usize) {
    ghost predicate Valid() {
      store.Valid() && QueueSpec.Valid(pending, capacity)
    }
  }

  /** A new driver around a queue that may already hold submissions. */
  function Initial(q: QueueSpec.Pending, capacity: usize): Driver {
    Driver(Offline, Fresh, q, capacity)
  }

  function LoadFirmware(d: Driver, image: Bytes): (Driver, Result<(), Error>) {
    var (lifecycle, r) := Load(d.lifecycle, image);
    (d.(lifecycle := lifecycle), match r case Ok(_) => Ok(()) case Err(error) => Err(StateFailure(error)))
  }

  function Start(d: Driver): (Driver, Result<(), Error>) {
    var (lifecycle, r) := StartUp(d.lifecycle);
    (d.(lifecycle := lifecycle), match r case Ok(_) => Ok(()) case Err(error) => Err(StateFailure(error)))
  }

  function AllocateBuffer(d: Driver, capacity: usize): (Driver, Result<BufferId, Error>) {
    match ReadyInfo(d.lifecycle)
    case Err(error) => (d, Err(StateFailure(error)))
    case Ok(_) =>
      var (store, r) := Allocate(d.store, capacity);
      (d.(store := store), match r case Ok(id) => Ok(id) case Err(error) => Err(BufferFailure(error)))
  }

  function WriteBuffer(d: Driver, id: BufferId, data: Bytes): (Driver, Result<(), Error>) {
    match ReadyInfo(d.lifecycle)
    case Err(error) => (d, Err(StateFailure(error)))
    case Ok(_) =>
      var (store, r) := Write(d.store, id, data);
      (d.(store := store), match r case Ok(_) => Ok(()) case Err(error) => Err(BufferFailure(error)))
  }

  function Submit(d: Driver, id: BufferId, raw: RawCommand): (Driver, Result<(), Error>) {
    match ReadyInfo(d.lifecycle)
    case Err(error) => (d, Err(StateFailure(error)))
    case Ok(_) => Admit(d, ValidateSubmission(Lookup(d.store), id, raw))
  }

  /** Enqueue what passed validation. */
  function Admit(d: Driver, validated: Result<ValidatedSubmission, SubmissionError>): (Driver, Result<(), Error>) {
    match validated
    case Err(error) => (d, Err(SubmissionFailure(error)))
    case Ok(x) =>
      var (pending, r) := QueueSpec.Enqueue(d.pending, d.capacity, x);
      (d.(pending := pending), match r case Ok(_) => Ok(()) case Err(error) => Err(QueueFailure(error)))
  }

  function NextSubmission(d: Driver): (Driver, Option<ValidatedSubmission>) {
    var (pending, r) := QueueSpec.Dequeue(d.pending);
    (d.(pending := pending), r)
  }

  // ----- Runs -----

  datatype Call =
    | LoadFirmwareCall(image: Bytes)
    | StartCall
    | AllocateCall(size: usize)
    | WriteCall(id: BufferId, data: Bytes)
    | SubmitCall(id: BufferId, raw: RawCommand)
    | NextCall
    | PeekCall
    | LenCall
    | IsEmptyCall
    | IsFullCall

  datatype Answer<QE> =
    | Done
    | Allocated(id: BufferId)
    | Failed(error: GenericDriverError<QE>)
    | Taken(submission: Option<ValidatedSubmission>)
    | Count(n: nat)
    | Flag(holds: bool)

  function Settled<QE>(r: Result<(), GenericDriverError<QE>>): Answer<QE> {
    match r
    case Ok(_) => Done
    case Err(error) => Failed(error)
  }

  function Step(d: Driver, call: Call): (Driver, Answer<QueueSpec.Rejection>) {
    match call
    case LoadFirmwareCall(image) => var (d', r) := LoadFirmware(d, image); (d', Settled(r))
    case StartCall => var (d', r) := Start(d); (d', Settled(r))
    case AllocateCall(size) =>
      var (d', r) := AllocateBuffer(d, size);
      (d', match r case Ok(id) => Allocated(id) case Err(error) => Failed(error))
    case WriteCall(id, data) => var (d', r) := WriteBuffer(d, id, data); (d', Settled(r))
    case SubmitCall(id, raw) => var (d', r) := Submit(d, id, raw); (d', Settled(r))
    case NextCall => var (d', r) := NextSubmission(d); (d', Taken(r))
    case PeekCall => (d, Taken(QueueSpec.Peek(d.pending)))
    case LenCall => (d, Count(|d.pending|))
    case IsEmptyCall => (d, Flag(|d.pending| == 0))
    case IsFullCall => (d, Flag(|d.pending| == d.capacity))
  }

  /** A call that fails leaves lifecycle, buffers, identifier counter and queue as they were. */
  lemma FailureChangesNothing(d: Driver, call: Call)
    ensures Step(d, call).1.Failed? ==> Step(d, call).0 == d
  {
  }

  /** The driver after the first `k` calls. */
  function After(d: Driver, calls: seq<Call>, k: nat): Driver
    requires k <= |calls|
  {
    if k == 0 then d else Step(After(d, calls, k - 1), calls[k - 1]).0
  }

  /** What call number `k` answers. */
  function AnswerAt(d: Driver, calls: seq<Call>, k: nat): Answer<QueueSpec.Rejection>
    requires k < |calls|
  {
    Step(After(d, calls, k), calls[k]).1
  }

  // ----- Wording -----

  /** The same error with a queue rejection put in a backend's own words. */
  function Reword<A, B>(error: GenericDriverError<A>, word: A -> B): GenericDriverError<B> {
    match error
    case StateFailure(state) => StateFailure(state)
    case BufferFailure(buffer) => BufferFailure(buffer)
    case SubmissionFailure(submission) => SubmissionFailure(submission)
    case QueueFailure(queue) => QueueFailure(word(queue))
  }

  function RewordResult<T, A, B>(r: Result<T, GenericDriverError<A>>, word: A -> B): Result<T, GenericDriverError<B>> {
    match r
    case Ok(value) => Ok(value)
    case Err(error) => Err(Reword(error, word))
  }

  function RewordAnswer<A, B>(answer: Answer<A>, word: A -> B): Answer<B> {
    match answer
    case Done => Done
    case Allocated(id) => Allocated(id)
    case Failed(error) => Failed(Reword(error, word))
    case Taken(submission) => Taken(submission)
    case Count(n) => Count(n)
    case Flag(holds) => Flag(holds)
  }

  /** The answers so far are those of the abstract driver, reworded. */
  ghost predicate AnswersAsSpecified<QE>(
    word: QueueSpec.Rejection -> QE, start: Driver, calls: seq<Call>, answers: seq<Answer<QE>>)
  {
    && |answers| <= |calls|
    && forall k | 0 <= k < |answers| :: answers[k] == RewordAnswer(AnswerAt(start, calls, k), word)
  }

  lemma OneMoreAnswer<QE>(
    word: QueueSpec.Rejection -> QE, start: Driver, calls: seq<Call>, answers: seq<Answer<QE>>,
    before: Driver, answer: Answer<QE>)
    requires AnswersAsSpecified(word, start, calls, answers) && |answers| < |calls|
    requires before == After(start, calls, |answers|)
    requires answer == RewordAnswer(Step(before, calls[|answers|]).1, word)
    ensures AnswersAsSpecified(word, start, calls, answers + [answer])
    ensures After(start, calls, |answers| + 1) == Step(before, calls[|answers|]).0
  {
  }
}
