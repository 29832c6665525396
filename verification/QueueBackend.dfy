/**
 One queue interface over both backends (src/queue_backend.rs).  The trait's two
 implementations become the two constructors of `SubmissionQueue`; every method
 forwards, and meets the same contract whichever backend is behind it.
 */
module QueueBackend {
  import opened Results
  import opened Words
  import opened Command
  import opened Submission
  import QueueSpec
  import StaticQueue
  import DynamicQueue

  datatype BackendKind = StaticKind | DynamicKind

  /** The associated error type of the backend in use. */
  datatype BackendError =
    | StaticError(staticError: StaticQueue.StaticQueueError)
    | DynamicError(dynamicError: DynamicQueue.QueueError)

  function Express(kind: BackendKind, rejection: QueueSpec.Rejection): BackendError {
    match kind
    case StaticKind => StaticError(StaticQueue.Express(rejection))
    case DynamicKind => DynamicError(DynamicQueue.Express(rejection))
  }

  /** The backend's wording as a function. */
  function Wording(kind: BackendKind): QueueSpec.Rejection -> BackendError {
    rejection => Express(kind, rejection)
  }

  function ExpressResult(kind: BackendKind, r: Result<(), QueueSpec.Rejection>): Result<(), BackendError> {
    match r
    case Ok(_) => Ok(())
    case Err(rejection) => Err(Express(kind, rejection))
  }

  function ExpressReply(kind: BackendKind, reply: QueueSpec.Reply<QueueSpec.Rejection>): QueueSpec.Reply<BackendError> {
    match reply
    case Enqueued => QueueSpec.Enqueued
    case Rejected(rejection) => QueueSpec.Rejected(Express(kind, rejection))
    case Taken(submission) => QueueSpec.Taken(submission)
    case Count(n) => QueueSpec.Count(n)
    case Flag(holds) => QueueSpec.Flag(holds)
  }

  /** A backend's wording loses nothing: equal answers mean equal reasons. */
  lemma WordingIsFaithful(
    kind: BackendKind, a: QueueSpec.Reply<QueueSpec.Rejection>, b: QueueSpec.Reply<QueueSpec.Rejection>)
    ensures ExpressReply(kind, a) == ExpressReply(kind, b) <==> a == b
  {
  }

  /** The error with which a backend must refuse an id that is pending. */
  function DuplicateError(kind: BackendKind): u64 -> BackendError {
    match kind
    case StaticKind => (id: u64) => StaticError(StaticQueue.DuplicateCommandId(id))
    case DynamicKind => (id: u64) => DynamicError(DynamicQueue.DuplicateCommandId(CommandId(id)))
  }

  /** The error with which a backend must refuse when it is full. */
  function FullError(kind: BackendKind): usize -> BackendError {
    match kind
    case StaticKind => (capacity: usize) => StaticError(StaticQueue.QueueFull(capacity))
    case DynamicKind => (capacity: usize) => DynamicError(DynamicQueue.QueueFull(capacity))
  }

  lemma CallObeysLaw(kind: BackendKind, q: QueueSpec.Pending, capacity: usize, op: QueueSpec.Op)
    ensures var (q', reply) := QueueSpec.Perform(q, capacity, op);
            QueueSpec.CallLaw(q, capacity, op, q', ExpressReply(kind, reply), DuplicateError(kind), FullError(kind))
  {
    QueueSpec.CallObeysLaw(q, capacity, op);
  }

  /** The same for every call of a run. */
  lemma RunIsLawful(
    kind: BackendKind, q: QueueSpec.Pending, capacity: usize, ops: seq<QueueSpec.Op>,
    replies: seq<QueueSpec.Reply<BackendError>>)
    requires |replies| == |ops|
    requires forall k | 0 <= k < |ops| ::
               replies[k] == ExpressReply(kind, QueueSpec.ReplyAt(q, capacity, ops, k))
    ensures QueueSpec.LawfulRun(
              q, capacity, ops, replies, QueueSpec.After(q, capacity, ops, |ops|),
              DuplicateError(kind), FullError(kind))
  {
    var states := seq(|ops| + 1, k requires 0 <= k <= |ops| => QueueSpec.After(q, capacity, ops, k));
    forall k | 0 <= k < |ops|
      ensures QueueSpec.CallLaw(
                states[k], capacity, ops[k], states[k + 1], replies[k], DuplicateError(kind), FullError(kind))
    {
      CallObeysLaw(kind, QueueSpec.After(q, capacity, ops, k), capacity, ops[k]);
    }
    assert QueueSpec.LawfulStates(states, capacity, ops, replies, DuplicateError(kind), FullError(kind));
  }

  datatype SubmissionQueue = Static(ring: StaticQueue.StaticCommandQueue) | Dynamic(deque: DynamicQueue.CommandQueue) {

    function Kind(): BackendKind {
      if Static? then StaticKind else DynamicKind
    }

    ghost function Repr(): set<object> {
      match this
      case Static(ring) => {ring, ring.slots}
      case Dynamic(deque) => {deque}
    }

    ghost predicate Valid()
      reads Repr()
    {
      match this
      case Static(ring) => ring.Valid()
      case Dynamic(deque) => deque.Valid()
    }

    ghost function Capacity(): usize
      requires Valid()
      reads Repr()
    {
      match this
      case Static(ring) => ring.slots.Length
      case Dynamic(deque) => deque.capacity
    }

    ghost function Contents(): (q: QueueSpec.Pending)
      requires Valid()
      reads Repr()
      ensures QueueSpec.Valid(q, Capacity())
    {
      match this
      case Static(ring) => ring.Contents()
      case Dynamic(deque) => deque.pending
    }

    method Enqueue(x: ValidatedSubmission) returns (r: Result<(), BackendError>)
      requires Valid()
      modifies Repr()
      ensures Valid() && Capacity() == old(Capacity())
      ensures Contents() == QueueSpec.Enqueue(old(Contents()), old(Capacity()), x).0
      ensures r == ExpressResult(Kind(), QueueSpec.Enqueue(old(Contents()), old(Capacity()), x).1)
      ensures (exists i | 0 <= i < |old(Contents())| :: old(Contents())[i].command.id.raw == x.command.id.raw) ==>
                r == Err(DuplicateError(Kind())(x.command.id.raw)) && Contents() == old(Contents())
      ensures (forall i | 0 <= i < |old(Contents())| :: old(Contents())[i].command.id.raw != x.command.id.raw) ==>
                if |old(Contents())| == Capacity() then
                  r == Err(FullError(Kind())(Capacity())) && Contents() == old(Contents())
                else r == Ok(()) && Contents() == old(Contents()) + [x]
    {
      match this {
        case Static(ring) =>
          var outcome := ring.Enqueue(x);
          r := if outcome.Ok? then Ok(()) else Err(StaticError(outcome.error));
        case Dynamic(deque) =>
          var outcome := deque.Enqueue(x);
          r := if outcome.Ok? then Ok(()) else Err(DynamicError(outcome.error));
      }
    }

    method Dequeue() returns (r: Option<ValidatedSubmission>)
      requires Valid()
      modifies Repr()
      ensures Valid() && Capacity() == old(Capacity())
      ensures (Contents(), r) == QueueSpec.Dequeue(old(Contents()))
      ensures old(Contents()) != [] ==> r == Some(old(Contents())[0]) && Contents() == old(Contents())[1..]
      ensures old(Contents()) == [] ==> r == None && Contents() == []
    {
      match this {
        case Static(ring) => r := ring.Dequeue();
        case Dynamic(deque) => r := deque.Dequeue();
      }
    }

    method Peek() returns (r: Option<ValidatedSubmission>)
      requires Valid()
      ensures r == QueueSpec.Peek(Contents())
      ensures Contents() != [] ==> r == Some(Contents()[0])
      ensures Contents() == [] ==> r == None
    {
      match this {
        case Static(ring) => r := ring.Peek();
        case Dynamic(deque) => r := deque.Peek();
      }
    }

    method Len() returns (n: usize)
      requires Valid()
      ensures n == |Contents()|
    {
      match this {
        case Static(ring) => n := ring.len;
        case Dynamic(deque) => n := |deque.pending|;
      }
    }

    method IsEmpty() returns (r: bool)
      requires Valid()
      ensures r <==> |Contents()| == 0
    {
      match this {
        case Static(ring) => r := ring.IsEmpty();
        case Dynamic(deque) => r := deque.IsEmpty();
      }
    }

    method IsFull() returns (r: bool)
      requires Valid()
      ensures r <==> |Contents()| == Capacity()
    {
      match this {
        case Static(ring) => r := ring.IsFull();
        case Dynamic(deque) => r := deque.IsFull();
      }
    }

    /** One call of the interface. */
    method Perform(op: QueueSpec.Op) returns (reply: QueueSpec.Reply<BackendError>)
      requires Valid()
      modifies Repr()
      ensures Valid() && Capacity() == old(Capacity())
      ensures Contents() == QueueSpec.Perform(old(Contents()), old(Capacity()), op).0
      ensures reply == ExpressReply(Kind(), QueueSpec.Perform(old(Contents()), old(Capacity()), op).1)
      ensures QueueSpec.CallLaw(
                old(Contents()), Capacity(), op, Contents(), reply, DuplicateError(Kind()), FullError(Kind()))
    {
      CallObeysLaw(Kind(), Contents(), Capacity(), op);
      match op {
        case EnqueueOp(x) =>
          var r := Enqueue(x);
          reply := if r.Ok? then QueueSpec.Enqueued else QueueSpec.Rejected(r.error);
        case DequeueOp =>
          var r := Dequeue();
          reply := QueueSpec.Taken(r);
        case PeekOp =>
          var r := Peek();
          reply := QueueSpec.Taken(r);
        case LenOp =>
          var n := Len();
          reply := QueueSpec.Count(n);
        case IsEmptyOp =>
          var r := IsEmpty();
          reply := QueueSpec.Flag(r);
        case IsFullOp =>
          var r := IsFull();
          reply := QueueSpec.Flag(r);
      }
    }

    /** Any finite sequence of calls. */
    method Run(ops: seq<QueueSpec.Op>) returns (replies: seq<QueueSpec.Reply<BackendError>>)
      requires Valid()
      modifies Repr()
      ensures Valid() && Capacity() == old(Capacity())
      ensures Contents() == QueueSpec.After(old(Contents()), old(Capacity()), ops, |ops|)
      ensures |replies| == |ops|
      ensures forall k | 0 <= k < |ops| ::
                replies[k] == ExpressReply(Kind(), QueueSpec.ReplyAt(old(Contents()), old(Capacity()), ops, k))
      ensures QueueSpec.LawfulRun(
                old(Contents()), Capacity(), ops, replies, Contents(), DuplicateError(Kind()), FullError(Kind()))
    {
      replies := [];
      for n := 0 to |ops|
        invariant Valid() && Capacity() == old(Capacity())
        invariant Contents() == QueueSpec.After(old(Contents()), old(Capacity()), ops, n)
        invariant |replies| == n
        invariant forall k | 0 <= k < n ::
                    replies[k] == ExpressReply(Kind(), QueueSpec.ReplyAt(old(Contents()), old(Capacity()), ops, k))
      {
        var reply := Perform(ops[n]);
        replies := replies + [reply];
      }
      RunIsLawful(Kind(), old(Contents()), old(Capacity()), ops, replies);
    }
  }

  /**
   A ring and a deque of equal capacity, started empty, answer every finite sequence of
   calls alike up to the wording of their errors, and hold the same submissions after it.
   */
  method RunBothBackends(ring: StaticQueue.StaticCommandQueue, deque: DynamicQueue.CommandQueue, ops: seq<QueueSpec.Op>)
    returns (ringReplies: seq<QueueSpec.Reply<BackendError>>, dequeReplies: seq<QueueSpec.Reply<BackendError>>)
    requires ring.Valid() && deque.Valid() && ring.slots.Length == deque.capacity
    requires ring.Contents() == [] && deque.pending == []
    modifies ring, ring.slots, deque
    ensures |ringReplies| == |dequeReplies| == |ops|
    ensures forall k | 0 <= k < |ops| ::
              && ringReplies[k] == ExpressReply(StaticKind, QueueSpec.ReplyAt([], deque.capacity, ops, k))
              && dequeReplies[k] == ExpressReply(DynamicKind, QueueSpec.ReplyAt([], deque.capacity, ops, k))
    ensures ring.Valid() && deque.Valid()
    ensures ring.Contents() == deque.pending == QueueSpec.After([], deque.capacity, ops, |ops|)
  {
    var left, right := Static(ring), Dynamic(deque);
    ringReplies := left.Run(ops);
    dequeReplies := right.Run(ops);
  }
}
