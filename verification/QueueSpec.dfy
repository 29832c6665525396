/**
 The contract behind `SubmissionQueue` (src/queue_backend.rs): a bounded FIFO whose
 pending command ids are pairwise distinct.  Both backends are proved against it, and
 the guarantees over whole runs are proved here, once.
 */
module QueueSpec {
  import opened Results
  import opened Words
  import opened Command
  import opened Submission

  /** Why a queue refuses a submission, before a backend puts it in its own error type. */
  datatype Rejection = Duplicate(id: CommandId) | Full(capacity: usize)

  type Pending = seq<ValidatedSubmission>

  predicate UniqueIds(q: Pending) {
    forall i, j | 0 <= i < j < |q| :: q[i].Id() != q[j].Id()
  }

  predicate HasId(q: Pending, id: CommandId) {
    exists i | 0 <= i < |q| :: q[i].Id() == id
  }

  predicate Valid(q: Pending, capacity: usize) {
    UniqueIds(q) && |q| <= capacity && 0 < capacity
  }

  /** A duplicate is reported even when the queue is also full. */
  function Enqueue(q: Pending, capacity: usize, x: ValidatedSubmission): (Pending, Result<(), Rejection>) {
    if HasId(q, x.Id()) then (q, Err(Duplicate(x.Id())))
    else if |q| == capacity then (q, Err(Full(capacity)))
    else (q + [x], Ok(()))
  }

  function Dequeue(q: Pending): (Pending, Option<ValidatedSubmission>) {
    if q == [] then (q, None) else (q[1..], Some(q[0]))
  }

  function Peek(q: Pending): Option<ValidatedSubmission> {
    if q == [] then None else Some(q[0])
  }

  // ----- Runs -----

  datatype Op = EnqueueOp(x: ValidatedSubmission) | DequeueOp | PeekOp | LenOp | IsEmptyOp | IsFullOp

  /** Replies are generic in the error type, so that a backend's own errors fit as well. */
  datatype Reply<E> =
    | Enqueued
    | Rejected(error: E)
    | Taken(submission: Option<ValidatedSubmission>)
    | Count(n: nat)
    | Flag(holds: bool)

  function Perform(q: Pending, capacity: usize, op: Op): (Pending, Reply<Rejection>) {
    match op
    case EnqueueOp(x) =>
      var (q', r) := Enqueue(q, capacity, x);
      (q', match r case Ok(_) => Enqueued case Err(error) => Rejected(error))
    case DequeueOp =>
      var (q', r) := Dequeue(q);
      (q', Taken(r))
    case PeekOp => (q, Taken(Peek(q)))
    case LenOp => (q, Count(|q|))
    case IsEmptyOp => (q, Flag(|q| == 0))
    case IsFullOp => (q, Flag(|q| == capacity))
  }

  function After(q: Pending, capacity: usize, ops: seq<Op>, k: nat): Pending
    requires k <= |ops|
  {
    if k == 0 then q else Perform(After(q, capacity, ops, k - 1), capacity, ops[k - 1]).0
  }

  /**
   What each call must do, between the contents before, the contents after and the reply:
   the duplicate is looked for first, then room; only the oldest submission is ever shown
   or handed out, and whenever there is one.
   */
  ghost predicate CallLaw<E>(
    q: Pending, capacity: usize, op: Op, q': Pending, reply: Reply<E>, duplicate: u64 -> E, full: usize -> E)
  {
    match op
    case EnqueueOp(x) =>
      if exists i | 0 <= i < |q| :: q[i].command.id.raw == x.command.id.raw then
        q' == q && reply == Rejected(duplicate(x.command.id.raw))
      else if |q| == capacity then
        q' == q && reply == Rejected(full(capacity))
      else
        q' == q + [x] && reply == Enqueued
    case DequeueOp =>
      if q == [] then q' == [] && reply == Taken(None)
      else q' == q[1..] && reply == Taken(Some(q[0]))
    case PeekOp => q' == q && reply == Taken(if q == [] then None else Some(q[0]))
    case LenOp => q' == q && reply == Count(|q|)
    case IsEmptyOp => q' == q && reply == Flag(q == [])
    case IsFullOp => q' == q && reply == Flag(|q| == capacity)
  }

  lemma CallObeysLaw(q: Pending, capacity: usize, op: Op)
    ensures var (q', reply) := Perform(q, capacity, op);
            CallLaw(q, capacity, op, q', reply, (id: u64) => Duplicate(CommandId(id)), (n: usize) => Full(n))
  {
    match op {
      case EnqueueOp(x) =>
        if i :| 0 <= i < |q| && q[i].command.id.raw == x.command.id.raw {
          assert q[i].Id() == x.Id();
        }
      case _ =>
    }
  }

  /** `states` are the contents before, between and after the calls, and every call obeys its law. */
  ghost predicate LawfulStates<E>(
    states: seq<Pending>, capacity: usize, ops: seq<Op>, replies: seq<Reply<E>>, duplicate: u64 -> E, full: usize -> E)
  {
    && |states| == |ops| + 1 && |replies| == |ops|
    && forall k | 0 <= k < |ops| ::
         CallLaw(states[k], capacity, ops[k], states[k + 1], replies[k], duplicate, full)
  }

  /** A run that leads from `q` to `q'` by calls that all obey their law. */
  ghost predicate LawfulRun<E>(
    q: Pending, capacity: usize, ops: seq<Op>, replies: seq<Reply<E>>, q': Pending,
    duplicate: u64 -> E, full: usize -> E)
  {
    exists states ::
      LawfulStates(states, capacity, ops, replies, duplicate, full) && states[0] == q && states[|ops|] == q'
  }

  function ReplyAt(q: Pending, capacity: usize, ops: seq<Op>, k: nat): Reply<Rejection>
    requires k < |ops|
  {
    Perform(After(q, capacity, ops, k), capacity, ops[k]).1
  }

  /** In every run each call hands out, shows, refuses and counts as its law says. */
  lemma RunsAreLawful(q: Pending, capacity: usize, ops: seq<Op>, k: nat)
    requires k < |ops|
    ensures CallLaw(After(q, capacity, ops, k), capacity, ops[k], After(q, capacity, ops, k + 1),
                    ReplyAt(q, capacity, ops, k), (id: u64) => Duplicate(CommandId(id)), (n: usize) => Full(n))
  {
    CallObeysLaw(After(q, capacity, ops, k), capacity, ops[k]);
  }

  lemma {:induction false} AfterIsValid(q: Pending, capacity: usize, ops: seq<Op>, k: nat)
    requires Valid(q, capacity) && k <= |ops|
    ensures Valid(After(q, capacity, ops, k), capacity)
  {
    if k > 0 {
      AfterIsValid(q, capacity, ops, k - 1);
    }
  }

  // ----- Nothing lost, duplicated or reordered -----

  /** The submissions accepted by the first `k` calls, in order. */
  function Accepted(q: Pending, capacity: usize, ops: seq<Op>, k: nat): Pending
    requires k <= |ops|
  {
    if k == 0 then []
    else if ReplyAt(q, capacity, ops, k - 1) == Enqueued then Accepted(q, capacity, ops, k - 1) + [ops[k - 1].x]
    else Accepted(q, capacity, ops, k - 1)
  }

  /** The submissions handed out by the first `k` calls, in order. */
  function HandedOut(q: Pending, capacity: usize, ops: seq<Op>, k: nat): Pending
    requires k <= |ops|
  {
    if k == 0 then []
    else if ops[k - 1] == DequeueOp && ReplyAt(q, capacity, ops, k - 1).submission.Some? then
      HandedOut(q, capacity, ops, k - 1) + [ReplyAt(q, capacity, ops, k - 1).submission.value]
    else HandedOut(q, capacity, ops, k - 1)
  }

  /** What was there plus what came in is what went out plus what is left, in one order. */
  lemma {:induction false} Conservation(q: Pending, capacity: usize, ops: seq<Op>, k: nat)
    requires k <= |ops|
    ensures q + Accepted(q, capacity, ops, k) == HandedOut(q, capacity, ops, k) + After(q, capacity, ops, k)
  {
    if k > 0 {
      Conservation(q, capacity, ops, k - 1);
      var before := After(q, capacity, ops, k - 1);
      var accepted, out := Accepted(q, capacity, ops, k - 1), HandedOut(q, capacity, ops, k - 1);
      if ReplyAt(q, capacity, ops, k - 1) == Enqueued {
        AppendBoth(q, accepted, out, before, ops[k - 1].x);
      } else if before != [] {
        MoveAcross(out, before);
      }
    }
  }

  lemma AppendBoth(a: Pending, b: Pending, c: Pending, d: Pending, x: ValidatedSubmission)
    requires a + b == c + d
    ensures a + (b + [x]) == c + (d + [x])
  {
    assert a + (b + [x]) == (a + b) + [x];
    assert c + (d + [x]) == (c + d) + [x];
  }

  lemma MoveAcross(a: Pending, b: Pending)
    requires b != []
    ensures a + b == (a + [b[0]]) + b[1..]
  {
  }

  // ----- Reuse of command ids -----

  /** Call `k` hands out a submission with this id. */
  predicate HandsOut(q: Pending, capacity: usize, ops: seq<Op>, k: nat, id: CommandId)
    requires k < |ops|
  {
    && ops[k] == DequeueOp
    && ReplyAt(q, capacity, ops, k).submission.Some?
    && ReplyAt(q, capacity, ops, k).submission.value.Id() == id
  }

  /** An id stays pending from one call to another unless a dequeue in between returned it. */
  lemma {:induction false} PendingUntilHandedOut(
    q: Pending, capacity: usize, ops: seq<Op>, j: nat, k: nat, id: CommandId)
    requires j <= k <= |ops| && HasId(After(q, capacity, ops, j), id)
    ensures HasId(After(q, capacity, ops, k), id) || exists m | j <= m < k :: HandsOut(q, capacity, ops, m, id)
    decreases k - j
  {
    if j < k {
      PendingUntilHandedOut(q, capacity, ops, j, k - 1, id);
      var before, now := After(q, capacity, ops, k - 1), After(q, capacity, ops, k);
      if HasId(before, id) && !HandsOut(q, capacity, ops, k - 1, id) {
        var i :| 0 <= i < |before| && before[i].Id() == id;
        if ops[k - 1] == DequeueOp {
          assert now[i - 1].Id() == id;
        } else {
          assert now[i].Id() == id;
        }
      }
    }
  }

  /** Between two acceptances of one command id there is a dequeue that returned it. */
  lemma ReuseNeedsHandOut(q: Pending, capacity: usize, ops: seq<Op>, j: nat, k: nat)
    requires j < k < |ops|
    requires ReplyAt(q, capacity, ops, j) == Enqueued && ReplyAt(q, capacity, ops, k) == Enqueued
    requires ops[j].x.Id() == ops[k].x.Id()
    ensures exists m | j < m < k :: HandsOut(q, capacity, ops, m, ops[j].x.Id())
  {
    var after := After(q, capacity, ops, j + 1);
    assert after[|after| - 1].Id() == ops[j].x.Id();
    PendingUntilHandedOut(q, capacity, ops, j + 1, k, ops[j].x.Id());
  }

  /**
   What `peek` shows is what the next `dequeue` returns, whatever else is called in
   between: no enqueue overtakes the oldest submission.
   */
  lemma PeekForetellsDequeue(q: Pending, capacity: usize, ops: seq<Op>, j: nat, k: nat)
    requires j < k < |ops| && ops[j] == PeekOp && ops[k] == DequeueOp
    requires ReplyAt(q, capacity, ops, j).submission.Some?
    requires forall m | j < m < k :: ops[m] != DequeueOp
    ensures ReplyAt(q, capacity, ops, k) == ReplyAt(q, capacity, ops, j)
  {
    var front := After(q, capacity, ops, j)[0];
    for n := j + 1 to k
      invariant After(q, capacity, ops, n) != [] && After(q, capacity, ops, n)[0] == front
    {
      FrontStays(q, capacity, ops, n);
    }
  }

  lemma FrontStays(q: Pending, capacity: usize, ops: seq<Op>, k: nat)
    requires k < |ops| && ops[k] != DequeueOp && After(q, capacity, ops, k) != []
    ensures After(q, capacity, ops, k + 1) != []
    ensures After(q, capacity, ops, k + 1)[0] == After(q, capacity, ops, k)[0]
  {
  }
}
