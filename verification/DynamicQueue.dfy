/** The growable backend (src/queue.rs): a deque and the set of ids it holds. */
module DynamicQueue {
  import opened Results
  import opened Words
  import opened Command
  import opened Submission
  import QueueSpec

  datatype QueueError =
    | ZeroCapacity
    | QueueFull(capacity: usize)
    | DuplicateCommandId(id: CommandId)

  /** How this backend words a rejection. */
  function Express(rejection: QueueSpec.Rejection): QueueError {
    match rejection
    case Duplicate(id) => DuplicateCommandId(id)
    case Full(capacity) => QueueFull(capacity)
  }

  /** The error with which this backend must refuse an id that is pending. */
  function DuplicateError(id: u64): QueueError {
    DuplicateCommandId(CommandId(id))
  }

  /** The error with which this backend must refuse when it is full. */
  function FullError(capacity: usize): QueueError {
    QueueFull(capacity)
  }

  function ExpressResult(r: Result<(), QueueSpec.Rejection>): Result<(), QueueError> {
    match r
    case Ok(_) => Ok(())
    case Err(rejection) => Err(Express(rejection))
  }

  ghost function Ids(q: QueueSpec.Pending): set<CommandId> {
    set i | 0 <= i < |q| :: q[i].Id()
  }

  /** With distinct ids, a dequeue removes one id and no other. */
  lemma FirstIdIsAlone(q: QueueSpec.Pending)
    requires QueueSpec.UniqueIds(q) && q != []
    ensures q[0].Id() !in Ids(q[1..]) && Ids(q) == {q[0].Id()} + Ids(q[1..])
  {
  }

  /** With distinct ids the id set is as large as the queue. */
  lemma {:induction false} IdsAreOnePerSubmission(q: QueueSpec.Pending)
    requires QueueSpec.UniqueIds(q)
    ensures |Ids(q)| == |q|
  {
    if q != [] {
      FirstIdIsAlone(q);
      IdsAreOnePerSubmission(q[1..]);
    }
  }

  lemma IdsOfConcat(a: QueueSpec.Pending, b: QueueSpec.Pending)
    ensures Ids(a + b) == Ids(a) + Ids(b)
  {
    var w := a + b;
    forall id
      ensures id in Ids(w) <==> id in Ids(a) + Ids(b)
    {
      if i :| 0 <= i < |a| && a[i].Id() == id {
        assert w[i].Id() == id;
      }
      if i :| 0 <= i < |b| && b[i].Id() == id {
        assert w[|a| + i].Id() == id;
      }
    }
  }

  class CommandQueue {
    const capacity: usize
    var pending: seq<ValidatedSubmission>
    var activeIds: set<CommandId>

    /** The id set is exactly the ids of the deque. */
    ghost predicate Valid()
      reads this
    {
      && QueueSpec.Valid(pending, capacity)
      && activeIds == Ids(pending)
    }

    constructor Create(capacity: usize)
      requires 0 < capacity
      ensures Valid() && this.capacity == capacity && pending == []
    {
      this.capacity := capacity;
      pending := [];
      activeIds := {};
    }

    static method New(capacity: usize) returns (r: Result<CommandQueue, QueueError>)
      ensures r.Err? <==> capacity == 0
      ensures r.Err? ==> r.error == ZeroCapacity
      ensures r.Ok? ==> fresh(r.value) && r.value.Valid() && r.value.capacity == capacity && r.value.pending == []
    {
      if capacity == 0 {
        return Err(ZeroCapacity);
      }
      var queue := new CommandQueue.Create(capacity);
      r := Ok(queue);
    }

    method ContainsCommand(id: CommandId) returns (r: bool)
      requires Valid()
      ensures r <==> QueueSpec.HasId(pending, id)
    {
      r := id in activeIds;
    }

    method IsEmpty() returns (r: bool)
      requires Valid()
      ensures r <==> pending == []
    {
      r := |pending| == 0;
    }

    /** The equality test is exact: a queue never holds more than its capacity. */
    method IsFull() returns (r: bool)
      requires Valid()
      ensures r <==> |pending| >= capacity
      ensures r <==> |activeIds| == capacity
    {
      IdsAreOnePerSubmission(pending);
      r := |pending| == capacity;
    }

    method Enqueue(x: ValidatedSubmission) returns (r: Result<(), QueueError>)
      requires Valid()
      modifies this
      ensures Valid()
      ensures pending == QueueSpec.Enqueue(old(pending), capacity, x).0
      ensures r == ExpressResult(QueueSpec.Enqueue(old(pending), capacity, x).1)
      ensures (exists i | 0 <= i < |old(pending)| :: old(pending)[i].command.id.raw == x.command.id.raw) ==>
                r == Err(DuplicateCommandId(x.command.id)) && pending == old(pending)
      ensures (forall i | 0 <= i < |old(pending)| :: old(pending)[i].command.id.raw != x.command.id.raw) ==>
                if |old(pending)| == capacity then r == Err(QueueFull(capacity)) && pending == old(pending)
                else r == Ok(()) && pending == old(pending) + [x]
    {
      var id := x.Id();
      var duplicate := ContainsCommand(id);
      if duplicate {
        return Err(DuplicateCommandId(id));
      }
      var full := IsFull();
      if full {
        return Err(QueueFull(capacity));
      }
      activeIds := activeIds + {id};
      pending := pending + [x];
      IdsOfConcat(old(pending), [x]);
      assert Ids([x]) == {id} by { assert [x][0].Id() == id; }
      r := Ok(());
    }

    method Dequeue() returns (r: Option<ValidatedSubmission>)
      requires Valid()
      modifies this
      ensures Valid()
      ensures (pending, r) == QueueSpec.Dequeue(old(pending))
      ensures old(pending) != [] ==> r == Some(old(pending)[0]) && pending == old(pending)[1..]
      ensures old(pending) == [] ==> r == None && pending == []
    {
      if |pending| == 0 {
        return None;
      }
      FirstIdIsAlone(pending);
      var submission := pending[0];
      pending := pending[1..];
      activeIds := activeIds - {submission.Id()};
      r := Some(submission);
    }

    method Peek() returns (r: Option<ValidatedSubmission>)
      requires Valid()
      ensures r == QueueSpec.Peek(pending)
      ensures pending != [] ==> r == Some(pending[0])
      ensures pending == [] ==> r == None
    {
      if |pending| == 0 {
        return None;
      }
      r := Some(pending[0]);
    }
  }
}
