/** The fixed-capacity backend (src/static_queue.rs): a ring of optional slots. */
module StaticQueue {
  import opened Results
  import opened Words
  import opened Command
  import opened Submission
  import QueueSpec
  import Ring

  datatype StaticQueueError =
    | ZeroCapacity
    | QueueFull(capacity: usize)
    | DuplicateCommandId(id: u64)

  /** How this backend words a rejection. */
  function Express(rejection: QueueSpec.Rejection): StaticQueueError {
    match rejection
    case Duplicate(id) => DuplicateCommandId(id.raw)
    case Full(capacity) => QueueFull(capacity)
  }

  function ExpressResult(r: Result<(), QueueSpec.Rejection>): Result<(), StaticQueueError> {
    match r
    case Ok(_) => Ok(())
    case Err(rejection) => Err(Express(rejection))
  }

  class StaticCommandQueue {
    const slots: array<Option<ValidatedSubmission>>
    var head: usize
    var len: usize

    /**
     A slot is occupied exactly when it lies in the circular window of `len` slots from
     `head`, and the submissions in the window have distinct ids.
     */
    ghost predicate Valid()
      reads this, slots
    {
      && 0 < slots.Length <= USIZE_MAX
      && Ring.Tight(slots[..], head, len)
      && QueueSpec.UniqueIds(Ring.Window(slots[..], head, len))
    }

    /** The pending submissions, oldest first. */
    ghost function Contents(): (q: QueueSpec.Pending)
      requires Valid()
      reads this, slots
      ensures |q| == len && QueueSpec.Valid(q, slots.Length)
    {
      Ring.Window(slots[..], head, len)
    }

    constructor Create(capacity: usize)
      requires 0 < capacity
      ensures Valid() && fresh(slots)
      ensures slots.Length == capacity && Contents() == []
    {
      slots := new Option<ValidatedSubmission>[capacity](_ => None);
      head, len := 0, 0;
    }

    /** The source's `new`; the capacity is a type parameter there. */
    static method New(capacity: usize) returns (r: Result<StaticCommandQueue, StaticQueueError>)
      ensures r.Err? <==> capacity == 0
      ensures r.Err? ==> r.error == ZeroCapacity
      ensures r.Ok? ==>
                && fresh(r.value) && fresh(r.value.slots)
                && r.value.Valid() && r.value.slots.Length == capacity && r.value.Contents() == []
    {
      if capacity == 0 {
        return Err(ZeroCapacity);
      }
      var queue := new StaticCommandQueue.Create(capacity);
      r := Ok(queue);
    }

    /** The slot just past the window, computed without a sum that could overflow. */
    method TailIndex() returns (tail: usize)
      requires Valid()
      ensures tail == Ring.Slot(head, len, slots.Length)
    {
      Ring.ModuloOnce(head + len, slots.Length);
      var distanceToEnd: usize := slots.Length - head;
      if len >= distanceToEnd {
        tail := len - distanceToEnd;
      } else {
        tail := Plus(head, len);
      }
    }

    method IsEmpty() returns (r: bool)
      requires Valid()
      ensures r <==> Contents() == []
    {
      r := len == 0;
    }

    method IsFull() returns (r: bool)
      requires Valid()
      ensures r <==> |Contents()| == slots.Length
    {
      r := len == slots.Length;
    }

    /** The scan of `enqueue`, over every physical slot whether or not it is in the window. */
    method HoldsId(id: CommandId) returns (found: bool)
      requires Valid()
      ensures found <==> QueueSpec.HasId(Contents(), id)
    {
      found := false;
      var p := 0;
      while p < slots.Length && !found
        invariant p <= slots.Length
        invariant found <==> exists k | 0 <= k < p :: slots[..][k].Some? && slots[..][k].value.Id() == id
      {
        match slots[p] {
          case None =>
          case Some(queued) => found := queued.Id() == id;
        }
        p := p + 1;
      }
      Ring.ScanSeesWindow(slots[..], head, len, (x: ValidatedSubmission) => x.Id() == id);
    }

    method Enqueue(x: ValidatedSubmission) returns (r: Result<(), StaticQueueError>)
      requires Valid()
      modifies this, slots
      ensures Valid()
      ensures Contents() == QueueSpec.Enqueue(old(Contents()), slots.Length, x).0
      ensures r == ExpressResult(QueueSpec.Enqueue(old(Contents()), slots.Length, x).1)
      ensures (exists i | 0 <= i < |old(Contents())| :: old(Contents())[i].command.id.raw == x.command.id.raw) ==>
                r == Err(DuplicateCommandId(x.command.id.raw)) && Contents() == old(Contents())
      ensures (forall i | 0 <= i < |old(Contents())| :: old(Contents())[i].command.id.raw != x.command.id.raw) ==>
                if |old(Contents())| == slots.Length then
                  r == Err(QueueFull(slots.Length)) && Contents() == old(Contents())
                else r == Ok(()) && Contents() == old(Contents()) + [x]
    {
      var duplicate := HoldsId(x.Id());
      if duplicate {
        return Err(DuplicateCommandId(x.Id().raw));
      }
      var full := IsFull();
      if full {
        return Err(QueueFull(slots.Length));
      }
      var tail := TailIndex();
      Ring.PutAppends(slots[..], head, len, x);
      slots[tail] := Some(x);
      len := len + 1;
      assert slots[..] == old(slots[..])[tail := Some(x)];
      r := Ok(());
    }

    /** The `None` of an unoccupied head slot is never returned for a non-empty queue. */
    method Peek() returns (r: Option<ValidatedSubmission>)
      requires Valid()
      ensures r == QueueSpec.Peek(Contents())
      ensures Contents() != [] ==> r == Some(Contents()[0])
      ensures Contents() == [] ==> r == None
    {
      if len == 0 {
        return None;
      }
      Ring.TakeDropsFirst(slots[..], head, len);
      r := slots[head];
    }

    method Dequeue() returns (r: Option<ValidatedSubmission>)
      requires Valid()
      modifies this, slots
      ensures Valid()
      ensures (Contents(), r) == QueueSpec.Dequeue(old(Contents()))
      ensures old(Contents()) != [] ==> r == Some(old(Contents())[0]) && Contents() == old(Contents())[1..]
      ensures old(Contents()) == [] ==> r == None && Contents() == []
    {
      if len == 0 {
        return None;
      }
      Ring.TakeDropsFirst(slots[..], head, len);
      var taken := slots[head];
      slots[head] := None;
      match taken {
        case None => r := None;
        case Some(submission) =>
          assert slots[..] == old(slots[..])[old(head) := None];
          head := Plus(head, 1) % slots.Length;
          len := len - 1;
          r := Some(submission);
      }
    }
  }
}
