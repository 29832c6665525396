/**
 Every run of the buffer table: which identifiers it hands out, what each byte and each
 fill level is in terms of the calls made, and when a read shows only live client data.
 */
module BufferHistory {
  import opened Results
  import opened Words
  import opened BufferStore
  import opened BufferLaws

  // ----- Runs -----

  /** The calls that can change the table. */
  datatype Op =
    | AllocateOp(capacity: usize)
    | WriteOp(id: BufferId, data: Bytes)
    | WriteAtOp(id: BufferId, offset: usize, data: Bytes)
    | ClearOp(id: BufferId)
    | ReleaseOp(id: BufferId)

  datatype Reply =
    | Allocated(id: BufferId)
    | Done
    | Released(buffer: Buffer)
    | Failed(error: DriverError)

  function Perform(s: Store, op: Op): (Store, Reply) {
    match op
    case AllocateOp(capacity) =>
      var (s', r) := Allocate(s, capacity);
      (s', match r case Ok(id) => Allocated(id) case Err(error) => Failed(error))
    case WriteOp(id, data) =>
      var (s', r) := Write(s, id, data);
      (s', Outcome(r))
    case WriteAtOp(id, offset, data) =>
      var (s', r) := WriteAt(s, id, offset, data);
      (s', Outcome(r))
    case ClearOp(id) =>
      var (s', r) := Clear(s, id);
      (s', Outcome(r))
    case ReleaseOp(id) =>
      var (s', r) := Release(s, id);
      (s', match r case Ok(buffer) => Released(buffer) case Err(error) => Failed(error))
  }

  function Outcome(r: Result<(), DriverError>): Reply {
    match r
    case Ok(_) => Done
    case Err(error) => Failed(error)
  }

  /** The table after the first `k` calls of `ops`. */
  function After(s: Store, ops: seq<Op>, k: nat): Store
    requires k <= |ops|
  {
    if k == 0 then s else Perform(After(s, ops, k - 1), ops[k - 1]).0
  }

  /** What call number `k` answers. */
  function ReplyAt(s: Store, ops: seq<Op>, k: nat): Reply
    requires k < |ops|
  {
    Perform(After(s, ops, k), ops[k]).1
  }

  /** What a call must do to the table and answer. */
  ghost predicate Lawful(s: Store, op: Op, s': Store, reply: Reply) {
    match op
    case AllocateOp(capacity) =>
      && (reply.Allocated? || reply.Failed?)
      && AllocateLaw(s, capacity, s', if reply.Failed? then Err(reply.error) else Ok(reply.id))
    case WriteOp(id, data) =>
      && (reply.Done? || reply.Failed?)
      && WriteLaw(s, id, data, s', if reply.Failed? then Err(reply.error) else Ok(()))
    case WriteAtOp(id, offset, data) =>
      && (reply.Done? || reply.Failed?)
      && WriteAtLaw(s, id, offset, data, s', if reply.Failed? then Err(reply.error) else Ok(()))
    case ClearOp(id) =>
      && (reply.Done? || reply.Failed?)
      && ClearLaw(s, id, s', if reply.Failed? then Err(reply.error) else Ok(()))
    case ReleaseOp(id) =>
      && (reply.Released? || reply.Failed?)
      && ReleaseLaw(s, id, s', if reply.Failed? then Err(reply.error) else Ok(reply.buffer))
  }

  lemma PerformIsLawful(s: Store, op: Op)
    ensures var (s', reply) := Perform(s, op); Lawful(s, op, s', reply)
  {
    match op {
      case AllocateOp(capacity) => AllocateObeysLaw(s, capacity);
      case WriteOp(id, data) => WriteObeysLaw(s, id, data);
      case WriteAtOp(id, offset, data) => WriteAtObeysLaw(s, id, offset, data);
      case ClearOp(id) => ClearObeysLaw(s, id);
      case ReleaseOp(id) => ReleaseObeysLaw(s, id);
    }
  }

  /** Every call of every run does exactly what its law says, whatever was called before. */
  lemma RunsAreLawful(s: Store, ops: seq<Op>, k: nat)
    requires k < |ops|
    ensures Lawful(After(s, ops, k), ops[k], After(s, ops, k + 1), ReplyAt(s, ops, k))
  {
    PerformIsLawful(After(s, ops, k), ops[k]);
  }

  /** In particular a clear succeeds exactly on a live buffer, and then empties it and nothing else. */
  lemma ClearsSucceedExactlyWhenLive(s: Store, ops: seq<Op>, k: nat)
    requires k < |ops| && ops[k].ClearOp?
    ensures var (now, after, id) := (After(s, ops, k), After(s, ops, k + 1), ops[k].id);
            if id !in now.buffers then
              after == now && ReplyAt(s, ops, k) == Failed(UnknownBuffer(id))
            else
              && ReplyAt(s, ops, k) == Done && OthersKept(now, after, id)
              && after.buffers[id] == now.buffers[id].(used := 0)
  {
    RunsAreLawful(s, ops, k);
    var (now, after, id) := (After(s, ops, k), After(s, ops, k + 1), ops[k].id);
    if id in now.buffers {
      assert after.buffers[id].storage == now.buffers[id].storage;
    }
  }

  /** A call keeps the table valid, and a failing one keeps it altogether. */
  lemma PerformKeepsValid(s: Store, op: Op)
    requires s.Valid()
    ensures Perform(s, op).0.Valid()
    ensures Perform(s, op).1.Failed? ==> Perform(s, op).0 == s
  {
  }

  lemma {:induction false} AfterIsValid(s: Store, ops: seq<Op>, k: nat)
    requires s.Valid() && k <= |ops|
    ensures After(s, ops, k).Valid()
    ensures s.nextId <= After(s, ops, k).nextId
  {
    if k > 0 {
      AfterIsValid(s, ops, k - 1);
      PerformKeepsValid(After(s, ops, k - 1), ops[k - 1]);
    }
  }

  // ----- Identifiers -----

  /** How many of the first `k` calls allocated. */
  function Allocations(s: Store, ops: seq<Op>, k: nat): nat
    requires k <= |ops|
  {
    if k == 0 then 0
    else Allocations(s, ops, k - 1) + if ReplyAt(s, ops, k - 1).Allocated? then 1 else 0
  }

  /**
   Identifiers are handed out in order and only once: the n-th successful allocation
   returns number n (counted from the initial `nextId`), whatever was released in
   between, and a non-empty allocation fails exactly when the counter is used up,
   which from a fresh device is after 2^32 - 1 of them.
   */
  lemma IdsCountAllocations(s: Store, ops: seq<Op>, k: nat)
    requires k < |ops|
    ensures var n := s.nextId + Allocations(s, ops, k);
            && (ReplyAt(s, ops, k).Allocated? ==> ReplyAt(s, ops, k).id.raw == n)
            && (ops[k].AllocateOp? && ops[k].capacity > 0 ==>
                  if n < 0xFFFF_FFFF then ReplyAt(s, ops, k).Allocated?
                  else ReplyAt(s, ops, k) == Failed(BufferIdExhausted))
  {
    CounterCountsAllocations(s, ops, k);
    AllocationDrawsCounter(After(s, ops, k), ops[k]);
  }

  lemma AllocationDrawsCounter(s: Store, op: Op)
    ensures Perform(s, op).1.Allocated? ==> Perform(s, op).1.id == BufferId(s.nextId)
    ensures op.AllocateOp? && op.capacity > 0 ==>
              if s.nextId < 0xFFFF_FFFF then Perform(s, op).1.Allocated?
              else Perform(s, op).1 == Failed(BufferIdExhausted)
  {
  }

  lemma CounterCountsAllocations(s: Store, ops: seq<Op>, k: nat)
    requires k <= |ops|
    ensures After(s, ops, k).nextId == s.nextId + Allocations(s, ops, k)
  {
    for n := 0 to k
      invariant After(s, ops, n).nextId == s.nextId + Allocations(s, ops, n)
    {
      CounterAfterOneCall(s, ops, n);
    }
  }

  lemma CounterAfterOneCall(s: Store, ops: seq<Op>, k: nat)
    requires k < |ops|
    ensures After(s, ops, k + 1).nextId == After(s, ops, k).nextId + if ReplyAt(s, ops, k).Allocated? then 1 else 0
  {
  }

  lemma {:induction false} AllocationsGrow(s: Store, ops: seq<Op>, j: nat, k: nat)
    requires j <= k <= |ops|
    ensures Allocations(s, ops, j) <= Allocations(s, ops, k)
    decreases k - j
  {
    if j < k {
      AllocationsGrow(s, ops, j, k - 1);
    }
  }

  /** No identifier is returned twice, even after its buffer was released. */
  lemma IdsAreNeverReused(s: Store, ops: seq<Op>, j: nat, k: nat)
    requires j < k < |ops|
    requires ReplyAt(s, ops, j).Allocated? && ReplyAt(s, ops, k).Allocated?
    ensures ReplyAt(s, ops, j).id.raw < ReplyAt(s, ops, k).id.raw
  {
    IdsCountAllocations(s, ops, j);
    IdsCountAllocations(s, ops, k);
    AllocationsGrow(s, ops, j + 1, k);
  }

  /** A released buffer is handed over as it was, and its identifier is never live again. */
  lemma ReleasedIsGone(s: Store, ops: seq<Op>, j: nat, k: nat)
    requires s.Valid() && j < k <= |ops| && ops[j].ReleaseOp? && ReplyAt(s, ops, j).Released?
    ensures ops[j].id in After(s, ops, j).buffers && ReplyAt(s, ops, j).buffer == After(s, ops, j).buffers[ops[j].id]
    ensures ops[j].id !in After(s, ops, k).buffers
  {
    var id := ops[j].id;
    AfterIsValid(s, ops, j);
    for n := j + 1 to k
      invariant id !in After(s, ops, n).buffers && id.raw < After(s, ops, n).nextId
    {
      DeadStaysDead(s, ops, n, id);
    }
  }

  lemma DeadStaysDead(s: Store, ops: seq<Op>, k: nat, id: BufferId)
    requires k < |ops| && id !in After(s, ops, k).buffers && id.raw < After(s, ops, k).nextId
    ensures id !in After(s, ops, k + 1).buffers && id.raw < After(s, ops, k + 1).nextId
  {
  }

  // ----- Bytes -----

  /**
   A write succeeds exactly when its buffer is live and its end lies within the capacity.
   The separate overflow check never decides this: it only picks the error.
   */
  lemma WritesSucceedExactlyInBounds(s: Store, id: BufferId, offset: usize, data: Bytes)
    ensures Write(s, id, data).1.Ok? <==> id in s.buffers && |data| <= |s.buffers[id].storage|
    ensures WriteAt(s, id, offset, data).1.Ok? <==> id in s.buffers && offset + |data| <= |s.buffers[id].storage|
    ensures WriteAt(s, id, offset, data).1 == Err(RangeOverflow(offset, |data|)) <==>
            id in s.buffers && offset + |data| > USIZE_MAX
  {
  }

  /** The byte that call `k` stores at index `i` of buffer `id`, if it stores one. */
  function Touch(s: Store, ops: seq<Op>, k: nat, id: BufferId, i: nat): Option<byte>
    requires k < |ops|
  {
    match (ops[k], ReplyAt(s, ops, k))
    case (AllocateOp(capacity), Allocated(new_)) =>
      if new_ == id && i < capacity then Some(0) else None
    case (WriteOp(target, data), Done) =>
      if target == id && i < |data| then Some(data[i]) else None
    case (WriteAtOp(target, offset, data), Done) =>
      if target == id && offset <= i < offset + |data| then Some(data[i - offset]) else None
    case _ => None
  }

  /** Call `t` is the last one before `k` that stores a byte at index `i` of `id`. */
  ghost predicate LastTouch(s: Store, ops: seq<Op>, t: nat, k: nat, id: BufferId, i: nat)
    requires k <= |ops|
  {
    && t < k
    && Touch(s, ops, t, id, i).Some?
    && forall j | t < j < k :: Touch(s, ops, j, id, i) == None
  }

  /** `b` is the byte that the last call covering index `i` of `id` stored there. */
  ghost predicate LastStored(ops: seq<Op>, k: nat, id: BufferId, i: nat, b: byte)
    requires k <= |ops|
  {
    exists t :: LastTouch(Fresh, ops, t, k, id, i) && Touch(Fresh, ops, t, id, i) == Some(b)
  }

  /** A single call either stores index `i` of a buffer or leaves that byte alone. */
  lemma TouchIsTheOnlyWrite(s: Store, ops: seq<Op>, k: nat, id: BufferId, i: nat)
    requires k < |ops| && After(s, ops, k).Valid()
    requires id in After(s, ops, k + 1).buffers && i < |After(s, ops, k + 1).buffers[id].storage|
    ensures match Touch(s, ops, k, id, i)
            case Some(b) => After(s, ops, k + 1).buffers[id].storage[i] == b
            case None =>
              && id in After(s, ops, k).buffers
              && |After(s, ops, k).buffers[id].storage| == |After(s, ops, k + 1).buffers[id].storage|
              && After(s, ops, k).buffers[id].storage[i] == After(s, ops, k + 1).buffers[id].storage[i]
  {
  }

  /**
   Every byte of every live buffer is what the last successful call covering its index
   stored there; from a fresh device there always is such a call (the allocation at
   the latest, which stored zero).
   */
  lemma BytesAreLastTouched(ops: seq<Op>, k: nat, id: BufferId, i: nat)
    requires k <= |ops|
    requires id in After(Fresh, ops, k).buffers && i < |After(Fresh, ops, k).buffers[id].storage|
    ensures LastStored(ops, k, id, i, After(Fresh, ops, k).buffers[id].storage[i])
  {
    for n := 0 to k
      invariant ByteIsExplained(ops, n, id, i)
    {
      AfterIsValid(Fresh, ops, n);
      ExplanationSurvivesCall(ops, n, id, i);
    }
  }

  ghost predicate ByteIsExplained(ops: seq<Op>, k: nat, id: BufferId, i: nat)
    requires k <= |ops|
  {
    id in After(Fresh, ops, k).buffers && i < |After(Fresh, ops, k).buffers[id].storage| ==>
      LastStored(ops, k, id, i, After(Fresh, ops, k).buffers[id].storage[i])
  }

  lemma ExplanationSurvivesCall(ops: seq<Op>, k: nat, id: BufferId, i: nat)
    requires k < |ops| && After(Fresh, ops, k).Valid() && ByteIsExplained(ops, k, id, i)
    ensures ByteIsExplained(ops, k + 1, id, i)
  {
    var now := After(Fresh, ops, k + 1);
    if id in now.buffers && i < |now.buffers[id].storage| {
      TouchIsTheOnlyWrite(Fresh, ops, k, id, i);
      if Touch(Fresh, ops, k, id, i).Some? {
        assert LastTouch(Fresh, ops, k, k + 1, id, i);
      } else {
        var b := now.buffers[id].storage[i];
        var t :| LastTouch(Fresh, ops, t, k, id, i) && Touch(Fresh, ops, t, id, i) == Some(b);
        assert LastTouch(Fresh, ops, t, k + 1, id, i);
      }
    }
  }

  /**
   A range read succeeds exactly inside the initialized prefix of a live buffer, and
   then returns for every index what the last call covering it stored.
   */
  lemma RangeReadsSeeLastTouched(ops: seq<Op>, k: nat, id: BufferId, offset: usize, length: usize)
    requires k <= |ops|
    ensures After(Fresh, ops, k).Valid()
    ensures var now := After(Fresh, ops, k);
            var r := ReadRange(now, id, offset, length);
            && (r.Ok? <==> id in now.buffers && offset + length <= now.buffers[id].used)
            && (r.Ok? ==>
                  && |r.value| == length
                  && forall i | 0 <= i < length :: LastStored(ops, k, id, offset + i, r.value[i]))
  {
    AfterIsValid(Fresh, ops, k);
    var now := After(Fresh, ops, k);
    RangeReadCopies(now, id, offset, length);
    var r := ReadRange(now, id, offset, length);
    if r.Ok? {
      forall i | 0 <= i < length
        ensures LastStored(ops, k, id, offset + i, r.value[i])
      {
        BytesAreLastTouched(ops, k, id, offset + i);
      }
    }
  }

  lemma RangeReadCopies(s: Store, id: BufferId, offset: usize, length: usize)
    requires s.Valid()
    ensures var r := ReadRange(s, id, offset, length);
            && (r.Ok? <==> id in s.buffers && offset + length <= s.buffers[id].used)
            && (r.Ok? ==>
                  && |r.value| == length
                  && forall i | 0 <= i < length :: r.value[i] == s.buffers[id].storage[offset + i])
  {
  }

  /** A plain read returns exactly the initialized prefix, each byte as last stored. */
  lemma ReadsSeeLastTouched(ops: seq<Op>, k: nat, id: BufferId)
    requires k <= |ops|
    ensures After(Fresh, ops, k).Valid()
    ensures var now := After(Fresh, ops, k);
            var r := Read(now, id);
            && (r.Ok? <==> id in now.buffers)
            && (r.Ok? ==>
                  && |r.value| == now.buffers[id].used
                  && forall i | 0 <= i < |r.value| :: LastStored(ops, k, id, i, r.value[i]))
  {
    AfterIsValid(Fresh, ops, k);
    var now := After(Fresh, ops, k);
    ReadCopies(now, id);
    if id in now.buffers {
      forall i | 0 <= i < now.buffers[id].used
        ensures LastStored(ops, k, id, i, Read(now, id).value[i])
      {
        BytesAreLastTouched(ops, k, id, i);
      }
    }
  }

  lemma ReadCopies(s: Store, id: BufferId)
    requires s.Valid()
    ensures var r := Read(s, id);
            && (r.Ok? <==> id in s.buffers)
            && (r.Ok? ==>
                  && |r.value| == s.buffers[id].used
                  && forall i | 0 <= i < |r.value| :: r.value[i] == s.buffers[id].storage[i])
  {
  }

  // ----- Fill level -----

  /** The fill level call `k` sets for `id` outright: an allocation, a clear or a whole write. */
  function Reset(s: Store, ops: seq<Op>, k: nat, id: BufferId): Option<nat>
    requires k < |ops|
  {
    match (ops[k], ReplyAt(s, ops, k))
    case (AllocateOp(_), Allocated(new_)) => if new_ == id then Some(0) else None
    case (WriteOp(target, data), Done) => if target == id then Some(|data|) else None
    case (ClearOp(target), Done) => if target == id then Some(0) else None
    case _ => None
  }

  /** The end of the offset write to `id` that call `k` performs, if it performs one. */
  function WriteEnd(s: Store, ops: seq<Op>, k: nat, id: BufferId): Option<nat>
    requires k < |ops|
  {
    match (ops[k], ReplyAt(s, ops, k))
    case (WriteAtOp(target, offset, data), Done) => if target == id then Some(offset + |data|) else None
    case _ => None
  }

  /** Call `r` is the last before `k` that set the fill level of `id` outright. */
  ghost predicate LastReset(s: Store, ops: seq<Op>, r: nat, k: nat, id: BufferId)
    requires k <= |ops|
  {
    r < k && Reset(s, ops, r, id).Some? && forall j | r < j < k :: Reset(s, ops, j, id) == None
  }

  /**
   `used` is the level set by call `r`, the last outright setting before `k`, raised to
   the largest end among the offset writes performed since.
   */
  ghost predicate LevelSince(s: Store, ops: seq<Op>, r: nat, k: nat, id: BufferId, used: nat)
    requires k <= |ops|
  {
    && LastReset(s, ops, r, k, id)
    && Reset(s, ops, r, id).value <= used
    && (forall j | r < j < k && WriteEnd(s, ops, j, id).Some? :: WriteEnd(s, ops, j, id).value <= used)
    && (used == Reset(s, ops, r, id).value || exists j | r < j < k :: WriteEnd(s, ops, j, id) == Some(used))
  }

  /** A single call sets the level outright, raises it to the end it wrote, or keeps it. */
  lemma LevelAfterOneCall(s: Store, ops: seq<Op>, k: nat, id: BufferId)
    requires k < |ops| && After(s, ops, k).Valid() && id in After(s, ops, k + 1).buffers
    ensures match (Reset(s, ops, k, id), WriteEnd(s, ops, k, id))
            case (Some(level), _) => After(s, ops, k + 1).buffers[id].used == level
            case (None, end) =>
              && id in After(s, ops, k).buffers
              && var before := After(s, ops, k).buffers[id].used;
                 After(s, ops, k + 1).buffers[id].used == if end.Some? then Max(before, end.value) else before
  {
  }

  /** The level survives a call that neither sets nor exceeds it, and follows one that exceeds it. */
  lemma LevelSinceExtends(s: Store, ops: seq<Op>, r: nat, k: nat, id: BufferId, before: nat, used: nat)
    requires k < |ops| && LevelSince(s, ops, r, k, id, before) && Reset(s, ops, k, id) == None
    requires match WriteEnd(s, ops, k, id) case Some(end) => used == Max(before, end) case None => used == before
    ensures LevelSince(s, ops, r, k + 1, id, used)
  {
  }

  /** In every run from a fresh device, `used` of a live buffer is the level since its last reset. */
  lemma UsedIsLevelSinceReset(ops: seq<Op>, k: nat, id: BufferId)
    requires k <= |ops| && id in After(Fresh, ops, k).buffers
    ensures exists r :: LevelSince(Fresh, ops, r, k, id, After(Fresh, ops, k).buffers[id].used)
  {
    for n := 0 to k
      invariant LevelIsExplained(ops, n, id)
    {
      AfterIsValid(Fresh, ops, n);
      LevelSurvivesCall(ops, n, id);
    }
  }

  ghost predicate LevelIsExplained(ops: seq<Op>, k: nat, id: BufferId)
    requires k <= |ops|
  {
    id in After(Fresh, ops, k).buffers ==>
      exists r :: LevelSince(Fresh, ops, r, k, id, After(Fresh, ops, k).buffers[id].used)
  }

  lemma LevelSurvivesCall(ops: seq<Op>, k: nat, id: BufferId)
    requires k < |ops| && After(Fresh, ops, k).Valid() && LevelIsExplained(ops, k, id)
    ensures LevelIsExplained(ops, k + 1, id)
  {
    var now := After(Fresh, ops, k + 1);
    if id in now.buffers {
      LevelAfterOneCall(Fresh, ops, k, id);
      if Reset(Fresh, ops, k, id).Some? {
        assert LevelSince(Fresh, ops, k, k + 1, id, now.buffers[id].used);
      } else {
        var before := After(Fresh, ops, k).buffers[id].used;
        var r :| LevelSince(Fresh, ops, r, k, id, before);
        LevelSinceExtends(Fresh, ops, r, k, id, before, now.buffers[id].used);
      }
    }
  }

  // ----- Bytes a client may read -----

  /** Some call of `r..k` wrote client data at index `i` of `id`. */
  ghost predicate WrittenSince(s: Store, ops: seq<Op>, r: nat, k: nat, id: BufferId, i: nat)
    requires k <= |ops|
  {
    exists j | r <= j < k :: !ops[j].AllocateOp? && Touch(s, ops, j, id, i).Some?
  }

  /** Call `r` is the last reset of `id`, and all readable bytes are client data written since. */
  ghost predicate WrittenFrom(s: Store, ops: seq<Op>, r: nat, k: nat, id: BufferId)
    requires k <= |ops| && id in After(s, ops, k).buffers
  {
    && LevelSince(s, ops, r, k, id, After(s, ops, k).buffers[id].used)
    && forall i | 0 <= i < After(s, ops, k).buffers[id].used :: WrittenSince(s, ops, r, k, id, i)
  }

  /** Every readable byte of `id` is client data written since its last reset. */
  ghost predicate Gapless(s: Store, ops: seq<Op>, k: nat, id: BufferId)
    requires k <= |ops| && id in After(s, ops, k).buffers
  {
    exists r :: WrittenFrom(s, ops, r, k, id)
  }

  /** A performed offset write that starts beyond the initialized prefix. */
  predicate SparseWrite(s: Store, ops: seq<Op>, k: nat, id: BufferId)
    requires k < |ops|
  {
    && ops[k].WriteAtOp? && ops[k].id == id && ReplyAt(s, ops, k) == Done
    && id in After(s, ops, k).buffers && ops[k].offset > After(s, ops, k).buffers[id].used
  }

  /** Nothing written since the reset lies at or beyond the fill level. */
  lemma NothingWrittenBeyondLevel(s: Store, ops: seq<Op>, r: nat, k: nat, id: BufferId, used: nat, i: nat)
    requires k <= |ops| && LevelSince(s, ops, r, k, id, used) && used <= i
    ensures !WrittenSince(s, ops, r, k, id, i)
  {
    forall j | r <= j < k && !ops[j].AllocateOp?
      ensures Touch(s, ops, j, id, i) == None
    {
      assert j == r || WriteEnd(s, ops, j, id) == None || WriteEnd(s, ops, j, id).value <= used;
      assert j == r || Reset(s, ops, j, id) == None;
    }
  }

  lemma LastResetIsUnique(s: Store, ops: seq<Op>, r: nat, k: nat, r': nat, id: BufferId)
    requires k < |ops| && Reset(s, ops, k, id) == None
    requires LastReset(s, ops, r, k, id) && LastReset(s, ops, r', k + 1, id)
    ensures r == r'
  {
  }

  lemma WrittenSinceExtends(s: Store, ops: seq<Op>, r: nat, k: nat, id: BufferId, i: nat)
    requires r <= k < |ops|
    ensures WrittenSince(s, ops, r, k + 1, id, i) <==>
            WrittenSince(s, ops, r, k, id, i) || (!ops[k].AllocateOp? && Touch(s, ops, k, id, i).Some?)
  {
  }

  /**
   One call keeps a buffer gapless exactly when it is not a sparse offset write: such a
   write raises `used` over bytes that were never written, or were written before the
   buffer was cleared.
   */
  lemma GapsComeFromSparseWrites(s: Store, ops: seq<Op>, k: nat, id: BufferId)
    requires k < |ops| && After(s, ops, k).Valid()
    requires id in After(s, ops, k).buffers && id in After(s, ops, k + 1).buffers
    requires Gapless(s, ops, k, id)
    ensures Gapless(s, ops, k + 1, id) <==> !SparseWrite(s, ops, k, id)
  {
    var n := k + 1;
    var r :| WrittenFrom(s, ops, r, k, id);
    var before := After(s, ops, k).buffers[id].used;
    var used := After(s, ops, n).buffers[id].used;
    LevelAfterOneCall(s, ops, k, id);
    if Reset(s, ops, k, id).Some? {
      forall i: nat | i < used
        ensures WrittenSince(s, ops, k, n, id, i)
      {
        assert Touch(s, ops, k, id, i).Some?;
      }
      assert WrittenFrom(s, ops, k, n, id);
    } else if SparseWrite(s, ops, k, id) {
      forall r': nat | WrittenFrom(s, ops, r', n, id)
        ensures false
      {
        LastResetIsUnique(s, ops, r, k, r', id);
        NothingWrittenBeyondLevel(s, ops, r, k, id, before, before);
        WrittenSinceExtends(s, ops, r, k, id, before);
      }
    } else {
      LevelSinceExtends(s, ops, r, k, id, before, used);
      forall i: nat | i < used
        ensures WrittenSince(s, ops, r, n, id, i)
      {
        WrittenSinceExtends(s, ops, r, k, id, i);
      }
      assert WrittenFrom(s, ops, r, n, id);
    }
  }

  /** `id` is gapless whenever it is live during the first `n` calls. */
  ghost predicate StaysGapless(ops: seq<Op>, n: nat, id: BufferId)
    requires n <= |ops|
  {
    forall k | 0 <= k <= n :: id in After(Fresh, ops, k).buffers ==> Gapless(Fresh, ops, k, id)
  }

  ghost predicate NeverSparse(ops: seq<Op>, n: nat, id: BufferId)
    requires n <= |ops|
  {
    forall k | 0 <= k < n :: !SparseWrite(Fresh, ops, k, id)
  }

  /** A buffer is gapless throughout a run if and only if the run makes no sparse write to it. */
  lemma {:induction false} GaplessRunsAreDense(ops: seq<Op>, n: nat, id: BufferId)
    requires n <= |ops|
    ensures StaysGapless(ops, n, id) <==> NeverSparse(ops, n, id)
  {
    if n > 0 {
      GaplessRunsAreDense(ops, n - 1, id);
      AfterIsValid(Fresh, ops, n - 1);
      SparseCallBreaksGapless(ops, n - 1, id);
      if NeverSparse(ops, n, id) {
        assert !SparseWrite(Fresh, ops, n - 1, id);
        DenseCallKeepsGapless(ops, n - 1, id);
      }
    }
  }

  lemma SparseCallBreaksGapless(ops: seq<Op>, k: nat, id: BufferId)
    requires k < |ops| && After(Fresh, ops, k).Valid()
    ensures SparseWrite(Fresh, ops, k, id) && Gapless(Fresh, ops, k, id) ==>
              id in After(Fresh, ops, k + 1).buffers && !Gapless(Fresh, ops, k + 1, id)
  {
    if SparseWrite(Fresh, ops, k, id) && Gapless(Fresh, ops, k, id) {
      assert After(Fresh, ops, k + 1) == Perform(After(Fresh, ops, k), ops[k]).0;
      GapsComeFromSparseWrites(Fresh, ops, k, id);
    }
  }

  lemma DenseCallKeepsGapless(ops: seq<Op>, k: nat, id: BufferId)
    requires k < |ops| && After(Fresh, ops, k).Valid() && !SparseWrite(Fresh, ops, k, id)
    requires id in After(Fresh, ops, k).buffers ==> Gapless(Fresh, ops, k, id)
    ensures id in After(Fresh, ops, k + 1).buffers ==> Gapless(Fresh, ops, k + 1, id)
  {
    if id in After(Fresh, ops, k + 1).buffers {
      if id in After(Fresh, ops, k).buffers {
        GapsComeFromSparseWrites(Fresh, ops, k, id);
      } else {
        LevelAfterOneCall(Fresh, ops, k, id);
        assert WrittenFrom(Fresh, ops, k, k + 1, id);
      }
    }
  }

  /** A run without sparse offset writes to `id` only ever shows data written since the last reset. */
  lemma DenseRunsAreGapless(ops: seq<Op>, k: nat, id: BufferId)
    requires k <= |ops| && id in After(Fresh, ops, k).buffers
    requires forall j | 0 <= j < k :: !SparseWrite(Fresh, ops, j, id)
    ensures Gapless(Fresh, ops, k, id)
  {
    GaplessRunsAreDense(ops, k, id);
    assert StaysGapless(ops, k, id);
  }

  /** The smallest sparse write: a byte removed by `clear_buffer` becomes readable again. */
  lemma ClearedByteReappears()
    ensures var id := BufferId(0);
            var ops := [AllocateOp(2), WriteOp(id, [7, 8]), ClearOp(id), WriteAtOp(id, 1, [9])];
            && After(Fresh, ops, 3).Valid() && Read(After(Fresh, ops, 3), id) == Ok([])
            && After(Fresh, ops, 4).Valid() && Read(After(Fresh, ops, 4), id) == Ok([7, 9])
  {
    var id := BufferId(0);
    var ops := [AllocateOp(2), WriteOp(id, [7, 8]), ClearOp(id), WriteAtOp(id, 1, [9])];
    assert Zeros(2) == [0, 0];
    assert After(Fresh, ops, 1) == Store(1, map[id := Buffer(id, [0, 0], 0)]);
    assert Overlay([0, 0], 0, [7, 8]) == [7, 8];
    assert After(Fresh, ops, 2) == Store(1, map[id := Buffer(id, [7, 8], 2)]);
    assert After(Fresh, ops, 3) == Store(1, map[id := Buffer(id, [7, 8], 0)]);
    assert Overlay([7, 8], 1, [9]) == [7, 9];
    assert After(Fresh, ops, 4) == Store(1, map[id := Buffer(id, [7, 9], 2)]);
    assert [7, 9][..2] == [7, 9];
  }
}
