/**
 What each operation on the buffer table must do, as a relation between the table before,
 the table after and the answer.  The relations name the errors and the bytes outright and
 do not mention the functions of `BufferStore`, which are shown to obey them.
 */
module BufferLaws {
  import opened Results
  import opened Words
  import opened BufferStore

  /** No buffer but `id` changed, and none came or went. */
  ghost predicate OthersKept(s: Store, s': Store, id: BufferId) {
    && s'.nextId == s.nextId
    && s'.buffers.Keys == s.buffers.Keys
    && forall j <- s.buffers | j != id :: s'.buffers[j] == s.buffers[j]
  }

  /** The same buffer with `data` from `offset` on, every other byte kept, and a new fill level. */
  ghost predicate Overwritten(before: Buffer, after: Buffer, offset: nat, data: Bytes, used: nat) {
    && after.id == before.id
    && after.used == used
    && |after.storage| == |before.storage|
    && forall i | 0 <= i < |before.storage| ::
         after.storage[i] == if offset <= i < offset + |data| then data[i - offset] else before.storage[i]
  }

  ghost predicate AllocateLaw(s: Store, capacity: usize, s': Store, r: Result<BufferId, DriverError>) {
    if capacity == 0 then
      s' == s && r == Err(ZeroSizedAllocation)
    else if s.nextId == 0xFFFF_FFFF then
      s' == s && r == Err(BufferIdExhausted)
    else
      && r == Ok(BufferId(s.nextId))
      && s'.nextId == s.nextId + 1
      && s'.buffers.Keys == s.buffers.Keys + {r.value}
      && (forall j <- s.buffers | j != r.value :: s'.buffers[j] == s.buffers[j])
      && s'.buffers[r.value].id == r.value && s'.buffers[r.value].used == 0
      && |s'.buffers[r.value].storage| == capacity
      && forall i | 0 <= i < capacity :: s'.buffers[r.value].storage[i] == 0
  }

  ghost predicate WriteLaw(s: Store, id: BufferId, data: Bytes, s': Store, r: Result<(), DriverError>) {
    if id !in s.buffers then
      s' == s && r == Err(UnknownBuffer(id))
    else if |data| > |s.buffers[id].storage| then
      s' == s && r == Err(WriteTooLarge(|s.buffers[id].storage|, |data|))
    else
      && r == Ok(())
      && OthersKept(s, s', id)
      && Overwritten(s.buffers[id], s'.buffers[id], 0, data, |data|)
  }

  ghost predicate WriteAtLaw(
    s: Store, id: BufferId, offset: usize, data: Bytes, s': Store, r: Result<(), DriverError>)
  {
    if id !in s.buffers then
      s' == s && r == Err(UnknownBuffer(id))
    else if offset + |data| > USIZE_MAX then
      s' == s && r == Err(RangeOverflow(offset, |data|))
    else if offset + |data| > |s.buffers[id].storage| then
      s' == s && r == Err(WriteOutOfBounds(offset, |data|, |s.buffers[id].storage|))
    else
      && r == Ok(())
      && OthersKept(s, s', id)
      && var used := s.buffers[id].used;
         Overwritten(s.buffers[id], s'.buffers[id], offset, data,
                     if used < offset + |data| then offset + |data| else used)
  }

  ghost predicate ClearLaw(s: Store, id: BufferId, s': Store, r: Result<(), DriverError>) {
    if id !in s.buffers then
      s' == s && r == Err(UnknownBuffer(id))
    else
      && r == Ok(())
      && OthersKept(s, s', id)
      && Overwritten(s.buffers[id], s'.buffers[id], 0, [], 0)
  }

  ghost predicate ReleaseLaw(s: Store, id: BufferId, s': Store, r: Result<Buffer, DriverError>) {
    if id !in s.buffers then
      s' == s && r == Err(UnknownBuffer(id))
    else
      && r == Ok(s.buffers[id])
      && s'.nextId == s.nextId
      && s'.buffers.Keys == s.buffers.Keys - {id}
      && forall j <- s'.buffers :: s'.buffers[j] == s.buffers[j]
  }

  ghost predicate ReadLaw(s: Store, id: BufferId, r: Result<Bytes, DriverError>) {
    if id !in s.buffers then
      r == Err(UnknownBuffer(id))
    else
      && r.Ok? && |r.value| == s.buffers[id].used <= |s.buffers[id].storage|
      && forall i | 0 <= i < |r.value| :: r.value[i] == s.buffers[id].storage[i]
  }

  ghost predicate ReadRangeLaw(s: Store, id: BufferId, offset: usize, length: usize, r: Result<Bytes, DriverError>) {
    if id !in s.buffers then
      r == Err(UnknownBuffer(id))
    else if offset + length > USIZE_MAX then
      r == Err(RangeOverflow(offset, length))
    else if offset + length > s.buffers[id].used then
      r == Err(ReadOutOfBounds(offset, length, s.buffers[id].used))
    else
      && offset + length <= |s.buffers[id].storage|
      && r.Ok? && |r.value| == length
      && forall i | 0 <= i < length :: r.value[i] == s.buffers[id].storage[offset + i]
  }

  lemma AllocateObeysLaw(s: Store, capacity: usize)
    ensures var (s', r) := Allocate(s, capacity); AllocateLaw(s, capacity, s', r)
  {
  }

  lemma WriteObeysLaw(s: Store, id: BufferId, data: Bytes)
    ensures var (s', r) := Write(s, id, data); WriteLaw(s, id, data, s', r)
  {
  }

  lemma WriteAtObeysLaw(s: Store, id: BufferId, offset: usize, data: Bytes)
    ensures var (s', r) := WriteAt(s, id, offset, data); WriteAtLaw(s, id, offset, data, s', r)
  {
  }

  lemma ClearObeysLaw(s: Store, id: BufferId)
    ensures var (s', r) := Clear(s, id); ClearLaw(s, id, s', r)
  {
  }

  lemma ReleaseObeysLaw(s: Store, id: BufferId)
    ensures var (s', r) := Release(s, id); ReleaseLaw(s, id, s', r)
  {
  }

  lemma ReadObeysLaw(s: Store, id: BufferId)
    requires s.Valid()
    ensures ReadLaw(s, id, Read(s, id))
  {
  }

  lemma ReadRangeObeysLaw(s: Store, id: BufferId, offset: usize, length: usize)
    requires s.Valid()
    ensures ReadRangeLaw(s, id, offset, length, ReadRange(s, id, offset, length))
  {
  }
}
