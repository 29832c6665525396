/**
 The device's buffer table as a value (src/lib.rs).  `Store` is what a `GpuDevice`
 object denotes; the functions give the meaning of its methods.
 */
module BufferStore {
  import opened Results
  import opened Words

  datatype BufferId = BufferId(raw: u32)

  datatype DriverError =
    | ZeroSizedAllocation
    | UnknownBuffer(id: BufferId)
    | BufferIdExhausted
    | WriteTooLarge(capacity: usize, requested: usize)
    | RangeOverflow(offset: usize, length: usize)
    | WriteOutOfBounds(offset: usize, length: usize, capacity: usize)
    | ReadOutOfBounds(offset: usize, length: usize, initialized: usize)

  /** One buffer: all allocated bytes, of which the first `used` are initialized. */
  datatype Buffer = Buffer(id: BufferId, storage: Bytes, used: usize) {
    function Capacity(): usize {
      |storage|
    }
  }

  datatype Store = Store(nextId: u32, buffers: map<BufferId, Buffer>) {

    /** What every reachable table satisfies. */
    ghost predicate Valid() {
      forall id <- buffers ::
        && buffers[id].id == id
        && id.raw < nextId
        && 0 < |buffers[id].storage|
        && buffers[id].used <= |buffers[id].storage|
    }

    /** The same table with one buffer's bytes and fill level replaced. */
    function Put(id: BufferId, storage: Bytes, used: usize): Store
      requires id in buffers
    {
      this.(buffers := buffers[id := buffers[id].(storage := storage, used := used)])
    }
  }

  /** `GpuDevice::default()`. */
  const Fresh: Store := Store(0, map[])

  /** `data` copied over `storage` from `offset` on. */
  function Overlay(storage: Bytes, offset: usize, data: Bytes): (r: Bytes)
    requires offset + |data| <= |storage|
    ensures |r| == |storage|
    ensures forall i | 0 <= i < |storage| ::
              r[i] == if offset <= i < offset + |data| then data[i - offset] else storage[i]
  {
    storage[..offset] + data + storage[offset + |data|..]
  }

  function Zeros(capacity: usize): (r: Bytes)
    ensures |r| == capacity && forall i | 0 <= i < capacity :: r[i] == 0
  {
    seq(capacity, _ => 0)
  }

  function CheckedEnd(offset: usize, length: usize): Result<usize, DriverError> {
    match CheckedAdd(offset, length)
    case None => Err(RangeOverflow(offset, length))
    case Some(end) => Ok(end)
  }

  function Allocate(s: Store, capacity: usize): (Store, Result<BufferId, DriverError>) {
    if capacity == 0 then
      (s, Err(ZeroSizedAllocation))
    else if s.nextId == U32_MAX then
      (s, Err(BufferIdExhausted))
    else
      var id := BufferId(s.nextId);
      (Store(s.nextId + 1, s.buffers[id := Buffer(id, Zeros(capacity), 0)]), Ok(id))
  }

  function Write(s: Store, id: BufferId, data: Bytes): (Store, Result<(), DriverError>) {
    if id !in s.buffers then
      (s, Err(UnknownBuffer(id)))
    else
      var capacity := s.buffers[id].Capacity();
      if |data| > capacity then
        (s, Err(WriteTooLarge(capacity, |data|)))
      else
        (s.Put(id, Overlay(s.buffers[id].storage, 0, data), |data|), Ok(()))
  }

  function WriteAt(s: Store, id: BufferId, offset: usize, data: Bytes): (Store, Result<(), DriverError>) {
    if id !in s.buffers then
      (s, Err(UnknownBuffer(id)))
    else
      var capacity := s.buffers[id].Capacity();
      match CheckedEnd(offset, |data|)
      case Err(error) => (s, Err(error))
      case Ok(end) =>
        if end > capacity then
          (s, Err(WriteOutOfBounds(offset, |data|, capacity)))
        else
          var buffer := s.buffers[id];
          (s.Put(id, Overlay(buffer.storage, offset, data), Max(buffer.used, end)), Ok(()))
  }

  function Clear(s: Store, id: BufferId): (Store, Result<(), DriverError>) {
    if id !in s.buffers then
      (s, Err(UnknownBuffer(id)))
    else
      (s.Put(id, s.buffers[id].storage, 0), Ok(()))
  }

  function Release(s: Store, id: BufferId): (Store, Result<Buffer, DriverError>) {
    if id !in s.buffers then
      (s, Err(UnknownBuffer(id)))
    else
      (s.(buffers := s.buffers - {id}), Ok(s.buffers[id]))
  }

  function InitializedLen(s: Store, id: BufferId): Result<usize, DriverError> {
    if id !in s.buffers then Err(UnknownBuffer(id)) else Ok(s.buffers[id].used)
  }

  function Read(s: Store, id: BufferId): Result<Bytes, DriverError>
    requires s.Valid()
  {
    if id !in s.buffers then
      Err(UnknownBuffer(id))
    else
      Ok(s.buffers[id].storage[..s.buffers[id].used])
  }

  function ReadRange(s: Store, id: BufferId, offset: usize, length: usize): Result<Bytes, DriverError>
    requires s.Valid()
  {
    if id !in s.buffers then
      Err(UnknownBuffer(id))
    else
      var initialized := s.buffers[id].used;
      match CheckedEnd(offset, length)
      case Err(error) => Err(error)
      case Ok(end) =>
        if initialized < end then
          Err(ReadOutOfBounds(offset, length, initialized))
        else
          Ok(s.buffers[id].storage[offset..end])
  }
}
