/**
 The buffer manager itself (src/lib.rs): a counter and a table of heap-allocated
 buffers whose bytes are overwritten in place.  Each method is proved against the
 function of `BufferStore` that gives its meaning on the table as a value.
 */
module DeviceMemory {
  import opened Results
  import opened Words
  import opened BufferStore
  import opened BufferLaws

  class GpuBuffer {
    const id: BufferId
    const storage: array<byte>
    var used: usize

    constructor (id: BufferId, capacity: usize)
      ensures this.id == id && fresh(storage)
      ensures storage.Length == capacity && storage[..] == Zeros(capacity) && used == 0
    {
      this.id := id;
      storage := new byte[capacity](_ => 0);
      used := 0;
    }

    ghost predicate Valid()
      reads this
    {
      0 < storage.Length <= USIZE_MAX && used <= storage.Length
    }

    ghost function Value(): Buffer
      requires Valid()
      reads this, storage
    {
      Buffer(id, storage[..], used)
    }

    /** `copy_from_slice` into `storage[offset..offset + data.len()]`. */
    method CopyFrom(offset: usize, data: Bytes)
      requires Valid() && offset + |data| <= storage.Length
      modifies storage
      ensures storage[..] == Overlay(old(storage[..]), offset, data)
    {
      forall i | 0 <= i < |data| {
        storage[offset + i] := data[i];
      }
    }
  }

  class GpuDevice {
    var nextId: u32
    var buffers: map<BufferId, GpuBuffer>
    ghost var owner: map<array<byte>, BufferId>  // no two buffers share their bytes
    ghost var Repr: set<object>

    ghost predicate Valid()
      reads this, Repr
      ensures Valid() ==> this in Repr
    {
      && this in Repr
      && (forall id <- buffers ::
            && buffers[id] in Repr
            && buffers[id].storage in Repr
            && buffers[id].Valid()
            && buffers[id].id == id
            && id.raw < nextId
            && buffers[id].storage in owner
            && owner[buffers[id].storage] == id)
    }

    ghost function View(): (s: Store)
      requires Valid()
      reads this, Repr
      ensures s.Valid()
    {
      Store(nextId, map id | id in buffers :: buffers[id].Value())
    }

    /** Allocating elsewhere does not affect the device. */
    twostate lemma NothingChanged()
      requires old(Valid()) && unchanged(old(Repr))
      ensures Valid() && View() == old(View())
    {
    }

    /** If no other buffer changed, the table changed at one key. */
    twostate lemma OnlyChanged(id: BufferId)
      requires old(Valid()) && Valid()
      requires nextId == old(nextId) && buffers == old(buffers) && id in buffers
      requires forall j <- buffers | j != id :: buffers[j].Value() == old(buffers[j].Value())
      ensures View() == old(View()).Put(id, buffers[id].storage[..], buffers[id].used)
    {
      assert View().buffers == old(View()).Put(id, buffers[id].storage[..], buffers[id].used).buffers;
    }

    /** If the surviving buffers kept their values, the table is the old one plus or minus a key. */
    twostate lemma OnlyAdded(id: BufferId, new added: GpuBuffer)
      requires old(Valid()) && Valid()
      requires id !in old(buffers) && buffers == old(buffers)[id := added]
      requires forall j <- old(buffers) :: old(buffers)[j].Value() == old(buffers[j].Value())
      ensures View() == Store(nextId, old(View()).buffers[id := added.Value()])
    {
      assert View().buffers == old(View()).buffers[id := added.Value()];
    }

    twostate lemma OnlyRemoved(id: BufferId)
      requires old(Valid()) && Valid()
      requires buffers.Keys == old(buffers.Keys) - {id}
      requires forall j <- buffers :: buffers[j].Value() == old(buffers[j].Value())
      ensures View() == Store(nextId, old(View()).buffers - {id})
    {
      assert View().buffers == old(View()).buffers - {id};
    }

    constructor ()
      ensures Valid() && fresh(Repr) && View() == Fresh
      ensures nextId == 0 && buffers == map[]
    {
      nextId := 0;
      buffers := map[];
      owner := map[];
      Repr := {this};
    }

    method AllocateBuffer(capacity: usize) returns (r: Result<BufferId, DriverError>)
      requires Valid()
      modifies Repr
      ensures Valid() && fresh(Repr - old(Repr))
      ensures (View(), r) == Allocate(old(View()), capacity)
      ensures AllocateLaw(old(View()), capacity, View(), r)
    {
      AllocateObeysLaw(View(), capacity);
      if capacity == 0 {
        return Err(ZeroSizedAllocation);
      }
      if nextId == U32_MAX {
        return Err(BufferIdExhausted);
      }
      var id := AddBuffer(capacity);
      r := Ok(id);
    }

    /** The last step of `AllocateBuffer`; this and `Register` are apart from it only to split the proof. */
    method AddBuffer(capacity: usize) returns (id: BufferId)
      requires Valid() && 0 < capacity && nextId < U32_MAX
      modifies Repr
      ensures Valid() && fresh(Repr - old(Repr))
      ensures id == BufferId(old(nextId))
      ensures View() == Store(old(nextId) + 1, old(View()).buffers[id := Buffer(id, Zeros(capacity), 0)])
    {
      id := BufferId(nextId);
      var buffer := new GpuBuffer(id, capacity);
      NothingChanged();
      Register(buffer);
    }

    /** Advance the counter past the new buffer's identifier and enter the buffer in the table. */
    method Register(buffer: GpuBuffer)
      requires Valid() && buffer.Valid()
      requires buffer !in Repr && buffer.storage !in Repr
      requires buffer.id.raw == nextId < U32_MAX
      modifies this
      ensures Valid() && Repr == old(Repr) + {buffer, buffer.storage}
      ensures View() == Store(old(nextId) + 1, old(View()).buffers[buffer.id := buffer.Value()])
    {
      nextId := nextId + 1;
      buffers := buffers[buffer.id := buffer];
      owner := owner[buffer.storage := buffer.id];
      Repr := Repr + {buffer, buffer.storage};
      OnlyAdded(buffer.id, buffer);
    }

    method WriteBuffer(id: BufferId, data: Bytes) returns (r: Result<(), DriverError>)
      requires Valid()
      modifies Repr
      ensures Valid() && Repr == old(Repr)
      ensures (View(), r) == Write(old(View()), id, data)
      ensures WriteLaw(old(View()), id, data, View(), r)
    {
      WriteObeysLaw(View(), id, data);
      if id !in buffers {
        return Err(UnknownBuffer(id));
      }
      var buffer := buffers[id];
      var requested := |data|;
      var capacity := buffer.storage.Length;
      if requested > capacity {
        return Err(WriteTooLarge(capacity, requested));
      }
      buffer.CopyFrom(0, data);
      buffer.used := requested;
      OnlyChanged(id);
      r := Ok(());
    }

    method WriteBufferAt(id: BufferId, offset: usize, data: Bytes) returns (r: Result<(), DriverError>)
      requires Valid()
      modifies Repr
      ensures Valid() && Repr == old(Repr)
      ensures (View(), r) == WriteAt(old(View()), id, offset, data)
      ensures WriteAtLaw(old(View()), id, offset, data, View(), r)
    {
      WriteAtObeysLaw(View(), id, offset, data);
      if id !in buffers {
        return Err(UnknownBuffer(id));
      }
      var buffer := buffers[id];
      var capacity := buffer.storage.Length;
      var length := |data|;
      var requested :- CheckedEnd(offset, length);
      if requested > capacity {
        return Err(WriteOutOfBounds(offset, length, capacity));
      }
      buffer.CopyFrom(offset, data);
      buffer.used := Max(buffer.used, requested);
      OnlyChanged(id);
      r := Ok(());
    }

    method ClearBuffer(id: BufferId) returns (r: Result<(), DriverError>)
      requires Valid()
      modifies Repr
      ensures Valid() && Repr == old(Repr)
      ensures (View(), r) == Clear(old(View()), id)
      ensures ClearLaw(old(View()), id, View(), r)
    {
      ClearObeysLaw(View(), id);
      if id !in buffers {
        return Err(UnknownBuffer(id));
      }
      buffers[id].used := 0;
      OnlyChanged(id);
      r := Ok(());
    }

    /** The released buffer leaves the device's representation: later calls cannot change it. */
    method ReleaseBuffer(id: BufferId) returns (r: Result<GpuBuffer, DriverError>)
      requires Valid()
      modifies Repr
      ensures Valid() && Repr <= old(Repr)
      ensures View() == Release(old(View()), id).0
      ensures match (r, Release(old(View()), id).1)
              case (Ok(buffer), Ok(value)) =>
                && buffer.Valid() && buffer.Value() == value
                && buffer !in Repr && buffer.storage !in Repr
              case (Err(error), Err(expected)) => error == expected
              case _ => false
      ensures ReleaseLaw(old(View()), id, View(), if r.Ok? then Ok(r.value.Value()) else Err(r.error))
    {
      ReleaseObeysLaw(View(), id);
      if id !in buffers {
        return Err(UnknownBuffer(id));
      }
      var buffer := buffers[id];
      buffers := buffers - {id};
      Repr := Repr - {buffer, buffer.storage};
      OnlyRemoved(id);
      r := Ok(buffer);
    }

    method ReadBuffer(id: BufferId) returns (r: Result<Bytes, DriverError>)
      requires Valid()
      ensures r == Read(View(), id)
      ensures ReadLaw(View(), id, r)
    {
      ReadObeysLaw(View(), id);
      if id !in buffers {
        return Err(UnknownBuffer(id));
      }
      var buffer := buffers[id];
      r := Ok(buffer.storage[..buffer.used]);
    }

    method ReadBufferRange(id: BufferId, offset: usize, length: usize) returns (r: Result<Bytes, DriverError>)
      requires Valid()
      ensures r == ReadRange(View(), id, offset, length)
      ensures ReadRangeLaw(View(), id, offset, length, r)
    {
      ReadRangeObeysLaw(View(), id, offset, length);
      if id !in buffers {
        return Err(UnknownBuffer(id));
      }
      var buffer := buffers[id];
      var initialized := buffer.used;
      var end :- CheckedEnd(offset, length);
      if initialized < end {
        return Err(ReadOutOfBounds(offset, length, initialized));
      }
      r := Ok(buffer.storage[offset..end]);
    }

    method InitializedLength(id: BufferId) returns (r: Result<usize, DriverError>)
      requires Valid()
      ensures r == InitializedLen(View(), id)
      ensures r == if id in View().buffers then Ok(View().buffers[id].used) else Err(UnknownBuffer(id))
    {
      if id !in buffers {
        return Err(UnknownBuffer(id));
      }
      r := Ok(buffers[id].used);
    }
  }
}
