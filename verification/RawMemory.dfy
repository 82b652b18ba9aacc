/** Uninitialised, recycled memory: the target of the reassembly copy. */
module RawMemory {
  import opened Basics

  /** `data` is the allocated block (the null pointer is the empty block); its length is the
      capacity. Only the first `size` bytes are in use, and what they hold is arbitrary until
      somebody writes them. */
  class RawMemory {
    var data: array<uint8>
    var size: nat

    ghost predicate Valid()
      reads this
    {
      size <= data.Length
    }

    /** The bytes in use. */
    function Contents(): (r: bytes)
      requires Valid()
      reads this, data
      ensures |r| == size
    {
      data[..size]
    }

    constructor ()
      ensures Valid() && size == 0 && fresh(data)
    {
      data := new uint8[0];
      size := 0;
    }

    /** Growing reallocates and keeps all bytes of the old block; nothing else is touched. */
    method Reserve(capacity: nat)
      requires Valid()
      modifies this`data
      ensures Valid()
      ensures data.Length == Max(old(data.Length), capacity)
      ensures data[..old(data.Length)] == old(data[..])
      ensures if capacity <= old(data.Length) then data == old(data) else fresh(data)
    {
      if capacity > data.Length {
        var newData := new uint8[capacity];
        forall i | 0 <= i < data.Length {
          newData[i] := data[i];
        }
        data := newData;
      }
    }

    /** The bytes that stay in use keep their values; new ones hold whatever was there. */
    method Resize(newSize: nat)
      requires Valid()
      modifies this
      ensures Valid()
      ensures size == newSize
      ensures data.Length == Max(old(data.Length), newSize)
      ensures newSize <= old(data.Length) ==> data == old(data)
      ensures newSize > old(data.Length) ==> fresh(data)
      ensures data[..old(data.Length)] == old(data[..])
    {
      Reserve(newSize);
      size := newSize;
    }

    /** `memcpy` into the block at `at`: writes those bytes and no others. */
    method CopyIn(at: nat, source: bytes)
      requires Valid()
      requires at + |source| <= size
      modifies data
      ensures data[..at] == old(data[..at])
      ensures data[at..at + |source|] == source
      ensures data[at + |source|..] == old(data[at + |source|..])
    {
      forall i | 0 <= i < |source| {
        data[at + i] := source[i];
      }
    }
  }
}
