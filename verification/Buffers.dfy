/** A byte buffer of fixed size that is filled from the front. */
module Buffers {
  import opened Bytes

  class Writer {
    const data: array<byte>
    var len: nat

    ghost predicate Valid()
      reads this
    {
      len <= data.Length
    }

    ghost function Contents(): seq<byte>
      requires Valid()
      reads this, data
    {
      data[..len]
    }

    constructor (capacity: nat)
      ensures Valid() && fresh(data) && data.Length == capacity && len == 0
    {
      data := new byte[capacity](_ => 0);
      len := 0;
    }

    /** memcpy to the current offset, which then moves on */
    method Put(bytes: seq<byte>)
      requires Valid() && len + |bytes| <= data.Length
      modifies this, data
      ensures Valid() && Contents() == old(Contents()) + bytes && len == old(len) + |bytes|
    {
      for i := 0 to |bytes|
        invariant len == old(len) && data[..len + i] == old(data[..len]) + bytes[..i]
      {
        data[len + i] := bytes[i];
      }
      len := len + |bytes|;
    }
  }
}
