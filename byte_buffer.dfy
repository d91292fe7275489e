/** The part of `java.nio.ByteBuffer` that the preprocessing uses: a direct
    buffer of fixed capacity, relative `putFloat` and `rewind`. The buffer is
    only ever written four bytes at a time, so its contents are kept as one
    slot per float; the byte encoding of each float is not modelled. Positions
    and capacities are in bytes, as in Java. */
module Buffers {

  /** Bytes taken by one `float`. */
  const FloatBytes: nat := 4

  class ByteBuffer {
    /** Capacity in bytes, fixed at allocation. */
    const capacity: nat
    /** The float slots: slot `i` holds the float stored at bytes 4i..4i+3. */
    const data: array<real>
    /** The position in bytes: where the next relative put writes. The limit
        is never changed here, so it stays equal to `capacity`. */
    var position: nat

    /** The buffer's invariant: one slot for every whole float that fits,
        and a position that is on a float boundary and inside the buffer. */
    ghost predicate Valid()
      reads this
    {
      data.Length == capacity / FloatBytes &&
      position <= capacity &&
      position % FloatBytes == 0
    }

    /** `remaining()`: bytes left between the position and the limit. */
    function Remaining(): (n: int)
      reads this
      requires Valid()
      ensures 0 <= n <= capacity
      ensures n >= FloatBytes <==> position / FloatBytes < data.Length
    {
      capacity - position
    }

    /** `ByteBuffer.allocateDirect(capacity)`: a zero-filled buffer at
        position 0. */
    constructor AllocateDirect(capacity: nat)
      ensures Valid() && fresh(data)
      ensures this.capacity == capacity && position == 0
      ensures data[..] == seq(capacity / FloatBytes, _ => 0.0)
    {
      this.capacity := capacity;
      data := new real[capacity / FloatBytes](_ => 0.0);
      position := 0;
      new;
      assert data[..] == seq(capacity / FloatBytes, _ => 0.0);
    }

    /** Relative `putFloat(x)`: with at least four bytes remaining it stores
        `x` at the position and advances the position by four; otherwise
        Java throws `BufferOverflowException` and nothing changes, which is
        reported here as `ok == false`. */
    method PutFloat(x: real) returns (ok: bool)
      requires Valid()
      modifies this`position, data
      ensures Valid()
      ensures ok <==> old(position) + FloatBytes <= capacity
      ensures ok ==> position == old(position) + FloatBytes &&
                     data[..] == old(data[..])[old(position) / FloatBytes := x]
      ensures !ok ==> position == old(position) && data[..] == old(data[..])
    {
      ok := Remaining() >= FloatBytes;
      if ok {
        data[position / FloatBytes] := x;
        position := position + FloatBytes;
      }
    }

    /** `rewind()`: the position goes back to 0; the capacity and every
        stored float stay as they are. */
    method Rewind()
      requires Valid()
      modifies this`position
      ensures Valid() && position == 0
      ensures data[..] == old(data[..])
    {
      position := 0;
    }
  }
}
