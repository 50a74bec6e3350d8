/** The converter's byte cursor: a read-only buffer and a position that every
    read advances. Reads are unchecked in the converter, so every read here
    requires that the buffer covers it. */
module ByteStreams {
  import opened Bytes

  class ByteStream {
    const data: seq<u8>
    var position: nat

    constructor (bytes: seq<u8>)
      ensures data == bytes && position == 0
    {
      data := bytes;
      position := 0;
    }

    method SetPosition(p: nat)
      modifies this
      ensures position == p
    {
      position := p;
    }

    /** Copies the next `n` bytes out (`read(dst, n)`). */
    method Read(n: nat) returns (bytes: seq<u8>)
      requires position + n <= |data|
      modifies this
      ensures bytes == data[old(position)..old(position) + n]
      ensures position == old(position) + n
    {
      bytes := data[position..position + n];
      position := position + n;
    }

    method ReadU8() returns (v: u8)
      requires position + 1 <= |data|
      modifies this
      ensures v == data[old(position)]
      ensures position == old(position) + 1
    {
      v := data[position];
      position := position + 1;
    }

    method ReadU16() returns (v: u16)
      requires position + 2 <= |data|
      modifies this
      ensures v == Bytes.ReadU16(data, old(position))
      ensures position == old(position) + 2
    {
      v := Bytes.ReadU16(data, position);
      position := position + 2;
    }

    method ReadU32() returns (v: u32)
      requires position + 4 <= |data|
      modifies this
      ensures v == Bytes.ReadU32(data, old(position))
      ensures position == old(position) + 4
    {
      v := Bytes.ReadU32(data, position);
      position := position + 4;
    }

    method ReadU64() returns (v: u64)
      requires position + 8 <= |data|
      modifies this
      ensures v == Bytes.ReadU64(data, old(position))
      ensures position == old(position) + 8
    {
      v := Bytes.ReadU64(data, position);
      position := position + 8;
    }

    /** `read(&value, n)` into a zero-initialised integer wider than `n` bytes. */
    method ReadPartial(n: nat) returns (v: nat)
      requires position + n <= |data|
      modifies this
      ensures v == ReadLE(data, old(position), n)
      ensures position == old(position) + n
    {
      v := ReadLE(data, position, n);
      position := position + n;
    }
  }
}
