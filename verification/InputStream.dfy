/** `pb_istream_t` over a constant memory buffer. */
module InputStream {
  import opened Bits

  class IStream {
    const source: seq<byte>
    var state: nat
    var bytesLeft: nat

    ghost predicate Valid()
      reads this
    {
      state + bytesLeft <= |source|
    }

    /** The bytes this stream may still read. */
    ghost function Remaining(): (bs: seq<byte>)
      requires Valid()
      reads this
      ensures |bs| == bytesLeft
    {
      source[state..state + bytesLeft]
    }

    /** Where this stream ends in the buffer. */
    ghost function End(): nat
      reads this
    {
      state + bytesLeft
    }

    /** The stream still ends at `end`, with `rest` left to read: position and count moved together. */
    ghost predicate Left(end: nat, rest: seq<byte>)
      reads this
    {
      Valid() && End() == end && Remaining() == rest
    }

    /** `pb_istream_from_buffer`, on a part of the buffer. */
    constructor (buf: seq<byte>, at: nat, size: nat)
      requires at + size <= |buf|
      ensures Valid() && source == buf && state == at && bytesLeft == size
      ensures Remaining() == buf[at..at + size]
    {
      source := buf;
      state := at;
      bytesLeft := size;
    }

    /** `pb_read` into memory, with the copying loop of `buf_read`. */
    method Read(buf: array<byte>, count: nat) returns (ok: bool)
      requires Valid() && count <= buf.Length
      modifies this, buf
      ensures Valid() && ok == (count <= old(bytesLeft))
      ensures ok ==> buf[..count] == old(Remaining()[..count]) && Left(old(End()), old(Remaining()[count..]))
      ensures buf[count..] == old(buf[count..])
      ensures !ok ==> state == old(state) && bytesLeft == old(bytesLeft)
    {
      if count == 0 {
        return true;
      }
      if bytesLeft < count {
        return false;
      }
      var at := state;
      state := at + count;
      bytesLeft := bytesLeft - count;
      for i := 0 to count
        invariant state == at + count && bytesLeft == old(bytesLeft) - count
        invariant buf[..i] == source[at..at + i]
        invariant buf[count..] == old(buf[count..])
      {
        buf[i] := source[at + i];
        assert buf[..i + 1] == buf[..i] + [source[at + i]];
      }
      ok := true;
    }

    /** `pb_read` with a null destination. */
    method Skip(count: nat) returns (ok: bool)
      requires Valid()
      modifies this
      ensures Valid() && ok == (count <= old(bytesLeft))
      ensures ok ==> Left(old(End()), old(Remaining()[count..]))
      ensures !ok ==> state == old(state) && bytesLeft == old(bytesLeft)
    {
      if count == 0 {
        return true;
      }
      if bytesLeft < count {
        return false;
      }
      state := state + count;
      bytesLeft := bytesLeft - count;
      ok := true;
    }

    /** `pb_readbyte`. */
    method ReadByte() returns (ok: bool, b: byte)
      requires Valid()
      modifies this
      ensures Valid() && ok == (old(bytesLeft) > 0)
      ensures ok ==> b == old(Remaining()[0]) && Left(old(End()), old(Remaining()[1..]))
      ensures !ok ==> state == old(state) && bytesLeft == old(bytesLeft)
    {
      if bytesLeft == 0 {
        return false, 0;
      }
      ok, b := true, source[state];
      state := state + 1;
      bytesLeft := bytesLeft - 1;
    }
  }
}
