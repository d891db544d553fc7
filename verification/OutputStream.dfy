/** `pb_ostream_t` over a memory buffer, and the sizing stream that only counts. */
module OutputStream {
  import opened Bits
  import opened Encoding

  /** The buffer, the position in it, and the byte count. */
  datatype OState = OState(mem: seq<byte>, state: nat, written: nat)

  /**
    The effect of emitting `e`. A sizing stream counts it. A writing stream stores it at its position and
    nothing else, if it fits; otherwise it fails having stored a proper prefix of it within its limit.
   */
  ghost predicate Emitted(sizing: bool, maxSize: nat, s: OState, e: Enc, s': OState, ok: bool) {
    if sizing then
      s' == s.(written := s.written + |e.bytes|) && ok == e.ok
    else
      && s.written <= s'.written <= maxSize
      && var n := s'.written - s.written;
         && s'.state == s.state + n <= |s.mem|
         && n <= |e.bytes|
         && s'.mem == s.mem[..s.state] + e.bytes[..n] + s.mem[s'.state..]
         && if s.written + |e.bytes| <= maxSize then n == |e.bytes| && ok == e.ok
            else n < |e.bytes| && !ok
  }

  lemma EmittedNothing(sizing: bool, maxSize: nat, s: OState, ok: bool)
    requires !sizing ==> s.written <= maxSize && s.state <= |s.mem|
    ensures Emitted(sizing, maxSize, s, Enc([], ok), s, ok)
  {
    assert !sizing ==> s.mem == s.mem[..s.state] + [] + s.mem[s.state..];
  }

  lemma EmittedThen(sizing: bool, maxSize: nat, s: OState, a: Enc, s1: OState, b: Enc, s2: OState, ok: bool)
    requires Emitted(sizing, maxSize, s, a, s1, true) && Emitted(sizing, maxSize, s1, b, s2, ok)
    ensures Emitted(sizing, maxSize, s, Then(a, b), s2, ok)
  {
    if !sizing {
      var n := s2.written - s1.written;
      assert s1.mem[..s1.state] == s.mem[..s.state] + a.bytes;
      assert s1.mem[s2.state..] == s.mem[s2.state..];
      assert (a.bytes + b.bytes)[..|a.bytes| + n] == a.bytes + b.bytes[..n];
    }
  }

  lemma EmittedFails(sizing: bool, maxSize: nat, s: OState, a: Enc, s1: OState, b: Enc)
    requires Emitted(sizing, maxSize, s, a, s1, false)
    ensures Emitted(sizing, maxSize, s, Then(a, b), s1, false)
  {
    if !sizing && a.ok {
      var n := s1.written - s.written;
      assert (a.bytes + b.bytes)[..n] == a.bytes[..n];
    }
  }

  lemma NextByte(mem: seq<byte>, at: nat, data: seq<byte>, i: nat)
    requires i < |data| && at + |data| <= |mem|
    ensures (mem[..at] + data[..i] + mem[at + i..])[at + i := data[i]] == mem[..at] + data[..i + 1] + mem[at + i + 1..]
  {
  }

  class OStream {
    /** `callback == NULL`. */
    const sizing: bool
    const dest: array<byte>
    const maxSize: nat
    var state: nat
    var bytesWritten: nat

    ghost predicate Valid()
      reads this
    {
      sizing || (bytesWritten <= maxSize && state + (maxSize - bytesWritten) <= dest.Length)
    }

    ghost function Abs(): OState
      reads this, dest
    {
      OState(dest[..], state, bytesWritten)
    }

    /** Since `before`, exactly `e` was emitted, with this outcome. */
    ghost predicate Sent(before: OState, e: Enc, ok: bool)
      reads this, dest
    {
      Valid() && Emitted(sizing, maxSize, before, e, Abs(), ok)
    }

    /** `pb_ostream_from_buffer` on the part of a buffer that starts at `at`. */
    constructor FromBuffer(buf: array<byte>, at: nat, bufsize: nat)
      requires at + bufsize <= buf.Length
      ensures Valid() && !sizing && dest == buf && maxSize == bufsize && state == at && bytesWritten == 0
    {
      sizing := false;
      dest := buf;
      maxSize := bufsize;
      state := at;
      bytesWritten := 0;
    }

    /** `PB_OSTREAM_SIZING`. */
    constructor Sizing()
      ensures Valid() && sizing && bytesWritten == 0 && fresh(dest)
    {
      sizing := true;
      dest := new byte[0];
      maxSize := 0;
      state := 0;
      bytesWritten := 0;
    }

    /** `buf_write`. */
    method BufWrite(data: seq<byte>)
      requires state + |data| <= dest.Length
      modifies this`state, dest
      ensures state == old(state) + |data|
      ensures dest[..] == old(dest[..state]) + data + old(dest[state + |data|..])
    {
      var at := state;
      state := at + |data|;
      ghost var before := dest[..];
      for i := 0 to |data|
        invariant state == at + |data|
        invariant dest[..] == before[..at] + data[..i] + before[at + i..]
      {
        dest[at + i] := data[i];
        NextByte(before, at, data, i);
      }
      assert data[..|data|] == data;
    }

    /** `pb_write`. */
    method Write(data: seq<byte>) returns (ok: bool)
      requires Valid()
      modifies this, dest
      ensures Sent(old(Abs()), Emit(data), ok)
    {
      if |data| > 0 && !sizing {
        if bytesWritten + |data| > maxSize {
          assert dest[..] == dest[..state] + data[..0] + dest[state..];
          return false;
        }
        BufWrite(data);
      }
      bytesWritten := bytesWritten + |data|;
      ok := true;
      assert data[..|data|] == data;
      assert !sizing && |data| == 0 ==> dest[..] == dest[..state] + data + dest[state..];
    }

    /** `pb_write` without data, on a stream that only counts. */
    method WriteSize(size: nat, ghost data: seq<byte>) returns (ok: bool)
      requires Valid() && sizing && size == |data|
      modifies this, dest
      ensures Sent(old(Abs()), Emit(data), ok)
    {
      bytesWritten := bytesWritten + size;
      ok := true;
    }
  }
}
