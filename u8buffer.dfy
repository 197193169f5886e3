/**
 * The append-only byte vector the client assembles long messages in.
 * Each write grows the vector at its end; nothing before the old end moves.
 */
module Buffer {
  import opened Wire

  class U8Buffer {
    var buffer: Bytes

    constructor ()
      ensures buffer == []
    {
      buffer := [];
    }

    method Clear()
      modifies this
      ensures buffer == []
    {
      buffer := [];
    }

    /** Appends the 4 bytes of a 32-bit store of `v`. */
    method WriteInt(v: int)
      modifies this
      ensures buffer == old(buffer) + EncodeInt32(v)
      ensures |buffer| == |old(buffer)| + 4
      ensures buffer[..|old(buffer)|] == old(buffer)
      ensures buffer[|old(buffer)|..] == EncodeInt32(v)
    {
      var oldLen := |buffer|;
      buffer := buffer + EncodeInt32(v);
      assert buffer[..oldLen] == old(buffer);
    }

    /** Appends the 4 bytes of the float `v`. */
    method WriteFloat(v: FloatBits)
      modifies this
      ensures buffer == old(buffer) + v
      ensures |buffer| == |old(buffer)| + 4
      ensures buffer[..|old(buffer)|] == old(buffer)
      ensures buffer[|old(buffer)|..] == v
    {
      var oldLen := |buffer|;
      buffer := buffer + v;
      assert buffer[..oldLen] == old(buffer);
    }

    /** Appends the first `len` bytes of `v`. */
    method WriteBytes(v: Bytes, len: int)
      requires 0 <= len <= |v|
      modifies this
      ensures buffer == old(buffer) + v[..len]
      ensures |buffer| == |old(buffer)| + len
      ensures buffer[..|old(buffer)|] == old(buffer)
      ensures buffer[|old(buffer)|..] == v[..len]
    {
      var oldLen := |buffer|;
      buffer := buffer + v[..len];
      assert buffer[..oldLen] == old(buffer);
    }
  }
}
