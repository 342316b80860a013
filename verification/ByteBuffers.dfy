/** Bytes, words and buffers filled through a moving pointer. */
module ByteBuffers {
  type Byte = x: int | 0 <= x < 256
  type Bytes = seq<Byte>
  type UInt32 = x: int | 0 <= x < 0x1_0000_0000

  /** memcpy into a buffer; returns the pointer behind the copy. */
  method Copy(buffer: array<Byte>, at: nat, bytes: Bytes) returns (after: nat)
    requires at + |bytes| <= buffer.Length
    modifies buffer
    ensures after == at + |bytes|
    ensures buffer[after..] == old(buffer[after..])
    ensures buffer[..after] == old(buffer[..at]) + bytes
  {
    var i := 0;
    while i < |bytes|
      invariant 0 <= i <= |bytes|
      invariant buffer[at + i..] == old(buffer[at + i..])
      invariant buffer[..at + i] == old(buffer[..at]) + bytes[..i]
    {
      buffer[at + i] := bytes[i];
      i := i + 1;
      assert bytes[..i] == bytes[..i - 1] + [bytes[i - 1]];
    }
    after := at + |bytes|;
    assert bytes[..|bytes|] == bytes;
  }
}
