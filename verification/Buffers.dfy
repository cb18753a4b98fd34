/** The operations on byte slices the code is made of: copying into a buffer and clearing it. */
module Buffers {
  import opened Bytes

  /** copy(buf[lo:], s), for an s that fits. */
  method CopyInto(buf: array<byte>, lo: nat, s: seq<byte>)
    requires lo + |s| <= buf.Length
    modifies buf
    ensures buf[lo..lo + |s|] == s
    ensures forall i :: 0 <= i < lo || lo + |s| <= i < buf.Length ==> buf[i] == old(buf[i])
  {
    for k := 0 to |s|
      invariant forall i :: 0 <= i < k ==> buf[lo + i] == s[i]
      invariant forall i :: 0 <= i < lo || lo + k <= i < buf.Length ==> buf[i] == old(buf[i])
    {
      buf[lo + k] := s[k];
    }
  }

  /** The same, the rest of the buffer described as slices. */
  method CopySlice(buf: array<byte>, lo: nat, s: seq<byte>)
    requires lo + |s| <= buf.Length
    modifies buf
    ensures buf[lo..lo + |s|] == s
    ensures buf[..lo] == old(buf[..lo]) && buf[lo + |s|..] == old(buf[lo + |s|..])
  {
    CopyInto(buf, lo, s);
  }

  method Zero(buf: array<byte>)
    modifies buf
    ensures forall i :: 0 <= i < buf.Length ==> buf[i] == 0
  {
    for i := 0 to buf.Length
      invariant forall k :: 0 <= k < i ==> buf[k] == 0
    {
      buf[i] := 0;
    }
  }

  /** copy(buf, s) into a block-sized buffer. */
  method SetBlock(buf: array<byte>, s: Block)
    requires buf.Length == 16
    modifies buf
    ensures buf[..] == s
  {
    CopyInto(buf, 0, s);
    assert buf[..] == buf[0..16];
  }
}
