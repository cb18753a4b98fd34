/** The disk under everything, and reading from it. */
module Disks {
  import opened Bytes
  import opened Buffers

  datatype ReadError = EOF | NotInitialized

  /** What the source has of n bytes from off on. */
  function DiskBytes(disk: seq<byte>, off: nat, n: nat): (s: seq<byte>)
    ensures |s| <= n
  {
    if off >= |disk| then [] else if |disk| - off < n then disk[off..] else disk[off..off + n]
  }

  lemma AllDiskBytes(disk: seq<byte>, off: nat, n: nat)
    requires n > 0
    ensures |DiskBytes(disk, off, n)| == n <==> off + n <= |disk|
    ensures off + n <= |disk| ==> DiskBytes(disk, off, n) == disk[off..off + n]
  {
  }

  /** The underlying ReadAt into buf[lo..lo + n]; it may use the rest of that range as scratch space. */
  method DiskReadAt(disk: seq<byte>, buf: array<byte>, lo: nat, n: nat, off: nat)
      returns (m: nat, err: Option<ReadError>)
    requires lo + n <= buf.Length
    modifies buf
    ensures m == |DiskBytes(disk, off, n)| && buf[lo..lo + m] == DiskBytes(disk, off, n)
    ensures err == if m == n then None else Some(EOF)
    ensures buf[..lo] == old(buf[..lo]) && buf[lo + n..] == old(buf[lo + n..])
  {
    var s := DiskBytes(disk, off, n);
    m := |s|;
    CopySlice(buf, lo, s);
    err := if m == n then None else Some(EOF);
  }
}
