/** The block cipher the modes are built on: a pair of functions over 16-byte blocks, left abstract. */
module BlockCiphers {
  import opened Buffers
  import opened Bytes

  datatype BlockCipher = BlockCipher(Encrypt: Block -> Block, Decrypt: Block -> Block)

  /** What every block cipher guarantees: encryption is a permutation and decryption its inverse. */
  ghost predicate Invertible(c: BlockCipher) {
    (forall b: Block :: c.Decrypt(c.Encrypt(b)) == b) && (forall b: Block :: c.Encrypt(c.Decrypt(b)) == b)
  }

  /** The key schedule: one cipher for each key. */
  type Aes = seq<byte> -> BlockCipher

  predicate AesKeySize(n: nat) {
    n == 16 || n == 24 || n == 32
  }

  /** aes.NewCipher, which refuses keys of any other size. */
  function NewCipher(aes: Aes, key: seq<byte>): Option<BlockCipher> {
    if AesKeySize(|key|) then Some(aes(key)) else None
  }

  // ---------- the in-place helpers of the byte-slice code ----------

  method EncryptInto(c: BlockCipher, dst: array<byte>, src: array<byte>)
    requires dst.Length == 16 && src.Length == 16
    modifies dst
    ensures dst[..] == c.Encrypt(old(src[..]))
  {
    SetBlock(dst, c.Encrypt(src[..]));
  }

  method DecryptInto(c: BlockCipher, dst: array<byte>, src: array<byte>)
    requires dst.Length == 16 && src.Length == 16
    modifies dst
    ensures dst[..] == c.Decrypt(old(src[..]))
  {
    SetBlock(dst, c.Decrypt(src[..]));
  }

  /** s with the 16 bytes from `lo` replaced by x. */
  ghost function Spliced(s: seq<byte>, lo: nat, x: Block): (r: seq<byte>)
    requires lo + 16 <= |s|
    ensures |r| == |s|
  {
    s[..lo] + x + s[lo + 16..]
  }

  /** tmp becomes src[off..off + 16] xor t, byte by byte. */
  method XorFrom(tmp: array<byte>, src: array<byte>, off: nat, t: array<byte>)
    requires tmp.Length == 16 && off + 16 <= src.Length && t.Length == 16
    requires tmp != src && tmp != t
    modifies tmp
    ensures tmp[..] == Xor(src[..][off..off + 16], t[..])
  {
    for i := 0 to 16
      invariant forall k :: 0 <= k < i ==> tmp[k] == XorByte(src[off + k], t[k])
    {
      tmp[i] := XorByte(src[off + i], t[i]);
    }
  }

  /** dst[off..off + 16] becomes a xor t, byte by byte. */
  method XorTo(dst: array<byte>, off: nat, a: array<byte>, t: array<byte>)
    requires off + 16 <= dst.Length && a.Length == 16 && t.Length == 16
    requires dst != a && dst != t
    modifies dst
    ensures dst[..] == Spliced(old(dst[..]), off, Xor(a[..], t[..]))
  {
    for i := 0 to 16
      invariant forall k :: 0 <= k < i ==> dst[off + k] == XorByte(a[k], t[k])
      invariant forall k :: 0 <= k < off || off + i <= k < dst.Length ==> dst[k] == old(dst[k])
    {
      dst[off + i] := XorByte(a[i], t[i]);
    }
  }

  /** A fresh 16-byte block holding n in its first 8 bytes, little-endian. */
  method NumberBlock(n: nat) returns (buf: array<byte>)
    ensures fresh(buf) && buf.Length == 16 && buf[..] == LE(n, 8) + LE(0, 8)
  {
    buf := new byte[16];
    Zero(buf);
    CopyInto(buf, 0, LE(n, 8));
    ZeroLE();
    assert buf[..] == buf[0..8] + buf[8..];
  }

  lemma ZeroLE()
    ensures LE(0, 8) == [0, 0, 0, 0, 0, 0, 0, 0]
  {
    assert LE(0, 6) == [0, 0, 0, 0, 0, 0] by { assert LE(0, 4) == [0, 0, 0, 0]; }
  }

  /** A buffer of which the first `off` bytes have been rewritten to those of `plain`. */
  ghost function Written(plain: seq<byte>, was: seq<byte>, off: nat): (r: seq<byte>)
    requires off <= |plain| <= |was|
    ensures |r| == |was|
  {
    plain[..off] + was[off..]
  }

  lemma WrittenStep(plain: seq<byte>, was: seq<byte>, off: nat)
    requires off + 16 <= |plain| <= |was|
    ensures Written(plain, was, off)[off..off + 16] == was[off..off + 16]
    ensures Spliced(Written(plain, was, off), off, plain[off..off + 16]) == Written(plain, was, off + 16)
  {
  }

  lemma AllWritten(plain: seq<byte>, was: seq<byte>)
    requires |plain| <= |was|
    ensures Written(plain, was, |plain|) == plain + was[|plain|..]
  {
  }

  /** A sector decrypted up to `off`: src keeps its bytes unless dst is the same array. */
  ghost predicate Progress(dst: array<byte>, src: array<byte>, plain: seq<byte>,
                           dstWas: seq<byte>, srcWas: seq<byte>, off: nat)
    reads dst, src
  {
    off <= |plain| <= |dstWas| && |plain| <= |srcWas| && (src == dst ==> srcWas == dstWas) &&
    dst[..] == Written(plain, dstWas, off) && (src != dst ==> src[..] == srcWas)
  }

  /** The part of src still to be decrypted is what it was, even where src is dst. */
  lemma NextBlock(dst: array<byte>, src: array<byte>, plain: seq<byte>, dstWas: seq<byte>, srcWas: seq<byte>, off: nat)
    requires Progress(dst, src, plain, dstWas, srcWas, off) && off + 16 <= |plain|
    ensures off + 16 <= src.Length && src[..][off..off + 16] == srcWas[off..off + 16]
    ensures Spliced(dst[..], off, plain[off..off + 16]) == Written(plain, dstWas, off + 16)
  {
    assert |src[..]| == src.Length;
    WrittenStep(plain, dstWas, off);
  }

  /** The block a 64-bit number is encrypted as: that number, little-endian, in all sixteen bytes. */
  lemma NumberAsBlock(n: nat, b: Block)
    requires FromLE(b) == n % 0x1_0000_0000_0000_0000
    ensures b == LE(n, 8) + LE(0, 8)
  {
    ZeroLE();
    Pow256Values();
    FromLEOfAnyLE(n, 8);
    FromLEOfPadded(LE(n, 8), LE(0, 8));
    FromLEInjective(b, LE(n, 8) + LE(0, 8));
  }
}
