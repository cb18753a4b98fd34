/** CBC sector decryption, section 6.2 of NIST SP 800-38A, with the encrypted byte offset as IV. */
module Cbc {
  import opened Buffers
  import opened Bytes
  import opened BlockCiphers

  datatype CbcCipher = CbcCipher(block: BlockCipher, sectorSize: nat)

  datatype CipherError = InvalidKeyLength | InvalidSectorSize | InvalidAesKey

  function NewCbcCipher(aes: Aes, fvek: seq<byte>, sectorSize: int): (r: Result<CbcCipher, CipherError>)
    ensures r.Ok? <==> (|fvek| == 16 || |fvek| == 32) && sectorSize > 0 && sectorSize % 16 == 0
    ensures r.Ok? ==> r.value == CbcCipher(aes(fvek), sectorSize)
    ensures r == Err(InvalidKeyLength) <==> |fvek| !in {16, 32}
  {
    if |fvek| != 16 && |fvek| != 32 then Err(InvalidKeyLength)
    else if sectorSize <= 0 || sectorSize % 16 != 0 then Err(InvalidSectorSize)
    else
      var b := NewCipher(aes, fvek);
      if b.None? then Err(InvalidAesKey) else Ok(CbcCipher(b.value, sectorSize))
  }

  /** The IV of a sector: its byte offset, 64 little-endian bits, encrypted as one block. */
  function Iv(c: CbcCipher, sectorNum: nat): Block {
    c.block.Encrypt(LE(sectorNum * c.sectorSize, 8) + LE(0, 8))
  }

  function EncryptChain(c: BlockCipher, prev: Block, ps: seq<Block>): (cs: seq<Block>)
    ensures |cs| == |ps|
    decreases |ps|
  {
    if ps == [] then []
    else
      var b := c.Encrypt(Xor(ps[0], prev));
      [b] + EncryptChain(c, b, ps[1..])
  }

  function DecryptBlock(c: BlockCipher, prev: Block, b: Block): Block {
    Xor(c.Decrypt(b), prev)
  }

  function DecryptChain(c: BlockCipher, prev: Block, cs: seq<Block>): (ps: seq<Block>)
    ensures |ps| == |cs|
  {
    seq(|cs|, j requires 0 <= j < |cs| => DecryptBlock(c, if j == 0 then prev else cs[j - 1], cs[j]))
  }

  function Encrypt(c: CbcCipher, sectorNum: nat, s: seq<byte>): (r: seq<byte>)
    requires |s| % 16 == 0
    ensures |r| == |s|
  {
    Join(EncryptChain(c.block, Iv(c, sectorNum), Split(s)))
  }

  function Decrypt(c: CbcCipher, sectorNum: nat, s: seq<byte>): (r: seq<byte>)
    requires |s| % 16 == 0
    ensures |r| == |s|
  {
    Join(DecryptChain(c.block, Iv(c, sectorNum), Split(s)))
  }

  /** The ciphertext block before block j, the IV standing before the first. */
  function Previous(c: CbcCipher, sectorNum: nat, s: seq<byte>, j: nat): Block
    requires 16 * j <= |s|
  {
    if j == 0 then Iv(c, sectorNum) else s[16 * j - 16..16 * j]
  }

  lemma DecryptAt(c: CbcCipher, sectorNum: nat, s: seq<byte>, n: nat, j: nat)
    requires n <= |s| && n % 16 == 0 && j < n / 16
    ensures Decrypt(c, sectorNum, s[..n])[16 * j..16 * j + 16]
         == DecryptBlock(c.block, Previous(c, sectorNum, s, j), s[16 * j..16 * j + 16])
  {
    assert Split(s[..n])[j] == s[16 * j..16 * j + 16];
    assert j > 0 ==> Split(s[..n])[j - 1] == s[16 * j - 16..16 * j];
    JoinAt(DecryptChain(c.block, Iv(c, sectorNum), Split(s[..n])), j);
  }

  method DecryptStep(c: BlockCipher, dst: array<byte>, src: array<byte>, off: nat, prev: array<byte>, dec: array<byte>,
                     ctCopy: array<byte>, ghost plain: seq<byte>, ghost dstWas: seq<byte>, ghost srcWas: seq<byte>)
    requires ctCopy.Length == 16 && prev.Length == 16 && dec.Length == 16
    requires {dec, ctCopy, prev} !! {src, dst} && dec != prev && dec != ctCopy && prev != ctCopy
    requires Progress(dst, src, plain, dstWas, srcWas, off) && off + 16 <= |plain|
    requires plain[off..off + 16] == DecryptBlock(c, prev[..], srcWas[off..off + 16])
    modifies dst, dec, ctCopy, prev
    ensures Progress(dst, src, plain, dstWas, srcWas, off + 16)
    ensures prev[..] == srcWas[off..off + 16]
  {
    NextBlock(dst, src, plain, dstWas, srcWas, off);
    SetBlock(ctCopy, src[..][off..off + 16]);
    DecryptInto(c, dec, ctCopy);
    XorTo(dst, off, dec, prev);
    SetBlock(prev, ctCopy[..]);
  }

  /** The block loop, from the IV on. */
  method DecryptLoop(c: CbcCipher, dst: array<byte>, src: array<byte>, n: nat, ghost sectorNum: nat,
                     prev: array<byte>, ghost dstWas: seq<byte>, ghost srcWas: seq<byte>)
    requires n <= |srcWas| && n % 16 == 0
    requires prev.Length == 16 && prev != src && prev != dst
    requires prev[..] == Previous(c, sectorNum, srcWas, 0)
    requires Progress(dst, src, Decrypt(c, sectorNum, srcWas[..n]), dstWas, srcWas, 0)
    modifies dst, prev
    ensures Progress(dst, src, Decrypt(c, sectorNum, srcWas[..n]), dstWas, srcWas, n)
  {
    ghost var plain := Decrypt(c, sectorNum, srcWas[..n]);
    var dec := new byte[16];
    var ctCopy := new byte[16];
    var off := 0;
    ghost var j, blocks := 0, n / 16;
    while off < n
      invariant 0 <= j <= blocks && off == 16 * j && n == 16 * blocks
      invariant prev[..] == Previous(c, sectorNum, srcWas, j)
      invariant Progress(dst, src, plain, dstWas, srcWas, off)
    {
      DecryptAt(c, sectorNum, srcWas, n, j);
      DecryptStep(c.block, dst, src, off, prev, dec, ctCopy, plain, dstWas, srcWas);
      off, j := off + 16, j + 1;
    }
    assert off == n;
  }

  /** Decrypts src[..n] into dst[..n]; src and dst may be the same array. */
  method DecryptSector(c: CbcCipher, dst: array<byte>, src: array<byte>, n: nat, sectorNum: nat)
    requires n <= dst.Length && n <= src.Length && n % 16 == 0 && n == c.sectorSize
    modifies dst
    ensures dst[..] == Decrypt(c, sectorNum, old(src[..n])) + old(dst[n..])
  {
    ghost var srcWas, dstWas := src[..], dst[..];
    assert src[..n] == srcWas[..n] && dst[n..] == dstWas[n..];
    var sectorOffsetBytes := sectorNum * c.sectorSize;
    var ivPlain := NumberBlock(sectorOffsetBytes);
    var iv := new byte[16];
    EncryptInto(c.block, iv, ivPlain);
    DecryptLoop(c, dst, src, n, sectorNum, iv, dstWas, srcWas);
    AllWritten(Decrypt(c, sectorNum, srcWas[..n]), dstWas);
  }

  // ---------- round trip ----------

  lemma DecryptChainCons(c: BlockCipher, prev: Block, b: Block, rest: seq<Block>)
    ensures DecryptChain(c, prev, [b] + rest) == [DecryptBlock(c, prev, b)] + DecryptChain(c, b, rest)
  {
  }

  lemma EncryptChainCons(c: BlockCipher, prev: Block, p: Block, rest: seq<Block>)
    ensures var b := c.Encrypt(Xor(p, prev));
            EncryptChain(c, prev, [p] + rest) == [b] + EncryptChain(c, b, rest)
  {
    assert ([p] + rest)[1..] == rest;
  }

  lemma {:induction false} ChainRoundTrip(c: BlockCipher, prev: Block, ps: seq<Block>)
    requires Invertible(c)
    ensures DecryptChain(c, prev, EncryptChain(c, prev, ps)) == ps
    decreases |ps|
  {
    if ps != [] {
      var (p, rest) := (ps[0], ps[1..]);
      var b := c.Encrypt(Xor(p, prev));
      assert ps == [p] + rest;
      EncryptChainCons(c, prev, p, rest);
      ChainRoundTrip(c, b, rest);
      DecryptChainCons(c, prev, b, EncryptChain(c, b, rest));
      XorCancels(p, prev);
    }
  }

  lemma {:induction false} ChainRoundTripBack(c: BlockCipher, prev: Block, cs: seq<Block>)
    requires Invertible(c)
    ensures EncryptChain(c, prev, DecryptChain(c, prev, cs)) == cs
    decreases |cs|
  {
    if cs != [] {
      var (b, rest) := (cs[0], cs[1..]);
      assert cs == [b] + rest;
      DecryptChainCons(c, prev, b, rest);
      ChainRoundTripBack(c, b, rest);
      EncryptChainCons(c, prev, DecryptBlock(c, prev, b), DecryptChain(c, b, rest));
      XorCancels(c.Decrypt(b), prev);
    }
  }

  lemma RoundTrip(c: CbcCipher, sectorNum: nat, s: seq<byte>)
    requires Invertible(c.block) && |s| % 16 == 0
    ensures Decrypt(c, sectorNum, Encrypt(c, sectorNum, s)) == s
    ensures Encrypt(c, sectorNum, Decrypt(c, sectorNum, s)) == s
  {
    var iv := Iv(c, sectorNum);
    JoinSplit(s);
    SplitJoin(EncryptChain(c.block, iv, Split(s)));
    ChainRoundTrip(c.block, iv, Split(s));
    SplitJoin(DecryptChain(c.block, iv, Split(s)));
    ChainRoundTripBack(c.block, iv, Split(s));
  }

  /** A cipher set up for sectors of some size takes sectors of that size, and undoes their encryption. */
  lemma NewCipherRoundTrip(aes: Aes, fvek: seq<byte>, sectorNum: nat, s: seq<byte>)
    requires s != [] && Invertible(aes(fvek))
    ensures var r := NewCbcCipher(aes, fvek, |s|);
            (r.Ok? <==> |fvek| in {16, 32} && |s| % 16 == 0) &&
            (r.Ok? ==> r.value.sectorSize == |s| && Decrypt(r.value, sectorNum, Encrypt(r.value, sectorNum, s)) == s)
  {
    var r := NewCbcCipher(aes, fvek, |s|);
    if r.Ok? {
      RoundTrip(r.value, sectorNum, s);
    }
  }

  // ---------- against section 6.2 of the standard ----------

  /** Block j of a sector: b is the byte offset of the sector as a block, and its encryption stands before block 0. */
  lemma DecryptsAsStandard(c: CbcCipher, sectorNum: nat, s: seq<byte>, j: nat, b: Block)
    requires |s| % 16 == 0 && 16 * j + 16 <= |s|
    requires FromLE(b) == sectorNum * c.sectorSize % 0x1_0000_0000_0000_0000
    ensures Decrypt(c, sectorNum, s)[16 * j..16 * j + 16]
         == Xor(c.block.Decrypt(s[16 * j..16 * j + 16]), if j == 0 then c.block.Encrypt(b) else s[16 * j - 16..16 * j])
  {
    NumberAsBlock(sectorNum * c.sectorSize, b);
    assert s[..|s|] == s;
    DecryptAt(c, sectorNum, s, |s|, j);
  }
}
