/** XTS sector decryption, section 5.4 of IEEE Std 1619-2007, for sectors of whole blocks. */
module Xts {
  import opened Bytes
  import opened BlockCiphers
  import opened GfMul

  datatype XtsCipher = XtsCipher(dataKey: BlockCipher, tweakKey: BlockCipher)

  datatype KeyError = InvalidKeyLength | InvalidAesKey

  /** The volume key is the data key followed by the tweak key; once its length is right AES takes both. */
  function NewXtsCipher(aes: Aes, fvek: seq<byte>): (r: Result<XtsCipher, KeyError>)
    ensures r.Ok? <==> |fvek| == 32 || |fvek| == 64
    ensures r.Ok? ==> r.value == XtsCipher(aes(fvek[..|fvek| / 2]), aes(fvek[|fvek| / 2..]))
  {
    if |fvek| != 32 && |fvek| != 64 then Err(InvalidKeyLength)
    else
      var half := |fvek| / 2;
      var (b1, b2) := (NewCipher(aes, fvek[..half]), NewCipher(aes, fvek[half..]));
      if b1.None? || b2.None? then Err(InvalidAesKey) else Ok(XtsCipher(b1.value, b2.value))
  }

  /** The ciphers that can be set up are those of two AES-128 or two AES-256 keys, one written after the other. */
  lemma CipherOfTwoKeys(aes: Aes, fvek: seq<byte>, c: XtsCipher)
    ensures NewXtsCipher(aes, fvek) == Ok(c) <==>
            exists k1: seq<byte>, k2: seq<byte> ::
              |k1| == |k2| && |k1| in {16, 32} && fvek == k1 + k2 && c == XtsCipher(aes(k1), aes(k2))
  {
    if NewXtsCipher(aes, fvek) == Ok(c) {
      var (k1, k2) := (fvek[..|fvek| / 2], fvek[|fvek| / 2..]);
      assert fvek == k1 + k2 && |k1| == |k2|;
    }
    if k1: seq<byte>, k2: seq<byte> :|
         |k1| == |k2| && |k1| in {16, 32} && fvek == k1 + k2 && c == XtsCipher(aes(k1), aes(k2)) {
      assert fvek[..|fvek| / 2] == k1 && fvek[|fvek| / 2..] == k2;
    }
  }

  /** alpha^j * E_key2(sector number), the number as 64 little-endian bits. */
  function Tweak(c: XtsCipher, sectorNum: nat, j: nat): Block {
    MulXPow(c.tweakKey.Encrypt(LE(sectorNum, 8) + LE(0, 8)), j)
  }

  function DecryptBlock(c: XtsCipher, t: Block, b: Block): Block {
    Xor(c.dataKey.Decrypt(Xor(b, t)), t)
  }

  function EncryptBlock(c: XtsCipher, t: Block, b: Block): Block {
    Xor(c.dataKey.Encrypt(Xor(b, t)), t)
  }

  function DecryptBlocks(c: XtsCipher, sectorNum: nat, bs: seq<Block>): (r: seq<Block>)
    ensures |r| == |bs|
  {
    seq(|bs|, j requires 0 <= j < |bs| => DecryptBlock(c, Tweak(c, sectorNum, j), bs[j]))
  }

  function EncryptBlocks(c: XtsCipher, sectorNum: nat, bs: seq<Block>): (r: seq<Block>)
    ensures |r| == |bs|
  {
    seq(|bs|, j requires 0 <= j < |bs| => EncryptBlock(c, Tweak(c, sectorNum, j), bs[j]))
  }

  function Decrypt(c: XtsCipher, sectorNum: nat, s: seq<byte>): (r: seq<byte>)
    requires |s| % 16 == 0
    ensures |r| == |s|
  {
    Join(DecryptBlocks(c, sectorNum, Split(s)))
  }

  function Encrypt(c: XtsCipher, sectorNum: nat, s: seq<byte>): (r: seq<byte>)
    requires |s| % 16 == 0
    ensures |r| == |s|
  {
    Join(EncryptBlocks(c, sectorNum, Split(s)))
  }

  lemma DecryptAt(c: XtsCipher, sectorNum: nat, s: seq<byte>, n: nat, j: nat)
    requires n <= |s| && n % 16 == 0 && j < n / 16
    ensures Decrypt(c, sectorNum, s[..n])[16 * j..16 * j + 16]
         == DecryptBlock(c, Tweak(c, sectorNum, j), s[16 * j..16 * j + 16])
  {
    assert Split(s[..n])[j] == s[16 * j..16 * j + 16];
    JoinAt(DecryptBlocks(c, sectorNum, Split(s[..n])), j);
  }

  method DecryptStep(c: XtsCipher, dst: array<byte>, src: array<byte>, off: nat, tweak: array<byte>, tmp: array<byte>,
                     ghost plain: seq<byte>, ghost dstWas: seq<byte>, ghost srcWas: seq<byte>)
    requires tweak.Length == 16 && tmp.Length == 16
    requires tmp != tweak && tmp != src && tmp != dst && dst != tweak
    requires Progress(dst, src, plain, dstWas, srcWas, off) && off + 16 <= |plain|
    requires plain[off..off + 16] == DecryptBlock(c, tweak[..], srcWas[off..off + 16])
    modifies dst, tmp
    ensures Progress(dst, src, plain, dstWas, srcWas, off + 16)
  {
    NextBlock(dst, src, plain, dstWas, srcWas, off);
    XorFrom(tmp, src, off, tweak);
    DecryptInto(c.dataKey, tmp, tmp);
    XorTo(dst, off, tmp, tweak);
  }

  /** Block j of plain is the decryption of the same block of s, under the j-th tweak. */
  ghost predicate BlockDecrypts(c: XtsCipher, tweaks: seq<Block>, s: seq<byte>, plain: seq<byte>, j: nat) {
    j < |tweaks| && 16 * j + 16 <= |plain| <= |s| &&
    plain[16 * j..16 * j + 16] == DecryptBlock(c, tweaks[j], s[16 * j..16 * j + 16])
  }

  ghost predicate BlocksDecrypt(c: XtsCipher, tweaks: seq<Block>, s: seq<byte>, plain: seq<byte>, blocks: nat) {
    forall j: nat :: j < blocks ==> BlockDecrypts(c, tweaks, s, plain, j)
  }

  /** Each tweak is the double of the one before. */
  ghost predicate Doubling(tweaks: seq<Block>) {
    forall j: nat {:trigger MulX(tweaks[j])} :: j + 1 < |tweaks| ==> tweaks[j + 1] == MulX(tweaks[j])
  }

  lemma TweaksDouble(c: XtsCipher, sectorNum: nat, n: nat) returns (tweaks: seq<Block>)
    ensures |tweaks| == n && Doubling(tweaks) && forall j :: 0 <= j < n ==> tweaks[j] == Tweak(c, sectorNum, j)
  {
    tweaks := seq(n, j requires 0 <= j => Tweak(c, sectorNum, j));
  }

  lemma BlockIsDecrypted(c: XtsCipher, sectorNum: nat, s: seq<byte>, n: nat, tweaks: seq<Block>,
                         plain: seq<byte>, j: nat)
    requires n <= |s| && n % 16 == 0 && j < n / 16 && plain == Decrypt(c, sectorNum, s[..n])
    requires j < |tweaks| && tweaks[j] == Tweak(c, sectorNum, j)
    ensures BlockDecrypts(c, tweaks, s, plain, j)
  {
    DecryptAt(c, sectorNum, s, n, j);
  }

  /** The tweaks of a sector, and the plaintext as what they decrypt it to. */
  lemma SectorTweaks(c: XtsCipher, sectorNum: nat, s: seq<byte>, n: nat, plain: seq<byte>) returns (tweaks: seq<Block>)
    requires n <= |s| && n % 16 == 0 && plain == Decrypt(c, sectorNum, s[..n])
    ensures |tweaks| == n / 16 + 1 && tweaks[0] == Tweak(c, sectorNum, 0) && Doubling(tweaks)
    ensures BlocksDecrypt(c, tweaks, s, plain, n / 16)
  {
    tweaks := TweaksDouble(c, sectorNum, n / 16 + 1);
    forall j: nat | j < n / 16 ensures BlockDecrypts(c, tweaks, s, plain, j) {
      BlockIsDecrypted(c, sectorNum, s, n, tweaks, plain, j);
    }
  }

  method NextTweak(tweak: array<byte>, ghost tweaks: seq<Block>, ghost j: nat)
    requires tweak.Length == 16 && j + 1 < |tweaks| && Doubling(tweaks) && tweak[..] == tweaks[j]
    modifies tweak
    ensures tweak[..] == tweaks[j + 1]
  {
    GfMulX(tweak);
  }

  /** One turn of the block loop. */
  method DecryptTurn(c: XtsCipher, dst: array<byte>, src: array<byte>, off: nat, tweak: array<byte>, tmp: array<byte>,
                     ghost tweaks: seq<Block>, ghost j: nat,
                     ghost plain: seq<byte>, ghost dstWas: seq<byte>, ghost srcWas: seq<byte>)
    requires tweak.Length == 16 && tmp.Length == 16
    requires tmp != tweak && tmp != src && tmp != dst && dst != tweak && src != tweak
    requires Progress(dst, src, plain, dstWas, srcWas, off) && off == 16 * j
    requires j + 1 < |tweaks| && Doubling(tweaks) && tweak[..] == tweaks[j]
    requires BlockDecrypts(c, tweaks, srcWas, plain, j)
    modifies dst, tmp, tweak
    ensures Progress(dst, src, plain, dstWas, srcWas, off + 16) && tweak[..] == tweaks[j + 1]
  {
    DecryptStep(c, dst, src, off, tweak, tmp, plain, dstWas, srcWas);
    NextTweak(tweak, tweaks, j);
  }

  /** The block loop, from the tweak of block 0 on. */
  method DecryptLoop(c: XtsCipher, dst: array<byte>, src: array<byte>, n: nat, tweak: array<byte>,
                     ghost tweaks: seq<Block>, ghost plain: seq<byte>, ghost dstWas: seq<byte>, ghost srcWas: seq<byte>)
    requires n == |plain| && n % 16 == 0 && |tweaks| == n / 16 + 1 && Doubling(tweaks)
    requires tweak.Length == 16 && tweak != src && tweak != dst && tweak[..] == tweaks[0]
    requires BlocksDecrypt(c, tweaks, srcWas, plain, n / 16) && Progress(dst, src, plain, dstWas, srcWas, 0)
    modifies dst, tweak
    ensures Progress(dst, src, plain, dstWas, srcWas, n)
  {
    var tmp := new byte[16];
    var off := 0;
    ghost var j, blocks := 0, n / 16;
    while off < n
      invariant 0 <= j <= blocks && off == 16 * j && n == 16 * blocks
      invariant tweak[..] == tweaks[j]
      invariant Progress(dst, src, plain, dstWas, srcWas, off)
    {
      assert BlockDecrypts(c, tweaks, srcWas, plain, j);
      DecryptTurn(c, dst, src, off, tweak, tmp, tweaks, j, plain, dstWas, srcWas);
      off, j := off + 16, j + 1;
    }
    assert off == n;
  }

  /** The tweak of block 0: the encrypted sector number. */
  method FirstTweak(c: XtsCipher, sectorNum: nat) returns (tweak: array<byte>)
    ensures fresh(tweak) && tweak.Length == 16 && tweak[..] == Tweak(c, sectorNum, 0)
  {
    tweak := NumberBlock(sectorNum);
    EncryptInto(c.tweakKey, tweak, tweak);
  }

  /** Decrypts src[..n] into dst[..n]; src and dst may be the same array. */
  method DecryptSector(c: XtsCipher, dst: array<byte>, src: array<byte>, n: nat, sectorNum: nat)
    requires n <= dst.Length && n <= src.Length && n % 16 == 0
    modifies dst
    ensures dst[..] == Decrypt(c, sectorNum, old(src[..n])) + old(dst[n..])
  {
    ghost var srcWas, dstWas := src[..], dst[..];
    assert src[..n] == srcWas[..n] && dst[n..] == dstWas[n..];
    ghost var plain := Decrypt(c, sectorNum, srcWas[..n]);
    var tweak := FirstTweak(c, sectorNum);
    ghost var tweaks := SectorTweaks(c, sectorNum, srcWas, n, plain);
    DecryptLoop(c, dst, src, n, tweak, tweaks, plain, dstWas, srcWas);
    AllWritten(plain, dstWas);
  }

  // ---------- round trip ----------

  lemma BlockRoundTrip(c: XtsCipher, t: Block, b: Block)
    requires Invertible(c.dataKey)
    ensures DecryptBlock(c, t, EncryptBlock(c, t, b)) == b
    ensures EncryptBlock(c, t, DecryptBlock(c, t, b)) == b
  {
    XorCancels(c.dataKey.Encrypt(Xor(b, t)), t);
    XorCancels(c.dataKey.Decrypt(Xor(b, t)), t);
    XorCancels(b, t);
  }

  /** Decryption undoes encryption and encryption undoes decryption, under the same sector number. */
  lemma RoundTrip(c: XtsCipher, sectorNum: nat, s: seq<byte>)
    requires Invertible(c.dataKey) && |s| % 16 == 0
    ensures Decrypt(c, sectorNum, Encrypt(c, sectorNum, s)) == s
    ensures Encrypt(c, sectorNum, Decrypt(c, sectorNum, s)) == s
  {
    var bs := Split(s);
    var es := EncryptBlocks(c, sectorNum, bs);
    var ds := DecryptBlocks(c, sectorNum, bs);
    SplitJoin(es);
    SplitJoin(ds);
    JoinSplit(s);
    forall j | 0 <= j < |bs|
      ensures DecryptBlock(c, Tweak(c, sectorNum, j), es[j]) == bs[j]
      ensures EncryptBlock(c, Tweak(c, sectorNum, j), ds[j]) == bs[j]
    {
      BlockRoundTrip(c, Tweak(c, sectorNum, j), bs[j]);
    }
    assert DecryptBlocks(c, sectorNum, es) == bs;
    assert EncryptBlocks(c, sectorNum, ds) == bs;
  }

  /** Two sectors never share a tweak at the same block index: the sector number decides it. */
  lemma TweaksDiffer(c: XtsCipher, m: nat, n: nat, j: nat)
    requires Invertible(c.tweakKey) && m < Pow256(8) && n < Pow256(8)
    requires Tweak(c, m, j) == Tweak(c, n, j)
    ensures m == n
  {
    var a: Block := LE(m, 8) + LE(0, 8);
    var b: Block := LE(n, 8) + LE(0, 8);
    TweaksNeverCollapse(c.tweakKey.Encrypt(a), c.tweakKey.Encrypt(b), j);
    assert a == c.tweakKey.Decrypt(c.tweakKey.Encrypt(a)) == c.tweakKey.Decrypt(c.tweakKey.Encrypt(b)) == b;
    assert a[..8] == LE(m, 8) && b[..8] == LE(n, 8);
    FromLEOfLE(m, 8);
    FromLEOfLE(n, 8);
  }

  // ---------- against section 5.4 of the standard ----------

  /** Block j of a sector: b is the sector number as a block, t the remainder of alpha^j times its encryption. */
  lemma DecryptsAsStandard(c: XtsCipher, sectorNum: nat, s: seq<byte>, j: nat, b: Block, t: Block, q: nat)
    requires |s| % 16 == 0 && 16 * j + 16 <= |s|
    requires FromLE(b) == sectorNum % 0x1_0000_0000_0000_0000
    requires FromLE(t) < ORDER && Shl(FromLE(c.tweakKey.Encrypt(b)), j) == XorBits(Times(q, MODULUS), FromLE(t))
    ensures Decrypt(c, sectorNum, s)[16 * j..16 * j + 16]
         == Xor(c.dataKey.Decrypt(Xor(s[16 * j..16 * j + 16], t)), t)
  {
    NumberAsBlock(sectorNum, b);
    TweakIsRemainder(c.tweakKey.Encrypt(b), j, t, q);
    assert s[..|s|] == s;
    DecryptAt(c, sectorNum, s, |s|, j);
  }
}
