/** CCM decryption as the key unboxing uses it, against the encryption of RFC 3610. */
module Ccm {
  import opened Buffers
  import opened Bytes
  import opened BlockCiphers
  import opened CcmFormat

  datatype CcmError = InvalidNonceLength | InvalidTagLength | MessageTooLarge | InvalidKeySize | AuthenticationFailed

  // ---------- RFC 3610 ----------

  function CbcMac(c: BlockCipher, x: Block, bs: seq<Block>): Block
    decreases |bs|
  {
    if bs == [] then x else CbcMac(c, c.Encrypt(Xor(bs[0], x)), bs[1..])
  }

  /** s combined byte by byte with the encryptions of the blocks f(0), f(1), ... */
  function XorBlocks(c: BlockCipher, f: nat -> Block, s: seq<byte>): (r: seq<byte>)
    ensures |r| == |s|
  {
    seq(|s|, k requires 0 <= k < |s| => XorByte(s[k], c.Encrypt(f(k / 16))[k % 16]))
  }

  lemma XorBlocksSame(c: BlockCipher, f: nat -> Block, g: nat -> Block, s: seq<byte>)
    requires forall i: nat :: i < |s| ==> f(i) == g(i)
    ensures XorBlocks(c, f, s) == XorBlocks(c, g, s)
  {
    forall k | 0 <= k < |s| ensures XorBlocks(c, f, s)[k] == XorBlocks(c, g, s)[k] {
      assert f(k / 16) == g(k / 16);
    }
  }

  lemma XorBlocksCancels(c: BlockCipher, f: nat -> Block, s: seq<byte>)
    ensures XorBlocks(c, f, XorBlocks(c, f, s)) == s
  {
    forall k | 0 <= k < |s| ensures XorBlocks(c, f, XorBlocks(c, f, s))[k] == s[k] {
      XorBitsCancels(s[k] as int, c.Encrypt(f(k / 16))[k % 16] as int);
    }
  }

  /** The message masked with S_1, S_2, ..., section 2.3; masking twice gives the message back. */
  function Mask(c: BlockCipher, nonce: seq<byte>, s: seq<byte>): (r: seq<byte>)
    requires NonceLength(|nonce|)
    ensures |r| == |s|
  {
    XorBlocks(c, (i: nat) => CounterBlock(nonce, 1 + i), s)
  }

  /** The first m bytes of the MAC, masked with S_0. */
  function Tag(c: BlockCipher, nonce: seq<byte>, encodedAad: seq<byte>, p: seq<byte>, m: nat): (t: seq<byte>)
    requires NonceLength(|nonce|) && TagLength(m)
    ensures |t| == m
  {
    Xor(CbcMac(c, ZERO_BLOCK, Blocks(nonce, encodedAad, p, m))[..m], c.Encrypt(CounterBlock(nonce, 0)))
  }

  function Encrypt(c: BlockCipher, nonce: seq<byte>, aad: seq<byte>, p: seq<byte>, m: nat): (seq<byte>, seq<byte>)
    requires NonceLength(|nonce|) && TagLength(m)
  {
    (Mask(c, nonce, p), Tag(c, nonce, EncodeAad(aad), p, m))
  }

  // ---------- the byte-buffer code ----------

  method XorWith(buf: array<byte>, x: array<byte>)
    requires buf.Length == 16 && x.Length == 16 && buf != x
    modifies buf
    ensures buf[..] == Xor(old(buf[..]), x[..])
  {
    for i := 0 to 16
      invariant forall k :: 0 <= k < i ==> buf[k] == XorByte(old(buf[k]), x[k])
      invariant forall k :: i <= k < 16 ==> buf[k] == old(buf[k])
    {
      buf[i] := XorByte(buf[i], x[i]);
    }
  }

  function FirstPadded(d: seq<byte>): Block {
    if |d| >= 16 then d[..16] else d + Zeros(16 - |d|)
  }

  lemma PadOne(d: seq<byte>)
    requires 0 < |d| <= 16
    ensures Split(ZeroPad(d)) == [FirstPadded(d)]
  {
    var z := ZeroPad(d);
    assert |z| == 16 && z == FirstPadded(d);
    assert Split(z)[0] == z[0..16] == z;
  }

  lemma PadSplit(d: seq<byte>)
    requires |d| > 16
    ensures ZeroPad(d) == d[..16] + ZeroPad(d[16..])
  {
    assert |d| % 16 == (|d| - 16) % 16;
    assert d == d[..16] + d[16..];
  }

  lemma PadMore(d: seq<byte>)
    requires |d| > 16
    ensures Split(ZeroPad(d)) == [FirstPadded(d)] + Split(ZeroPad(d[16..]))
  {
    PadSplit(d);
    SplitStep(d[..16], ZeroPad(d[16..]));
  }

  lemma SplitStep(b: Block, rest: seq<byte>)
    ensures Split(b + rest) == [b] + Split(rest)
  {
    forall j | 0 <= j < |Split(rest)| ensures Split(b + rest)[j + 1] == Split(rest)[j] {
      assert (b + rest)[16 * (j + 1)..16 * (j + 1) + 16] == rest[16 * j..16 * j + 16];
    }
    assert Split(b + rest)[0] == (b + rest)[0..16] == b;
  }

  /** Continues a CBC-MAC over data, the last block padded with zeros. */
  method UpdateCbcMac(c: BlockCipher, x: array<byte>, data: seq<byte>)
    requires x.Length == 16
    modifies x
    ensures x[..] == CbcMac(c, old(x[..]), Split(ZeroPad(data)))
  {
    ghost var goal := CbcMac(c, x[..], Split(ZeroPad(data)));
    var tmp := new byte[16];
    var d := data;
    while |d| > 0
      invariant CbcMac(c, x[..], Split(ZeroPad(d))) == goal
      decreases |d|
    {
      var n := if |d| < 16 then |d| else 16;
      Zero(tmp);
      CopyInto(tmp, 0, d[..n]);
      assert tmp[..] == FirstPadded(d) by {
        assert tmp[..] == tmp[0..n] + tmp[n..];
      }
      XorWith(tmp, x);
      EncryptInto(c, x, tmp);
      if |d| <= 16 {
        PadOne(d);
        assert x[..] == goal;
        break;
      }
      PadMore(d);
      d := d[16..];
    }
  }

  method FormatAad(aad: seq<byte>) returns (buf: seq<byte>)
    requires aad != []
    ensures buf == ZeroPad(EncodeShortAad(aad))
  {
    buf := BE(|aad|, 2) + aad;
    var rem := |buf| % 16;
    if rem != 0 {
      buf := buf + Zeros(16 - rem);
    }
  }

  lemma {:induction false} BEDigit(n: nat, len: nat, i: nat)
    requires i < len
    ensures BE(n, len)[i] == ((n / Pow256(len - 1 - i)) % 256) as byte
    decreases len
  {
    if i < len - 1 {
      BEDigit(n / 256, len - 1, i);
      DivDiv(n, Pow256(len - 2 - i));
    } else {
      assert n / Pow256(0) == n;
    }
  }

  lemma DivDiv(n: nat, p: nat)
    requires p > 0
    ensures (n / 256) / p == n / (256 * p)
  {
    var (q, r) := ((n / 256) / p, (n / 256) % p);
    var s := n % 256;
    assert n == 256 * (q * p + r) + s;
    assert n == q * (256 * p) + (256 * r + s);
    assert 0 <= 256 * r + s < 256 * p;
    Quotient(n, 256 * p, q, 256 * r + s);
  }

  /** Writes the low `len` bytes of n at the end of a 16-byte buffer, one shifted byte at a time. */
  method PutBigEndian(out: array<byte>, n: nat, len: nat)
    requires out.Length == 16 && len <= 16
    modifies out
    ensures out[16 - len..] == BE(n, len)
    ensures out[..16 - len] == old(out[..16 - len])
  {
    for i := 0 to len
      invariant forall k :: 0 <= k < i ==> out[16 - len + k] == BE(n, len)[k]
      invariant forall k :: 0 <= k < 16 - len ==> out[k] == old(out[k])
    {
      BEDigit(n, len, i);
      out[16 - len + i] := ((n / Pow256(len - 1 - i)) % 256) as byte;
    }
  }

  /** A counter block; a counter too wide for its field keeps its low bytes only. */
  method MakeCcmIv(nonce: seq<byte>, width: nat, counter: nat, out: array<byte>)
    requires NonceLength(|nonce|) && width == FieldWidth(nonce) && counter < 0x1_0000_0000 && out.Length == 16
    modifies out
    ensures out[..] == CounterBlock(nonce, counter)
  {
    Zero(out);
    PutHeader(out, (width - 1) as byte, nonce);
    PutCounter(width, counter, out);
    TwoParts(out, 16 - width);
  }

  method PutCounter(width: nat, counter: nat, out: array<byte>)
    requires 2 <= width <= 8 && counter < 0x1_0000_0000 && out.Length == 16
    modifies out
    ensures out[16 - width..] == BE(counter, width)
    ensures out[..16 - width] == old(out[..16 - width])
  {
    if width == 2 {
      CopyInto(out, 14, BE(counter, 2));
    } else if width == 3 {
      BEDigit(counter, 3, 0);
      BEDigit(counter, 3, 1);
      BEDigit(counter, 3, 2);
      assert Pow256(1) == 256 && Pow256(2) == 0x1_0000;
      out[13] := (counter / 0x1_0000 % 256) as byte;
      out[14] := (counter / 256 % 256) as byte;
      out[15] := (counter % 256) as byte;
      assert out[13..] == BE(counter, 3);
    } else if width == 4 {
      CopyInto(out, 12, BE(counter, 4));
    } else {
      PutBigEndian(out, counter, width);
    }
  }

  /** The flag byte put together with bitwise or is the sum of its three fields. */
  lemma FlagBits(hasAad: bool, m': nat, l': nat)
    requires m' < 8 && l' < 8
    ensures OrBits(OrBits(l', if hasAad then 64 else 0), 8 * m') == FlagByte(hasAad, m', l') as int
  {
    var a: nat := if hasAad then 8 else 0;
    OrOctal(a, l', 0);
    OrCommutes(l', 8 * a);
    OrZero(a);
    OrOctal(a, l', m');
    OrTopOctal(a, m');
  }

  /** The low three digits of a sum survive an or with a multiple of 8. */
  lemma OrOctal(h: nat, l: nat, m: nat)
    requires l < 8
    ensures OrBits(8 * h + l, 8 * m) == 8 * OrBits(h, m) + l
    ensures OrBits(8 * h, l) == 8 * h + l
  {
    Shl3(1);
    Shl3(h);
    Shl3(m);
    Shl3(OrBits(h, m));
    OrSplits(h, l, m, 0, 3);
    OrZero(l);
    OrIsSum(h, l, 3);
  }

  lemma OrTopOctal(a: nat, m: nat)
    requires (a == 0 || a == 8) && m < 8
    ensures OrBits(a, m) == a + m
  {
    OrOctal(a / 8, m, 0);
  }

  lemma Shl3(n: nat)
    ensures Shl(n, 3) == 8 * n
  {
    assert Shl(n, 1) == 2 * n && Shl(n, 2) == 4 * n;
  }

  lemma XorWithZero(b: Block)
    ensures Xor(b, ZERO_BLOCK) == b
  {
    forall i | 0 <= i < 16 ensures Xor(b, ZERO_BLOCK)[i] == b[i] {
      XorZero(b[i] as int);
    }
  }

  lemma {:induction false} CbcMacAppend(c: BlockCipher, x: Block, a: seq<Block>, b: seq<Block>)
    ensures CbcMac(c, x, a + b) == CbcMac(c, CbcMac(c, x, a), b)
    decreases |a|
  {
    if a == [] {
      assert a + b == b;
    } else {
      CbcMacAppend(c, c.Encrypt(Xor(a[0], x)), a[1..], b);
      assert (a + b)[0] == a[0] && (a + b)[1..] == a[1..] + b;
    }
  }

  method BuildFlags(hasAad: bool, tagLen: nat, width: nat) returns (flags: byte)
    requires TagLength(tagLen) && 2 <= width <= 8
    ensures flags == Flags(hasAad, tagLen, width)
  {
    var bits: nat := width - 1;
    if hasAad {
      bits := OrBits(bits, 64);
    } else {
      OrZero(bits);
    }
    FlagBits(hasAad, (tagLen - 2) / 2, width - 1);
    bits := OrBits(bits, 8 * ((tagLen - 2) / 2));
    flags := bits as byte;
  }

  /** The first 16 - L bytes of a block: the flag byte and the nonce. */
  method PutHeader(b: array<byte>, flags: byte, nonce: seq<byte>)
    requires NonceLength(|nonce|) && b.Length == 16
    modifies b
    ensures b[..1 + |nonce|] == [flags] + nonce
  {
    b[0] := flags;
    CopyInto(b, 1, nonce);
    assert b[..1 + |nonce|] == [b[0]] + b[1..1 + |nonce|];
  }

  lemma TwoParts(b: array<byte>, n: nat)
    requires n <= b.Length
    ensures b[..] == b[..n] + b[n..]
  {
  }

  method WriteFirstBlock(nonce: seq<byte>, hasAad: bool, messageSize: nat, tagLen: nat) returns (b0: array<byte>)
    requires NonceLength(|nonce|) && TagLength(tagLen)
    ensures fresh(b0) && b0.Length == 16 && b0[..] == FirstBlock(nonce, hasAad, messageSize, tagLen)
  {
    var width := 15 - |nonce|;
    b0 := new byte[16];
    var flags := BuildFlags(hasAad, tagLen, width);
    PutHeader(b0, flags, nonce);
    PutBigEndian(b0, messageSize, width);
    TwoParts(b0, 16 - width);
  }

  /** The full 16-byte MAC. */
  method Mac(c: BlockCipher, nonce: seq<byte>, aad: seq<byte>, plaintext: seq<byte>, tagLen: nat)
    returns (out: array<byte>)
    requires NonceLength(|nonce|) && TagLength(tagLen)
    ensures fresh(out) && out.Length == 16
    ensures out[..] == CbcMac(c, ZERO_BLOCK, Blocks(nonce, EncodeShortAad(aad), plaintext, tagLen))
  {
    var b0 := WriteFirstBlock(nonce, |aad| > 0, |plaintext|, tagLen);
    ghost var first: Block := b0[..];
    var x := new byte[16];
    EncryptInto(c, x, b0);
    XorWithZero(first);
    ghost var a := Split(ZeroPad(EncodeShortAad(aad)));
    if |aad| > 0 {
      var buf := FormatAad(aad);
      UpdateCbcMac(c, x, buf);
      PadTwice(EncodeShortAad(aad));
    }
    UpdateCbcMac(c, x, plaintext);
    ghost var p := Split(ZeroPad(plaintext));
    CbcMacAppend(c, ZERO_BLOCK, [first], a);
    CbcMacAppend(c, ZERO_BLOCK, [first] + a, p);
    out := new byte[16];
    SetBlock(out, x[..]);
  }

  lemma PadTwice(s: seq<byte>)
    ensures ZeroPad(ZeroPad(s)) == ZeroPad(s)
  {
    PadExact(ZeroPad(s));
  }

  // ---------- counter mode ----------

  /** CTR mode with a whole-block big-endian counter starting at iv. */
  function XorKeyStream(c: BlockCipher, iv: Block, s: seq<byte>): (r: seq<byte>)
    ensures |r| == |s|
  {
    XorBlocks(c, (i: nat) => CtrBlock(iv, i), s)
  }

  lemma KeyStreamIsMask(c: BlockCipher, nonce: seq<byte>, s: seq<byte>)
    requires NonceLength(|nonce|) && |s| < Pow256(FieldWidth(nonce))
    ensures XorKeyStream(c, CounterBlock(nonce, 1), s) == Mask(c, nonce, s)
  {
    var f := (i: nat) => CtrBlock(CounterBlock(nonce, 1), i);
    var g := (i: nat) => CounterBlock(nonce, 1 + i);
    forall i: nat | i < |s| ensures f(i) == g(i) {
      CounterStaysInField(nonce, i);
    }
    XorBlocksSame(c, f, g, s);
  }

  lemma MaskCancels(c: BlockCipher, nonce: seq<byte>, s: seq<byte>)
    requires NonceLength(|nonce|)
    ensures Mask(c, nonce, Mask(c, nonce, s)) == s
  {
    XorBlocksCancels(c, (i: nat) => CounterBlock(nonce, 1 + i), s);
  }

  // ---------- decryption ----------

  /** What decryption answers: each check in the order it is made, then the recomputed tag decides. */
  function DecryptResult(aes: Aes, key: seq<byte>, nonce: seq<byte>, ciphertext: seq<byte>, tag: seq<byte>,
                         aad: seq<byte>): Result<seq<byte>, CcmError> {
    if !NonceLength(|nonce|) then Err(InvalidNonceLength)
    else if !TagLength(|tag|) then Err(InvalidTagLength)
    else if |nonce| == 7 || |ciphertext| >= Pow256(FieldWidth(nonce)) then Err(MessageTooLarge)
    else if !AesKeySize(|key|) then Err(InvalidKeySize)
    else
      var p := Mask(aes(key), nonce, ciphertext);
      if Tag(aes(key), nonce, EncodeShortAad(aad), p, |tag|) == tag then Ok(p) else Err(AuthenticationFailed)
  }

  /** 1 << (8 * L) in 64 bits: the shift by 64 leaves nothing. */
  function MessageLimit(width: nat): nat {
    Pow256(width) % 0x1_0000_0000_0000_0000
  }

  lemma LimitOfField(width: nat)
    requires 2 <= width <= 8
    ensures MessageLimit(width) == if width == 8 then 0 else Pow256(width)
  {
    Pow256Values();
    assert Pow256(3) == 0x100_0000 && Pow256(5) == 0x100_0000_0000;
    assert Pow256(6) == 0x1_0000_0000_0000;
    assert Pow256(7) == 0x100_0000_0000_0000;
  }

  method Decrypt(aes: Aes, key: seq<byte>, nonce: seq<byte>, ciphertext: seq<byte>, tag: seq<byte>, aad: seq<byte>)
    returns (r: Result<seq<byte>, CcmError>)
    ensures r == DecryptResult(aes, key, nonce, ciphertext, tag, aad)
  {
    if |nonce| < 7 || |nonce| > 13 {
      return Err(InvalidNonceLength);
    }
    if |tag| != 16 && (|tag| < 4 || |tag| > 16 || |tag| % 2 != 0) {
      return Err(InvalidTagLength);
    }
    var width := 15 - |nonce|;
    LimitOfField(width);
    if |ciphertext| >= MessageLimit(width) {
      return Err(MessageTooLarge);
    }
    if !AesKeySize(|key|) {
      return Err(InvalidKeySize);
    }
    var block := aes(key);

    r := DecryptAndVerify(block, nonce, ciphertext, tag, aad);
  }

  /** mac[..n] ^= s0[..n]. */
  method MaskTag(mac: array<byte>, s0: array<byte>, n: nat)
    requires mac.Length == 16 && s0.Length == 16 && n <= 16 && mac != s0
    modifies mac
    ensures mac[..n] == Xor(old(mac[..])[..n], s0[..])
  {
    for i := 0 to n
      invariant forall k :: 0 <= k < i ==> mac[k] == XorByte(old(mac[k]), s0[k])
      invariant forall k :: i <= k < 16 ==> mac[k] == old(mac[k])
    {
      mac[i] := XorByte(mac[i], s0[i]);
    }
  }

  method TagMask(block: BlockCipher, nonce: seq<byte>, width: nat) returns (s0: array<byte>)
    requires NonceLength(|nonce|) && width == FieldWidth(nonce)
    ensures fresh(s0) && s0.Length == 16 && s0[..] == block.Encrypt(CounterBlock(nonce, 0))
  {
    var a0 := new byte[16];
    MakeCcmIv(nonce, width, 0, a0);
    s0 := new byte[16];
    EncryptInto(block, s0, a0);
  }

  method CtrDecrypt(block: BlockCipher, nonce: seq<byte>, width: nat, ciphertext: seq<byte>) returns (plain: seq<byte>)
    requires NonceLength(|nonce|) && width == FieldWidth(nonce) && |ciphertext| < Pow256(width)
    ensures plain == Mask(block, nonce, ciphertext)
  {
    var ctrBlock := new byte[16];
    MakeCcmIv(nonce, width, 1, ctrBlock);
    plain := XorKeyStream(block, ctrBlock[..], ciphertext);
    KeyStreamIsMask(block, nonce, ciphertext);
  }

  method DecryptAndVerify(block: BlockCipher, nonce: seq<byte>, ciphertext: seq<byte>, tag: seq<byte>, aad: seq<byte>)
    returns (r: Result<seq<byte>, CcmError>)
    requires NonceLength(|nonce|) && TagLength(|tag|) && |ciphertext| < Pow256(FieldWidth(nonce))
    ensures var p := Mask(block, nonce, ciphertext);
            r == if Tag(block, nonce, EncodeShortAad(aad), p, |tag|) == tag then Ok(p) else Err(AuthenticationFailed)
  {
    var s0 := TagMask(block, nonce, 15 - |nonce|);
    var plain := CtrDecrypt(block, nonce, 15 - |nonce|, ciphertext);
    var mac := Mac(block, nonce, aad, plain, |tag|);
    MaskTag(mac, s0, |tag|);
    var expected := mac[..|tag|];
    assert expected == Tag(block, nonce, EncodeShortAad(aad), plain, |tag|);
    r := if expected == tag then Ok(plain) else Err(AuthenticationFailed);
  }

  // ---------- what it means ----------

  lemma ShortAadBlocks(nonce: seq<byte>, aad: seq<byte>, p: seq<byte>, m: nat)
    requires NonceLength(|nonce|) && TagLength(m) && |aad| < 0xFF00
    ensures Blocks(nonce, EncodeShortAad(aad), p, m) == Blocks(nonce, EncodeAad(aad), p, m)
  {
  }

  /** A message is accepted, as p, exactly when it is the RFC 3610 encryption of p. */
  lemma AcceptsExactlyEncryptions(aes: Aes, key: seq<byte>, nonce: seq<byte>, ciphertext: seq<byte>, tag: seq<byte>,
                                  aad: seq<byte>, p: seq<byte>)
    requires |aad| < 0xFF00
    ensures DecryptResult(aes, key, nonce, ciphertext, tag, aad) == Ok(p) <==>
            8 <= |nonce| <= 13 && TagLength(|tag|) && AesKeySize(|key|) && |p| < Pow256(15 - |nonce|) &&
            (ciphertext, tag) == Encrypt(aes(key), nonce, aad, p, |tag|)
  {
    if NonceLength(|nonce|) && TagLength(|tag|) {
      MaskCancels(aes(key), nonce, ciphertext);
      MaskCancels(aes(key), nonce, p);
      ShortAadBlocks(nonce, aad, p, |tag|);
    }
  }

  /** Decryption gives back what was encrypted, for every nonce of 8 to 13 bytes and every tag length. */
  lemma RoundTrip(aes: Aes, key: seq<byte>, nonce: seq<byte>, aad: seq<byte>, p: seq<byte>, m: nat)
    requires 8 <= |nonce| <= 13 && TagLength(m) && AesKeySize(|key|)
    requires |p| < Pow256(15 - |nonce|) && |aad| < 0xFF00
    ensures var (ciphertext, tag) := Encrypt(aes(key), nonce, aad, p, m);
            DecryptResult(aes, key, nonce, ciphertext, tag, aad) == Ok(p)
  {
    var (ciphertext, tag) := Encrypt(aes(key), nonce, aad, p, m);
    AcceptsExactlyEncryptions(aes, key, nonce, ciphertext, tag, aad, p);
  }

  /** Nonces of 7 bytes are listed as supported, but no message of any size is small enough for them. */
  lemma SevenByteNonceNeverAccepted(aes: Aes, key: seq<byte>, nonce: seq<byte>, ciphertext: seq<byte>, tag: seq<byte>,
                                    aad: seq<byte>)
    requires NonceLength(|nonce|) && TagLength(|tag|)
    ensures (forall ct: seq<byte> :: DecryptResult(aes, key, nonce, ct, tag, aad) == Err(MessageTooLarge))
            <==> |nonce| == 7
  {
    if |nonce| != 7 {
      assert DecryptResult(aes, key, nonce, [], tag, aad) != Err(MessageTooLarge);
    }
  }
}
