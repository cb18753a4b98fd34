/** Decryption against RFC 3610 read directly: every block pinned byte by byte. */
module CcmReference {
  import opened Bytes
  import opened BlockCiphers
  import CcmFormat
  import Ccm

  /** The counter block A_i: L - 1, the nonce, and i in the last L = 15 - |nonce| bytes, big-endian. */
  ghost predicate IsCounter(b: Block, nonce: seq<byte>, i: nat)
    requires |nonce| <= 13
  {
    b[0] as int == 14 - |nonce| && b[1..1 + |nonce|] == nonce && FromBE(b[1 + |nonce|..]) == i
  }

  /** The block B_0: 64 Adata + 8 M' + L', the nonce, and the message size. */
  ghost predicate IsFirst(b: Block, nonce: seq<byte>, hasAad: bool, size: nat, m: nat)
    requires |nonce| <= 13
  {
    b[0] as int == (if hasAad then 64 else 0) + 8 * ((m - 2) / 2) + (14 - |nonce|) &&
    b[1..1 + |nonce|] == nonce && FromBE(b[1 + |nonce|..]) == size
  }

  /** z is s followed by as many zeros as make whole blocks. */
  ghost predicate IsPadded(z: seq<byte>, s: seq<byte>) {
    |z| % 16 == 0 && |s| <= |z| < |s| + 16 && z[..|s|] == s && forall i :: |s| <= i < |z| ==> z[i] == 0
  }

  /** Associated data after its length in two bytes, most significant first; nothing when there is none. */
  ghost predicate IsPrefixed(e: seq<byte>, aad: seq<byte>) {
    if aad == [] then e == []
    else |e| == |aad| + 2 && e[0] as int == |aad| / 256 % 256 && e[1] as int == |aad| % 256 && e[2..] == aad
  }

  /** The blocks authenticated: B_0, then the associated data, then the message, each padded. */
  ghost predicate IsFormatted(bs: seq<Block>, nonce: seq<byte>, aad: seq<byte>, p: seq<byte>, m: nat,
                              e: seq<byte>, a: seq<byte>, z: seq<byte>)
    requires |nonce| <= 13
  {
    bs != [] && IsFirst(bs[0], nonce, aad != [], |p|, m) &&
    IsPrefixed(e, aad) && IsPadded(a, e) && IsPadded(z, p) && Join(bs[1..]) == a + z
  }

  /** X_0 = 0 and X_(i+1) = E(B_i xor X_i). */
  ghost predicate IsChain(c: BlockCipher, bs: seq<Block>, xs: seq<Block>) {
    |xs| == |bs| + 1 && (forall k :: 0 <= k < 16 ==> xs[0][k] == 0) &&
    forall i :: 0 <= i < |bs| ==> xs[i + 1] == c.Encrypt(Xor(bs[i], xs[i]))
  }

  /** Each byte of p is the byte of the ciphertext combined with the encryption of A_1, A_2, ... */
  ghost predicate IsUnmasked(c: BlockCipher, nonce: seq<byte>, ciphertext: seq<byte>, p: seq<byte>)
    requires |nonce| <= 13
  {
    |p| == |ciphertext| &&
    forall k: nat, b: Block :: k < |p| && IsCounter(b, nonce, 1 + k / 16) ==>
      p[k] == XorByte(ciphertext[k], c.Encrypt(b)[k % 16])
  }

  // ---------- the blocks of the model are these ----------

  lemma CounterIs(b: Block, nonce: seq<byte>, i: nat)
    requires CcmFormat.NonceLength(|nonce|) && IsCounter(b, nonce, i)
    ensures b == CcmFormat.CounterBlock(nonce, i)
  {
    BEOfFromBE(b[1 + |nonce|..]);
    assert b == [b[0]] + b[1..1 + |nonce|] + b[1 + |nonce|..];
  }

  lemma CounterBlockIs(nonce: seq<byte>, i: nat)
    requires CcmFormat.NonceLength(|nonce|) && i < Pow256(15 - |nonce|)
    ensures IsCounter(CcmFormat.CounterBlock(nonce, i), nonce, i)
  {
    var b := CcmFormat.CounterBlock(nonce, i);
    FromBEOfBE(i, 15 - |nonce|);
    assert b[1..1 + |nonce|] == nonce && b[1 + |nonce|..] == BE(i, 15 - |nonce|);
  }

  lemma FirstIs(b: Block, nonce: seq<byte>, hasAad: bool, size: nat, m: nat)
    requires CcmFormat.NonceLength(|nonce|) && CcmFormat.TagLength(m) && IsFirst(b, nonce, hasAad, size, m)
    ensures b == CcmFormat.FirstBlock(nonce, hasAad, size, m)
  {
    BEOfFromBE(b[1 + |nonce|..]);
    assert b == [b[0]] + b[1..1 + |nonce|] + b[1 + |nonce|..];
  }

  lemma PaddedIs(z: seq<byte>, s: seq<byte>)
    requires IsPadded(z, s)
    ensures z == CcmFormat.ZeroPad(s)
  {
    var r := CcmFormat.ZeroPad(s);
    assert |z| == |r|;
    forall i | 0 <= i < |z| ensures z[i] == r[i] {
      if i < |s| { assert z[..|s|][i] == r[..|s|][i]; }
    }
  }

  lemma TwoBytes(n: nat)
    ensures BE(n, 2) == [(n / 256 % 256) as byte, (n % 256) as byte]
  {
    assert BE(n / 256, 1) == BE(n / 256 / 256, 0) + [(n / 256 % 256) as byte];
  }

  lemma PrefixedIs(e: seq<byte>, aad: seq<byte>)
    requires IsPrefixed(e, aad)
    ensures e == CcmFormat.EncodeShortAad(aad)
  {
    if aad != [] {
      TwoBytes(|aad|);
      assert e == [e[0], e[1]] + e[2..];
    }
  }

  lemma FormattedIs(bs: seq<Block>, nonce: seq<byte>, aad: seq<byte>, p: seq<byte>, m: nat,
                    e: seq<byte>, a: seq<byte>, z: seq<byte>)
    requires CcmFormat.NonceLength(|nonce|) && CcmFormat.TagLength(m) && IsFormatted(bs, nonce, aad, p, m, e, a, z)
    ensures bs == CcmFormat.Blocks(nonce, CcmFormat.EncodeShortAad(aad), p, m)
  {
    FirstIs(bs[0], nonce, aad != [], |p|, m);
    PrefixedIs(e, aad);
    PaddedIs(a, e);
    PaddedIs(z, p);
    TailIs(bs[1..], a, z);
    Reassociate([bs[0]], Split(a), Split(z));
    assert bs == [bs[0]] + bs[1..];
  }

  lemma TailIs(tail: seq<Block>, a: seq<byte>, z: seq<byte>)
    requires |a| % 16 == 0 && Join(tail) == a + z
    ensures tail == Split(a) + Split(z)
  {
    SplitJoin(tail);
    SplitAppend(a, z);
  }

  lemma SplitAppend(a: seq<byte>, b: seq<byte>)
    requires |a| % 16 == 0
    ensures Split(a + b) == Split(a) + Split(b)
  {
    var n := |a| / 16;
    forall j | 0 <= j < |Split(a + b)| ensures Split(a + b)[j] == (Split(a) + Split(b))[j] {
      if j < n {
        assert (a + b)[16 * j..16 * j + 16] == a[16 * j..16 * j + 16];
      } else {
        assert (a + b)[16 * j..16 * j + 16] == b[16 * (j - n)..16 * (j - n) + 16];
      }
    }
  }

  lemma {:induction false} ChainIs(c: BlockCipher, bs: seq<Block>, xs: seq<Block>, i: nat)
    requires |xs| == |bs| + 1 && i <= |bs|
    requires forall k :: 0 <= k < |bs| ==> xs[k + 1] == c.Encrypt(Xor(bs[k], xs[k]))
    ensures Ccm.CbcMac(c, xs[i], bs[i..]) == xs[|bs|]
    decreases |bs| - i
  {
    if i < |bs| {
      ChainIs(c, bs, xs, i + 1);
      assert bs[i..][0] == bs[i] && bs[i..][1..] == bs[i + 1..];
    }
  }

  lemma MaskUnmasks(c: BlockCipher, nonce: seq<byte>, ciphertext: seq<byte>)
    requires CcmFormat.NonceLength(|nonce|)
    ensures IsUnmasked(c, nonce, ciphertext, Ccm.Mask(c, nonce, ciphertext))
  {
    var q := Ccm.Mask(c, nonce, ciphertext);
    forall k: nat, b: Block | k < |q| && IsCounter(b, nonce, 1 + k / 16)
      ensures q[k] == XorByte(ciphertext[k], c.Encrypt(b)[k % 16])
    {
      CounterIs(b, nonce, 1 + k / 16);
    }
  }

  lemma CounterFits(k: nat, l: nat)
    requires k < Pow256(l) && l >= 2
    ensures 1 + k / 16 < Pow256(l)
  {
    assert Pow256(l) == 256 * (256 * Pow256(l - 2));
  }

  /** There is one plaintext: two that are unmasked by the same counter blocks are equal. */
  lemma UnmaskedUnique(c: BlockCipher, nonce: seq<byte>, ciphertext: seq<byte>, p: seq<byte>, q: seq<byte>)
    requires CcmFormat.NonceLength(|nonce|) && |ciphertext| < Pow256(15 - |nonce|)
    requires IsUnmasked(c, nonce, ciphertext, p) && IsUnmasked(c, nonce, ciphertext, q)
    ensures p == q
  {
    forall k: nat | k < |p| ensures p[k] == q[k] {
      CounterFits(k, 15 - |nonce|);
      CounterBlockIs(nonce, 1 + k / 16);
      var b := CcmFormat.CounterBlock(nonce, 1 + k / 16);
      assert IsCounter(b, nonce, 1 + k / 16);
      assert p[k] == XorByte(ciphertext[k], c.Encrypt(b)[k % 16]) == q[k];
    }
  }

  lemma TagLengths(m: nat)
    ensures CcmFormat.TagLength(m) <==> m in {4, 6, 8, 10, 12, 14, 16}
  {
  }

  lemma TagIs(c: BlockCipher, nonce: seq<byte>, aad: seq<byte>, p: seq<byte>, m: nat,
             a0: Block, bs: seq<Block>, xs: seq<Block>)
    requires CcmFormat.NonceLength(|nonce|) && CcmFormat.TagLength(m) && IsCounter(a0, nonce, 0) && IsChain(c, bs, xs)
    requires bs == CcmFormat.Blocks(nonce, CcmFormat.EncodeShortAad(aad), p, m)
    ensures Ccm.Tag(c, nonce, CcmFormat.EncodeShortAad(aad), p, m) == Xor(xs[|bs|], c.Encrypt(a0))[..m]
  {
    CounterIs(a0, nonce, 0);
    ChainIs(c, bs, xs, 0);
    assert bs[0..] == bs && xs[0] == ZERO_BLOCK;
  }

  // ---------- what decryption answers ----------

  /** The plaintext is the unmasked ciphertext, accepted exactly when the tag is the masked end of the chain. */
  lemma DecidesAsStandard(aes: Aes, key: seq<byte>, nonce: seq<byte>, ciphertext: seq<byte>, tag: seq<byte>,
                          aad: seq<byte>, p: seq<byte>, a0: Block, bs: seq<Block>, xs: seq<Block>,
                          e: seq<byte>, a: seq<byte>, z: seq<byte>)
    requires 8 <= |nonce| <= 13 && |tag| in {4, 6, 8, 10, 12, 14, 16} && |key| in {16, 24, 32}
    requires |ciphertext| < Pow256(15 - |nonce|)
    requires IsUnmasked(aes(key), nonce, ciphertext, p) && IsCounter(a0, nonce, 0)
    requires IsFormatted(bs, nonce, aad, p, |tag|, e, a, z) && IsChain(aes(key), bs, xs)
    ensures Ccm.DecryptResult(aes, key, nonce, ciphertext, tag, aad) ==
            if tag == Xor(xs[|bs|], aes(key).Encrypt(a0))[..|tag|] then Ok(p) else Err(Ccm.AuthenticationFailed)
  {
    var c := aes(key);
    TagLengths(|tag|);
    MaskUnmasks(c, nonce, ciphertext);
    UnmaskedUnique(c, nonce, ciphertext, p, Ccm.Mask(c, nonce, ciphertext));
    FormattedIs(bs, nonce, aad, p, |tag|, e, a, z);
    TagIs(c, nonce, aad, p, |tag|, a0, bs, xs);
  }

  /** Every other input is refused, for the first of these reasons that applies. */
  lemma RefusesInOrder(aes: Aes, key: seq<byte>, nonce: seq<byte>, ciphertext: seq<byte>, tag: seq<byte>,
                       aad: seq<byte>)
    ensures var r := Ccm.DecryptResult(aes, key, nonce, ciphertext, tag, aad);
            if !(7 <= |nonce| <= 13) then r == Err(Ccm.InvalidNonceLength)
            else if |tag| !in {4, 6, 8, 10, 12, 14, 16} then r == Err(Ccm.InvalidTagLength)
            else if |nonce| == 7 || |ciphertext| >= Pow256(15 - |nonce|) then r == Err(Ccm.MessageTooLarge)
            else if |key| !in {16, 24, 32} then r == Err(Ccm.InvalidKeySize)
            else r.Ok? || r == Err(Ccm.AuthenticationFailed)
  {
    TagLengths(|tag|);
  }

  // ---------- there is always such a chain ----------

  lemma {:induction false} ChainExists(c: BlockCipher, bs: seq<Block>) returns (xs: seq<Block>)
    ensures IsChain(c, bs, xs)
    decreases |bs|
  {
    if bs == [] {
      xs := [ZERO_BLOCK];
    } else {
      var n := |bs| - 1;
      xs := ChainExists(c, bs[..n]);
      xs := xs + [c.Encrypt(Xor(bs[n], xs[n]))];
    }
  }

  lemma FirstBlockIs(nonce: seq<byte>, hasAad: bool, size: nat, m: nat)
    requires CcmFormat.NonceLength(|nonce|) && CcmFormat.TagLength(m) && size < Pow256(15 - |nonce|)
    ensures IsFirst(CcmFormat.FirstBlock(nonce, hasAad, size, m), nonce, hasAad, size, m)
  {
    var b := CcmFormat.FirstBlock(nonce, hasAad, size, m);
    FromBEOfBE(size, 15 - |nonce|);
    assert b[1..1 + |nonce|] == nonce && b[1 + |nonce|..] == BE(size, 15 - |nonce|);
  }

  lemma ZeroPadIs(s: seq<byte>)
    ensures IsPadded(CcmFormat.ZeroPad(s), s)
  {
  }

  lemma EncodedIs(aad: seq<byte>)
    ensures IsPrefixed(CcmFormat.EncodeShortAad(aad), aad)
  {
    TwoBytes(|aad|);
  }

  /** The hypotheses of the decision can be met for every message. */
  lemma ReferenceExists(aes: Aes, key: seq<byte>, nonce: seq<byte>, ciphertext: seq<byte>, m: nat, aad: seq<byte>)
      returns (p: seq<byte>, a0: Block, bs: seq<Block>, xs: seq<Block>, e: seq<byte>, a: seq<byte>, z: seq<byte>)
    requires 8 <= |nonce| <= 13 && m in {4, 6, 8, 10, 12, 14, 16} && |ciphertext| < Pow256(15 - |nonce|)
    ensures IsUnmasked(aes(key), nonce, ciphertext, p) && IsCounter(a0, nonce, 0)
    ensures IsFormatted(bs, nonce, aad, p, m, e, a, z) && IsChain(aes(key), bs, xs)
  {
    p, a0 := Ccm.Mask(aes(key), nonce, ciphertext), CcmFormat.CounterBlock(nonce, 0);
    e := CcmFormat.EncodeShortAad(aad);
    a, z := CcmFormat.ZeroPad(e), CcmFormat.ZeroPad(p);
    bs := CcmFormat.Blocks(nonce, e, p, m);
    MaskUnmasks(aes(key), nonce, ciphertext);
    CounterBlockIs(nonce, 0);
    FirstBlockIs(nonce, aad != [], |p|, m);
    EncodedIs(aad);
    ZeroPadIs(e);
    ZeroPadIs(p);
    SplitAppend(a, z);
    JoinSplit(a + z);
    assert bs[1..] == Split(a) + Split(z);
    xs := ChainExists(aes(key), bs);
  }
}
