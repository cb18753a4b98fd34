/** The blocks CCM feeds to the cipher, sections 2.2 and 2.3 of RFC 3610, and what makes them safe to use. */
module CcmFormat {
  import opened Bytes

  predicate NonceLength(n: nat) {
    7 <= n <= 13
  }

  predicate TagLength(m: nat) {
    4 <= m <= 16 && m % 2 == 0
  }

  /** The width in bytes of the length field and of the counter. */
  function FieldWidth(nonce: seq<byte>): (l: nat)
    requires NonceLength(|nonce|)
    ensures 2 <= l <= 8 && |nonce| + l == 15
  {
    15 - |nonce|
  }

  function FlagByte(hasAad: bool, m': nat, l': nat): (b: byte)
    requires m' < 8 && l' < 8
    ensures b as int == (if hasAad then 64 else 0) + 8 * m' + l'
  {
    ((if hasAad then 64 else 0) + 8 * m' + l') as byte
  }

  /** 64 * Adata + 8 * M' + L', with M' = (M - 2) / 2 and L' = L - 1. */
  function Flags(hasAad: bool, m: nat, l: nat): byte
    requires TagLength(m) && 2 <= l <= 8
  {
    FlagByte(hasAad, (m - 2) / 2, l - 1)
  }

  function FirstBlock(nonce: seq<byte>, hasAad: bool, messageSize: nat, m: nat): Block
    requires NonceLength(|nonce|) && TagLength(m)
  {
    [Flags(hasAad, m, FieldWidth(nonce))] + nonce + BE(messageSize, FieldWidth(nonce))
  }

  /** The counter block A_i. */
  function CounterBlock(nonce: seq<byte>, i: nat): Block
    requires NonceLength(|nonce|)
  {
    [(FieldWidth(nonce) - 1) as byte] + nonce + BE(i, FieldWidth(nonce))
  }

  function Zeros(n: nat): (z: seq<byte>)
    ensures |z| == n
  {
    seq(n, _ => 0)
  }

  function ZeroPad(s: seq<byte>): (r: seq<byte>)
    ensures |r| % 16 == 0 && |s| <= |r| < |s| + 16 && r[..|s|] == s
  {
    s + Zeros((16 - |s| % 16) % 16)
  }

  /** Associated data with the standard's length prefix, which has three forms. */
  function EncodeAad(aad: seq<byte>): seq<byte> {
    if aad == [] then []
    else if |aad| < 0xFF00 then BE(|aad|, 2) + aad
    else if |aad| < 0x1_0000_0000 then [0xFF, 0xFE] + BE(|aad|, 4) + aad
    else [0xFF, 0xFF] + BE(|aad|, 8) + aad
  }

  /** The only form the program writes: the low 16 bits of the length. */
  function EncodeShortAad(aad: seq<byte>): seq<byte> {
    if aad == [] then [] else BE(|aad|, 2) + aad
  }

  /** B_0, then the associated-data blocks, then the message blocks. */
  function Blocks(nonce: seq<byte>, encodedAad: seq<byte>, p: seq<byte>, m: nat): seq<Block>
    requires NonceLength(|nonce|) && TagLength(m)
  {
    [FirstBlock(nonce, encodedAad != [], |p|, m)] + Split(ZeroPad(encodedAad)) + Split(ZeroPad(p))
  }

  // ---------- the counter never leaves its field ----------

  /** One more, as a big-endian number of that many bytes, wrapping around. */
  function Increment(s: seq<byte>): (r: seq<byte>)
    ensures |r| == |s|
  {
    if s == [] then []
    else if s[|s| - 1] as int == 255 then Increment(s[..|s| - 1]) + [0 as byte]
    else s[..|s| - 1] + [(s[|s| - 1] as int + 1) as byte]
  }

  /** The counter block CTR mode uses for block i when started at iv. */
  function CtrBlock(iv: Block, i: nat): Block {
    if i == 0 then iv else Increment(CtrBlock(iv, i - 1))
  }

  lemma IncrementLast(s: seq<byte>, d: nat)
    requires d < 256
    ensures Increment(s + [d as byte]) == if d == 255 then Increment(s) + [0 as byte] else s + [(d + 1) as byte]
  {
    var t := s + [d as byte];
    assert t[|t| - 1] == d as byte && t[..|t| - 1] == s;
  }

  lemma PrefixedField(prefix: seq<byte>, hi: nat, lo: nat, len: nat)
    requires len > 0 && lo < 256
    ensures prefix + BE(256 * hi + lo, len) == (prefix + BE(hi, len - 1)) + [lo as byte]
  {
    assert (256 * hi + lo) / 256 == hi && (256 * hi + lo) % 256 == lo;
  }

  lemma IncrementCarries(prefix: seq<byte>, hi: nat, len: nat)
    requires len > 0 && Increment(prefix + BE(hi, len - 1)) == prefix + BE(hi + 1, len - 1)
    ensures Increment(prefix + BE(256 * hi + 255, len)) == prefix + BE(256 * (hi + 1) + 0, len)
  {
    PrefixedField(prefix, hi, 255, len);
    IncrementLast(prefix + BE(hi, len - 1), 255);
    PrefixedField(prefix, hi + 1, 0, len);
  }

  lemma IncrementStays(prefix: seq<byte>, hi: nat, lo: nat, len: nat)
    requires len > 0 && lo < 255
    ensures Increment(prefix + BE(256 * hi + lo, len)) == prefix + BE(256 * hi + (lo + 1), len)
  {
    PrefixedField(prefix, hi, lo, len);
    IncrementLast(prefix + BE(hi, len - 1), lo);
    PrefixedField(prefix, hi, lo + 1, len);
  }

  lemma {:induction false} IncrementField(prefix: seq<byte>, n: nat, len: nat)
    requires n + 1 < Pow256(len)
    ensures Increment(prefix + BE(n, len)) == prefix + BE(n + 1, len)
    decreases len
  {
    if len > 0 {
      var (hi, lo) := (n / 256, n % 256);
      if lo == 255 {
        IncrementField(prefix, hi, len - 1);
        IncrementCarries(prefix, hi, len);
      } else {
        IncrementStays(prefix, hi, lo, len);
      }
    }
  }

  /** Incrementing the whole 128-bit block from A_1 stays within the last L bytes: it gives A_(1+i). */
  lemma {:induction false} CounterStaysInField(nonce: seq<byte>, i: nat)
    requires NonceLength(|nonce|) && 1 + i < Pow256(FieldWidth(nonce))
    ensures CtrBlock(CounterBlock(nonce, 1), i) == CounterBlock(nonce, 1 + i)
  {
    if i > 0 {
      CounterStaysInField(nonce, i - 1);
      IncrementField([(FieldWidth(nonce) - 1) as byte] + nonce, i, FieldWidth(nonce));
    }
  }

  // ---------- section 5.4 of NIST SP 800-38C ----------

  lemma FlagsDecode(a: bool, m: nat, l: nat, a': bool, m': nat, l': nat)
    requires TagLength(m) && TagLength(m') && 2 <= l <= 8 && 2 <= l' <= 8
    requires Flags(a, m, l) == Flags(a', m', l')
    ensures a == a' && m == m' && l == l'
  {
    DigitsUnique(a, (m - 2) / 2, l - 1, a', (m' - 2) / 2, l' - 1);
  }

  lemma DigitsUnique(a: bool, x: nat, y: nat, a': bool, x': nat, y': nat)
    requires x < 8 && y < 8 && x' < 8 && y' < 8
    requires (if a then 64 else 0) + 8 * x + y == (if a' then 64 else 0) + 8 * x' + y'
    ensures a == a' && x == x' && y == y'
  {
  }

  /** B_0 is never a counter block, of any message under the key. */
  lemma FirstBlockIsNoCounter(nonce: seq<byte>, hasAad: bool, size: nat, m: nat, nonce': seq<byte>, i: nat)
    requires NonceLength(|nonce|) && NonceLength(|nonce'|) && TagLength(m)
    ensures FirstBlock(nonce, hasAad, size, m) != CounterBlock(nonce', i)
  {
    assert CounterBlock(nonce', i)[0] as int < 8 <= FirstBlock(nonce, hasAad, size, m)[0] as int;
  }

  lemma FirstBlockDecode(n: seq<byte>, a: bool, q: nat, m: nat, n': seq<byte>, a': bool, q': nat, m': nat)
    requires NonceLength(|n|) && NonceLength(|n'|) && TagLength(m) && TagLength(m')
    requires q < Pow256(FieldWidth(n)) && q' < Pow256(FieldWidth(n'))
    requires FirstBlock(n, a, q, m) == FirstBlock(n', a', q', m')
    ensures n == n' && a == a' && q == q' && m == m'
  {
    var (b, b') := (FirstBlock(n, a, q, m), FirstBlock(n', a', q', m'));
    assert b[0] == Flags(a, m, FieldWidth(n)) && b'[0] == Flags(a', m', FieldWidth(n'));
    FlagsDecode(a, m, FieldWidth(n), a', m', FieldWidth(n'));
    assert b[1..1 + |n|] == n && b'[1..1 + |n|] == n';
    assert b[1 + |n|..] == BE(q, FieldWidth(n)) && b'[1 + |n|..] == BE(q', FieldWidth(n));
    BEInjective(q, q', FieldWidth(n));
  }

  lemma PadInjective(s: seq<byte>, t: seq<byte>)
    requires |s| == |t| && Split(ZeroPad(s)) == Split(ZeroPad(t))
    ensures s == t
  {
    JoinSplit(ZeroPad(s));
    JoinSplit(ZeroPad(t));
    assert s == ZeroPad(s)[..|s|] && t == ZeroPad(t)[..|s|];
  }

  lemma ShortAadLength(aad: seq<byte>, aad': seq<byte>)
    requires 0 < |aad| < 0xFF00 && 0 < |aad'| < 0xFF00
    requires Split(ZeroPad(EncodeAad(aad)))[0] == Split(ZeroPad(EncodeAad(aad')))[0]
    ensures |aad| == |aad'|
  {
    var (s, s') := (EncodeAad(aad), EncodeAad(aad'));
    assert ZeroPad(s)[..2] == s[..2] == BE(|aad|, 2) && ZeroPad(s')[..2] == s'[..2] == BE(|aad'|, 2);
    assert Split(ZeroPad(s))[0][..2] == ZeroPad(s)[..2] && Split(ZeroPad(s'))[0][..2] == ZeroPad(s')[..2];
    Pow256Values();
    BEInjective(|aad|, |aad'|, 2);
  }

  /** Two formatted messages that agree on every common block are the same message. */
  lemma FormatDecode(n: seq<byte>, aad: seq<byte>, p: seq<byte>, m: nat,
                     n': seq<byte>, aad': seq<byte>, p': seq<byte>, m': nat)
    requires NonceLength(|n|) && NonceLength(|n'|) && TagLength(m) && TagLength(m')
    requires |p| < Pow256(FieldWidth(n)) && |p'| < Pow256(FieldWidth(n'))
    requires |aad| < 0xFF00 && |aad'| < 0xFF00
    requires forall i :: 0 <= i < |Blocks(n, EncodeAad(aad), p, m)| && i < |Blocks(n', EncodeAad(aad'), p', m')| ==>
                           Blocks(n, EncodeAad(aad), p, m)[i] == Blocks(n', EncodeAad(aad'), p', m')[i]
    ensures n == n' && aad == aad' && p == p' && m == m'
  {
    var (f, f') := (Blocks(n, EncodeAad(aad), p, m), Blocks(n', EncodeAad(aad'), p', m'));
    var (a, a') := (Split(ZeroPad(EncodeAad(aad))), Split(ZeroPad(EncodeAad(aad'))));
    assert f[0] == f'[0];
    FirstBlockDecode(n, EncodeAad(aad) != [], |p|, m, n', EncodeAad(aad') != [], |p'|, m');
    if aad != [] {
      assert f[1] == f'[1] && f[1] == a[0] && f'[1] == a'[0];
      ShortAadLength(aad, aad');
    }
    assert |EncodeAad(aad)| == |EncodeAad(aad')|;
    assert |a| == |a'| && |f| == |f'|;
    assert f == f';
    assert a == f[1..1 + |a|] && a' == f'[1..1 + |a|];
    assert Split(ZeroPad(p)) == f[1 + |a|..] && Split(ZeroPad(p')) == f'[1 + |a|..];
    PadInjective(EncodeAad(aad), EncodeAad(aad'));
    PadInjective(p, p');
    if aad != [] {
      assert aad == EncodeAad(aad)[2..] && aad' == EncodeAad(aad')[2..];
    }
  }

  /** Distinct messages differ at a common block: the formatting is injective and prefix-free. */
  lemma FormatPrefixFree(n: seq<byte>, aad: seq<byte>, p: seq<byte>, m: nat,
                         n': seq<byte>, aad': seq<byte>, p': seq<byte>, m': nat)
    requires NonceLength(|n|) && NonceLength(|n'|) && TagLength(m) && TagLength(m')
    requires |p| < Pow256(FieldWidth(n)) && |p'| < Pow256(FieldWidth(n'))
    requires |aad| < 0xFF00 && |aad'| < 0xFF00
    requires (n, aad, p, m) != (n', aad', p', m')
    ensures exists i :: 0 <= i < |Blocks(n, EncodeAad(aad), p, m)| && i < |Blocks(n', EncodeAad(aad'), p', m')| &&
                        Blocks(n, EncodeAad(aad), p, m)[i] != Blocks(n', EncodeAad(aad'), p', m')[i]
  {
    if forall i :: 0 <= i < |Blocks(n, EncodeAad(aad), p, m)| && i < |Blocks(n', EncodeAad(aad'), p', m')| ==>
                     Blocks(n, EncodeAad(aad), p, m)[i] == Blocks(n', EncodeAad(aad'), p', m')[i] {
      FormatDecode(n, aad, p, m, n', aad', p', m');
    }
  }

  lemma PadExact(s: seq<byte>)
    requires |s| % 16 == 0
    ensures ZeroPad(s) == s
  {
  }

  lemma SecondBytes(aad: seq<byte>)
    requires 0xFF00 <= |aad| < 0x1_0000_0000
    ensures |EncodeShortAad(aad)| == |aad| + 2 && |EncodeAad(aad)| == |aad| + 6
    ensures EncodeShortAad(aad)[1] as int == |aad| % 256 && EncodeAad(aad)[1] == 0xFE
  {
    assert BE(|aad|, 2)[1] == (|aad| % 256) as byte;
  }

  lemma PadsDiffer(s: seq<byte>, t: seq<byte>)
    requires |s| >= 2 && |t| == |s| + 4 && t[1] as int == 0xFE
    requires s[1] as int == 0xFE ==> |s| % 16 == 0
    ensures ZeroPad(s) != ZeroPad(t)
  {
    if s[1] as int == 0xFE {
      PadExact(s);
    } else {
      assert ZeroPad(s)[..|s|][1] != ZeroPad(t)[..|t|][1];
    }
  }

  /** What repeats every eight places and ends in eight zeros is zero throughout. */
  lemma {:induction false} ZerosRunBack(s: seq<byte>, i: nat)
    requires |s| >= 8 && i < |s|
    requires forall k :: 8 <= k < |s| ==> s[k] == s[k - 8]
    requires forall k :: |s| - 8 <= k < |s| ==> s[k] == 0
    ensures s[i] == 0
    decreases |s| - i
  {
    if i < |s| - 8 {
      ZerosRunBack(s, i + 8);
    }
  }

  /** From four gigabytes on the standard puts eight bytes more of length in front. */
  lemma LongAadDiffers(aad: seq<byte>, s: seq<byte>, t: seq<byte>, len: seq<byte>)
    requires |len| == 8 && |aad| >= 8 && s == [0xFF, 0xFF] + aad && t == [0xFF, 0xFF] + len + aad
    requires ZeroPad(s) == ZeroPad(t)
    ensures forall i :: 0 <= i < 8 ==> len[i] == 0
  {
    var z := ZeroPad(s);
    assert z[..|s|] == s && z[..|t|] == t;
    forall k | 8 <= k < |aad| ensures aad[k] == aad[k - 8] {
      assert s[2 + k] == z[2 + k] == t[2 + k] == aad[k - 8];
    }
    forall k | |aad| - 8 <= k < |aad| ensures aad[k] == 0 {
      assert z[10 + k] == t[10 + k] == aad[k];
      assert z[10 + k] == (s + Zeros((16 - |s| % 16) % 16))[10 + k] == 0;
    }
    forall i | 0 <= i < 8 ensures len[i] == 0 {
      assert s[2 + i] == z[2 + i] == t[2 + i] == len[i];
      ZerosRunBack(aad, i);
    }
  }

  lemma {:induction false} FromBEOfZeros(s: seq<byte>)
    requires forall i :: 0 <= i < |s| ==> s[i] == 0
    ensures FromBE(s) == 0
    decreases |s|
  {
    if s != [] {
      FromBEOfZeros(s[..|s| - 1]);
    }
  }

  /** Were they equal, the data would repeat the eight length bytes and end in zeros, so its length would be zero. */
  lemma LongAadNotShort(aad: seq<byte>, n: nat)
    requires n == |aad| && 0x1_0000_0000 <= n < Pow256(8)
    ensures ZeroPad(BE(n, 2) + aad) != ZeroPad([0xFF, 0xFF] + BE(n, 8) + aad)
  {
    var (s, t) := (BE(n, 2) + aad, [0xFF, 0xFF] + BE(n, 8) + aad);
    if ZeroPad(s) == ZeroPad(t) {
      assert BE(n, 2) == ZeroPad(s)[..2] == ZeroPad(t)[..2] == [0xFF, 0xFF];
      LongAadDiffers(aad, s, t, BE(n, 8));
      FromBEOfZeros(BE(n, 8));
      FromBEOfBE(n, 8);
    }
  }

  /** The one form the program writes is the standard's exactly below 2^16 - 2^8 bytes. */
  lemma ShortAadIsStandard(aad: seq<byte>)
    requires |aad| < Pow256(8)
    ensures ZeroPad(EncodeShortAad(aad)) == ZeroPad(EncodeAad(aad)) <==> |aad| < 0xFF00
  {
    if |aad| >= 0x1_0000_0000 {
      LongAadNotShort(aad, |aad|);
    } else if |aad| >= 0xFF00 {
      SecondBytes(aad);
      PadsDiffer(EncodeShortAad(aad), EncodeAad(aad));
    }
  }
}
