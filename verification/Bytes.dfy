/** Bytes, 16-byte blocks and fixed-width integers as they are laid out on disk. */
module Bytes {
  newtype byte = x: int | 0 <= x < 256

  type Block = s: seq<byte> | |s| == 16 witness seq(16, _ => 0)

  type U16 = n: nat | n < 0x1_0000
  type U32 = n: nat | n < 0x1_0000_0000
  type I64 = n: int | -0x8000_0000_0000_0000 <= n < 0x8000_0000_0000_0000
  type U64 = n: nat | n < 0x1_0000_0000_0000_0000

  const ZERO_BLOCK: Block := seq(16, _ => 0)

  datatype Option<+T> = None | Some(value: T)

  datatype Result<+T, +E> = Ok(value: T) | Err(error: E)

  /** The low 64 bits of a number as a signed one, for numbers at most one wrap-around away. */
  function AsInt64(n: int): int {
    if n >= 0x8000_0000_0000_0000 then n - 0x1_0000_0000_0000_0000
    else if n < -0x8000_0000_0000_0000 then n + 0x1_0000_0000_0000_0000
    else n
  }

  /** The one signed 64-bit number with the same low 64 bits. */
  lemma AsInt64Is(n: int)
    requires -0x1_0000_0000_0000_0000 <= n < 0x1_0000_0000_0000_0000 + 0x8000_0000_0000_0000
    ensures -0x8000_0000_0000_0000 <= AsInt64(n) < 0x8000_0000_0000_0000
    ensures (n - AsInt64(n)) % 0x1_0000_0000_0000_0000 == 0
  {
  }

  // ---------- bytes and numbers ----------

  function Pow256(k: nat): (p: nat)
    ensures p > 0
  {
    if k == 0 then 1 else 256 * Pow256(k - 1)
  }

  lemma Pow256Values()
    ensures Pow256(2) == 0x1_0000
    ensures Pow256(4) == 0x1_0000_0000
    ensures Pow256(8) == 0x1_0000_0000_0000_0000
  {
    assert Pow256(4) == 256 * 256 * Pow256(2);
    assert Pow256(6) == 256 * 256 * Pow256(4);
    assert Pow256(8) == 256 * 256 * Pow256(6);
  }

  /** The low `len` bytes of n, least significant first. */
  function LE(n: nat, len: nat): (s: seq<byte>)
    ensures |s| == len
    decreases len, n
  {
    if len == 0 then [] else [(n % 256) as byte] + LE(n / 256, len - 1)
  }

  function FromLE(s: seq<byte>): nat {
    if s == [] then 0 else s[0] as int + 256 * FromLE(s[1..])
  }

  /** The low `len` bytes of n, most significant first. */
  function BE(n: nat, len: nat): (s: seq<byte>)
    ensures |s| == len
    decreases len
  {
    if len == 0 then [] else BE(n / 256, len - 1) + [(n % 256) as byte]
  }

  function FromBE(s: seq<byte>): nat {
    if s == [] then 0 else 256 * FromBE(s[..|s| - 1]) + s[|s| - 1] as int
  }

  lemma {:induction false} FromLEOfLE(n: nat, len: nat)
    requires n < Pow256(len)
    ensures FromLE(LE(n, len)) == n
    decreases len
  {
    if len > 0 {
      FromLEOfLE(n / 256, len - 1);
      assert LE(n, len)[1..] == LE(n / 256, len - 1);
    }
  }

  lemma {:induction false} FromLEBound(s: seq<byte>)
    ensures FromLE(s) < Pow256(|s|)
  {
    if s != [] {
      FromLEBound(s[1..]);
    }
  }

  lemma FromLEInjective(s: seq<byte>, t: seq<byte>)
    requires |s| == |t| && FromLE(s) == FromLE(t)
    ensures s == t
  {
    LEOfFromLE(s);
    LEOfFromLE(t);
  }

  lemma {:induction false} LEOfFromLE(s: seq<byte>)
    ensures LE(FromLE(s), |s|) == s
  {
    if s != [] {
      LEOfFromLE(s[1..]);
      assert FromLE(s) % 256 == s[0] as int && FromLE(s) / 256 == FromLE(s[1..]);
      assert s == [s[0]] + s[1..];
    }
  }

  lemma {:induction false} FromBEOfBE(n: nat, len: nat)
    requires n < Pow256(len)
    ensures FromBE(BE(n, len)) == n
    decreases len
  {
    if len > 0 {
      FromBEOfBE(n / 256, len - 1);
      assert BE(n, len)[..len - 1] == BE(n / 256, len - 1);
    }
  }

  /** Two numbers that fit in `len` bytes are equal when their encodings are. */
  lemma BEInjective(m: nat, n: nat, len: nat)
    requires m < Pow256(len) && n < Pow256(len) && BE(m, len) == BE(n, len)
    ensures m == n
  {
    FromBEOfBE(m, len);
    FromBEOfBE(n, len);
  }

  /** The value of a byte string, seen from its other end. */
  lemma {:induction false} FromLEAppend(s: seq<byte>, b: byte)
    ensures FromLE(s + [b]) == FromLE(s) + Pow256(|s|) * (b as int)
  {
    if s == [] {
      assert s + [b] == [b];
    } else {
      FromLEAppend(s[1..], b);
      assert (s + [b])[1..] == s[1..] + [b];
      Regroup(Pow256(|s| - 1), b as int);
    }
  }

  lemma Regroup(p: nat, b: nat)
    ensures 256 * (p * b) == (256 * p) * b
  {
  }

  /** Zeros at the most significant end change nothing. */
  lemma {:induction false} FromLEOfPadded(s: seq<byte>, z: seq<byte>)
    requires forall i :: 0 <= i < |z| ==> z[i] == 0
    ensures FromLE(s + z) == FromLE(s)
    decreases |z|
  {
    if z == [] {
      assert s + z == s;
    } else {
      var front := z[..|z| - 1];
      FromLEOfPadded(s, front);
      FromLEAppend(s + front, 0);
      assert s + z == (s + front) + [0];
    }
  }

  lemma Quotient(n: int, d: int, q: int, r: int)
    requires d > 0 && n == q * d + r && 0 <= r < d
    ensures n / d == q
  {
    var e := n / d - q;
    assert e * d == r - n % d;
    MultipleBound(e, d);
  }

  lemma MultipleBound(e: int, d: int)
    requires d > 0
    ensures e >= 1 ==> e * d >= d
    ensures e <= -1 ==> e * d <= -d
  {
  }

  lemma ModuloDigit(n: nat, p: nat)
    requires p > 0
    ensures n % (256 * p) == n % 256 + 256 * (n / 256 % p)
  {
    var (q, r) := (n / 256 / p, n / 256 % p);
    assert n / 256 == p * q + r;
    assert n == q * (256 * p) + (n % 256 + 256 * r);
    Quotient(n, 256 * p, q, n % 256 + 256 * r);
  }

  /** What does not fit is dropped. */
  lemma {:induction false} FromLEOfAnyLE(n: nat, len: nat)
    ensures FromLE(LE(n, len)) == n % Pow256(len)
    decreases len
  {
    if len > 0 {
      FromLEOfAnyLE(n / 256, len - 1);
      assert LE(n, len)[1..] == LE(n / 256, len - 1);
      ModuloDigit(n, Pow256(len - 1));
    }
  }

  lemma {:induction false} BEOfFromBE(s: seq<byte>)
    ensures BE(FromBE(s), |s|) == s
    decreases |s|
  {
    if s != [] {
      var (front, last) := (s[..|s| - 1], s[|s| - 1]);
      BEOfFromBE(front);
      assert FromBE(s) / 256 == FromBE(front) && FromBE(s) % 256 == last as int;
      assert s == front + [last];
    }
  }

  // ---------- bitwise operators, digit by digit ----------

  /** n << k. */
  function Shl(n: nat, k: nat): (r: nat)
    ensures n > 0 ==> r > 0
    ensures n == 0 ==> r == 0
  {
    if k == 0 then n else 2 * Shl(n, k - 1)
  }

  function XorBits(a: nat, b: nat): nat {
    if a == 0 && b == 0 then 0 else 2 * XorBits(a / 2, b / 2) + (if a % 2 != b % 2 then 1 else 0)
  }

  function OrBits(a: nat, b: nat): nat {
    if a == 0 && b == 0 then 0 else 2 * OrBits(a / 2, b / 2) + (if a % 2 == 1 || b % 2 == 1 then 1 else 0)
  }

  lemma {:induction false} XorBelow(a: nat, b: nat, k: nat)
    requires a < Shl(1, k) && b < Shl(1, k)
    ensures XorBits(a, b) < Shl(1, k)
    decreases k
  {
    if k > 0 && (a > 0 || b > 0) {
      XorBelow(a / 2, b / 2, k - 1);
    }
  }

  lemma {:induction false} XorBitsCancels(a: nat, b: nat)
    ensures XorBits(XorBits(a, b), b) == a
    decreases a + b
  {
    if a > 0 || b > 0 {
      XorBitsCancels(a / 2, b / 2);
      var x := XorBits(a, b);
      assert x / 2 == XorBits(a / 2, b / 2) && (x % 2 == 1 <==> a % 2 != b % 2);
    }
  }

  /** Digits of h from bit k on and digits of lo below it do not meet. */
  lemma {:induction false} OrIsSum(h: nat, lo: nat, k: nat)
    requires lo < Shl(1, k)
    ensures OrBits(Shl(h, k), lo) == Shl(h, k) + lo
    decreases k
  {
    if k == 0 {
      OrZero(h);
    } else {
      OrIsSum(h, lo / 2, k - 1);
    }
  }

  /** Like exclusive or, or works on the digits from bit k on and on those below it separately. */
  lemma {:induction false} OrSplits(h: nat, l: nat, h': nat, l': nat, k: nat)
    requires l < Shl(1, k) && l' < Shl(1, k)
    ensures OrBits(Shl(h, k) + l, Shl(h', k) + l') == Shl(OrBits(h, h'), k) + OrBits(l, l')
    decreases k
  {
    if k > 0 {
      OrSplits(h, l / 2, h', l' / 2, k - 1);
      OrHalves(Shl(h, k) + l, Shl(h', k) + l', Shl(h, k - 1), l, Shl(h', k - 1), l',
              Shl(OrBits(h, h'), k - 1));
    }
  }

  lemma OrHalves(a: nat, b: nat, m: nat, l: nat, m': nat, l': nat, x: nat)
    requires a == 2 * m + l && b == 2 * m' + l'
    requires OrBits(m + l / 2, m' + l' / 2) == x + OrBits(l / 2, l' / 2)
    ensures OrBits(a, b) == 2 * x + OrBits(l, l')
  {
    assert (2 * m + l) / 2 == m + l / 2 && (2 * m' + l') / 2 == m' + l' / 2;
  }

  lemma {:induction false} OrCommutes(a: nat, b: nat)
    ensures OrBits(a, b) == OrBits(b, a)
    decreases a + b
  {
    if a > 0 || b > 0 { OrCommutes(a / 2, b / 2); }
  }

  lemma {:induction false} OrZero(h: nat)
    ensures OrBits(h, 0) == h
  {
    if h > 0 { OrZero(h / 2); }
  }

  function XorByte(a: byte, b: byte): byte {
    XorByteRange(a, b);
    XorBits(a as int, b as int) as byte
  }

  lemma XorByteRange(a: byte, b: byte)
    ensures XorBits(a as int, b as int) < 256
  {
    Shl8(1);
    XorBelow(a as int, b as int, 8);
  }

  lemma Shl8(n: nat)
    ensures Shl(n, 8) == 256 * n
  {
    assert Shl(n, 1) == 2 * n;
    assert Shl(n, 2) == 4 * n;
    assert Shl(n, 3) == 8 * n;
    assert Shl(n, 4) == 16 * n;
    assert Shl(n, 5) == 32 * n;
    assert Shl(n, 6) == 64 * n;
  }

  lemma {:induction false} XorCommutes(a: nat, b: nat)
    ensures XorBits(a, b) == XorBits(b, a)
    decreases a + b
  {
    if a > 0 || b > 0 { XorCommutes(a / 2, b / 2); }
  }

  lemma {:induction false} XorZero(a: nat)
    ensures XorBits(a, 0) == a
  {
    if a > 0 { XorZero(a / 2); }
  }

  lemma {:induction false} XorAssociates(a: nat, b: nat, c: nat)
    ensures XorBits(XorBits(a, b), c) == XorBits(a, XorBits(b, c))
    decreases a + b + c
  {
    if a > 0 || b > 0 || c > 0 {
      XorAssociates(a / 2, b / 2, c / 2);
      XorDigit(a, b);
      XorDigit(b, c);
      XorDigit(XorBits(a, b), c);
      XorDigit(a, XorBits(b, c));
    }
  }

  lemma XorDigit(a: nat, b: nat)
    ensures XorBits(a, b) / 2 == XorBits(a / 2, b / 2)
    ensures XorBits(a, b) % 2 == 1 <==> a % 2 != b % 2
  {
  }

  /** Exclusive or works on the digits from bit k on and on those below it separately. */
  lemma {:induction false} XorSplits(h: nat, l: nat, h': nat, l': nat, k: nat)
    requires l < Shl(1, k) && l' < Shl(1, k)
    ensures XorBits(Shl(h, k) + l, Shl(h', k) + l') == Shl(XorBits(h, h'), k) + XorBits(l, l')
    decreases k
  {
    if k > 0 {
      XorSplits(h, l / 2, h', l' / 2, k - 1);
      XorHalves(Shl(h, k) + l, Shl(h', k) + l', Shl(h, k - 1), l, Shl(h', k - 1), l',
               Shl(XorBits(h, h'), k - 1));
    }
  }

  lemma XorHalves(a: nat, b: nat, m: nat, l: nat, m': nat, l': nat, x: nat)
    requires a == 2 * m + l && b == 2 * m' + l'
    requires XorBits(m + l / 2, m' + l' / 2) == x + XorBits(l / 2, l' / 2)
    ensures XorBits(a, b) == 2 * x + XorBits(l, l')
  {
    assert (2 * m + l) / 2 == m + l / 2 && (2 * m' + l') / 2 == m' + l' / 2;
    XorDigit(2 * m + l, 2 * m' + l');
    XorDigit(l, l');
  }

  // ---------- exclusive or of byte strings ----------

  function Xor(a: seq<byte>, b: seq<byte>): (r: seq<byte>)
    requires |a| <= |b|
    ensures |r| == |a|
    ensures forall i :: 0 <= i < |a| ==> r[i] == XorByte(a[i], b[i])
  {
    seq(|a|, i requires 0 <= i < |a| => XorByte(a[i], b[i]))
  }

  lemma XorCancels(a: seq<byte>, b: seq<byte>)
    requires |a| <= |b|
    ensures Xor(Xor(a, b), b) == a
  {
    forall i | 0 <= i < |a| ensures Xor(Xor(a, b), b)[i] == a[i] {
      XorBitsCancels(a[i] as int, b[i] as int);
    }
  }

  /** As numbers, byte strings are combined digit by digit too. */
  lemma {:induction false} FromLEOfXor(a: seq<byte>, b: seq<byte>)
    requires |a| == |b|
    ensures FromLE(Xor(a, b)) == XorBits(FromLE(a), FromLE(b))
  {
    if a != [] {
      FromLEOfXor(a[1..], b[1..]);
      assert Xor(a, b)[1..] == Xor(a[1..], b[1..]);
      XorBytes(FromLE(a[1..]), a[0], FromLE(b[1..]), b[0]);
    }
  }

  /** The lowest base-256 digit is combined on its own. */
  lemma XorBytes(h: nat, l: byte, h': nat, l': byte)
    ensures XorBits(l as int + 256 * h, l' as int + 256 * h') == XorByte(l, l') as int + 256 * XorBits(h, h')
  {
    Shl8(1);
    Shl8(h);
    Shl8(h');
    Shl8(XorBits(h, h'));
    XorSplits(h, l as int, h', l' as int, 8);
  }

  // ---------- byte strings as blocks ----------

  /** The whole 16-byte blocks of s. */
  function Split(s: seq<byte>): (bs: seq<Block>)
    ensures |bs| == |s| / 16
    ensures forall j :: 0 <= j < |bs| ==> bs[j] == s[16 * j..16 * j + 16]
  {
    seq(|s| / 16, j requires 0 <= j < |s| / 16 => s[16 * j..16 * j + 16])
  }

  function Join(bs: seq<Block>): (s: seq<byte>)
    ensures |s| == 16 * |bs|
    ensures forall i :: 0 <= i < |s| ==> s[i] == bs[i / 16][i % 16]
  {
    seq(16 * |bs|, i requires 0 <= i < 16 * |bs| => bs[i / 16][i % 16])
  }

  lemma SplitJoin(bs: seq<Block>)
    ensures Split(Join(bs)) == bs
  {
    forall j | 0 <= j < |bs| ensures Split(Join(bs))[j] == bs[j] {
      forall i | 0 <= i < 16 ensures Split(Join(bs))[j][i] == bs[j][i] {
        assert (16 * j + i) / 16 == j && (16 * j + i) % 16 == i;
      }
    }
  }

  lemma JoinAt(bs: seq<Block>, j: nat)
    requires j < |bs|
    ensures Join(bs)[16 * j..16 * j + 16] == bs[j]
  {
    assert Split(Join(bs))[j] == bs[j] by { SplitJoin(bs); }
  }

  lemma JoinSplit(s: seq<byte>)
    requires |s| % 16 == 0
    ensures Join(Split(s)) == s
  {
    forall i | 0 <= i < |s| ensures Join(Split(s))[i] == s[i] {
      assert Split(s)[i / 16] == s[16 * (i / 16)..16 * (i / 16) + 16];
    }
  }

  lemma SliceOfPrefix(s: seq<byte>, n: nat, i: nat, k: nat)
    requires i <= k <= n <= |s|
    ensures s[i..k] == s[..n][i..k]
  {
  }

  lemma SliceOfSlice(s: seq<byte>, lo: nat, hi: nat, i: nat, k: nat)
    requires lo <= hi <= |s| && i <= k <= hi - lo
    ensures s[lo..hi][i..k] == s[lo + i..lo + k]
  {
    var (t, n) := (s[lo..hi], k - i);
    forall j | 0 <= j < n ensures t[i..k][j] == s[lo + i..lo + k][j] {
      assert t[i + j] == s[lo + (i + j)];
    }
  }

  lemma SliceOfTail(s: seq<byte>, n: nat, m: nat)
    requires n + m <= |s|
    ensures s[n..][m..] == s[n + m..]
  {
  }

  lemma Reassociate<T>(a: seq<T>, b: seq<T>, c: seq<T>)
    ensures a + (b + c) == (a + b) + c
  {
  }

  // ---------- what stands where ----------

  /** s stands in data at pos. */
  ghost predicate At(data: seq<byte>, pos: nat, s: seq<byte>) {
    pos + |s| <= |data| && data[pos..pos + |s|] == s
  }

  lemma AtParts(data: seq<byte>, pos: nat, a: seq<byte>, b: seq<byte>)
    ensures At(data, pos, a + b) <==> At(data, pos, a) && At(data, pos + |a|, b)
  {
    if At(data, pos, a + b) {
      assert a == (a + b)[..|a|] == data[pos..pos + |a|];
      assert b == (a + b)[|a|..] == data[pos + |a|..pos + |a| + |b|];
    }
    if At(data, pos, a) && At(data, pos + |a|, b) {
      assert data[pos..pos + |a + b|] == data[pos..pos + |a|] + data[pos + |a|..pos + |a| + |b|];
    }
  }
}
