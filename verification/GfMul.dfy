/** Doubling of an XTS tweak: multiplication by x in GF(2^128) on a little-endian byte array.
  * A polynomial over GF(2) is the number whose binary digits are its coefficients: the sum of two
  * polynomials is XorBits and the product with x is doubling.
  */
module GfMul {
  import opened Bytes

  /** 2^128. */
  const ORDER: nat := 0x1_0000_0000_0000_0000_0000_0000_0000_0000

  /** x^128 + x^7 + x^2 + x + 1, section 5.2 of IEEE Std 1619-2007. */
  const MODULUS: nat := ORDER + 0x87

  /** The product of two polynomials. */
  function Times(p: nat, q: nat): nat
    decreases p
  {
    if p == 0 then 0 else XorBits(if p % 2 == 1 then q else 0, 2 * Times(p / 2, q))
  }

  /** v * x, the modulus m added when the product reaches the degree of 2^n = order. */
  function TimesXModulo(v: nat, order: nat, m: nat): nat {
    if 2 * v >= order then XorBits(2 * v, m) else 2 * v
  }

  function TimesX(v: nat): nat {
    TimesXModulo(v, ORDER, MODULUS)
  }

  lemma OrderIsPower()
    ensures Pow256(16) == ORDER == Shl(1, 128) && ORDER == 2 * Shl(1, 127)
  {
    assert Pow256(4) == 0x1_0000_0000;
    assert Pow256(8) == 0x1_0000_0000_0000_0000 by { assert Pow256(6) == 0x1_0000_0000_0000; }
    assert Pow256(12) == 0x1_0000_0000_0000_0000_0000_0000 by { assert Pow256(10) == 0x1_0000_0000_0000_0000_0000; }
    assert Pow256(14) == 0x1_0000_0000_0000_0000_0000_0000_0000;
    ShlBytes(16);
  }

  lemma {:induction false} ShlBytes(k: nat)
    ensures Shl(1, 8 * k) == Pow256(k)
  {
    if k > 0 {
      ShlBytes(k - 1);
      var n := 8 * (k - 1);
      assert Shl(1, n + 2) == 4 * Shl(1, n);
      assert Shl(1, n + 4) == 4 * Shl(1, n + 2);
      assert Shl(1, n + 6) == 4 * Shl(1, n + 4);
      assert Shl(1, n + 8) == 4 * Shl(1, n + 6);
    }
  }

  // ---------- the byte-carry loop ----------

  /** (b << 1) | carry. */
  function ShiftIn(b: byte, carry: byte): byte
    requires carry <= 1
  {
    ((2 * (b as int)) % 256 + carry as int) as byte
  }

  /** b >> 7. */
  function HighBit(b: byte): (c: byte)
    ensures c <= 1
  {
    b / 128
  }

  lemma ShiftInIsOr(b: byte, carry: byte)
    requires carry <= 1
    ensures OrBits((2 * (b as int)) % 256, carry as int) == ShiftIn(b, carry) as int
  {
    var h: nat := (b as int) % 128;
    assert Shl(1, 1) == 2 && (2 * (b as int)) % 256 == 2 * h == Shl(h, 1);
    OrIsSum(h, carry as int, 1);
  }

  function Shifted(s: seq<byte>, carry: byte): (r: seq<byte>)
    requires carry <= 1
    ensures |r| == |s|
  {
    seq(|s|, i requires 0 <= i < |s| => ShiftIn(s[i], if i == 0 then carry else HighBit(s[i - 1])))
  }

  function MulX(t: Block): Block {
    var s := Shifted(t, 0);
    if HighBit(t[15]) != 0 then s[0 := XorByte(s[0], 0x87)] else s
  }

  method GfMulX(tweak: array<byte>)
    requires tweak.Length == 16
    modifies tweak
    ensures tweak[..] == MulX(old(tweak[..]))
  {
    ghost var shifted := Shifted(tweak[..], 0);
    var carry: byte := 0;
    for i := 0 to 16
      invariant forall k :: i <= k < 16 ==> tweak[k] == old(tweak[k])
      invariant forall k :: 0 <= k < i ==> tweak[k] == shifted[k]
      invariant carry == if i == 0 then 0 else HighBit(old(tweak[i - 1]))
    {
      var b := tweak[i];
      var newCarry := HighBit(b);
      ShiftInIsOr(b, carry);
      tweak[i] := OrBits((2 * (b as int)) % 256, carry as int) as byte;
      carry := newCarry;
    }
    assert tweak[..] == shifted;
    if carry != 0 {
      tweak[0] := XorByte(tweak[0], 0x87);
    }
  }

  /** j doublings of t: the tweak of block j. */
  function MulXPow(t: Block, j: nat): Block
    decreases j
  {
    if j == 0 then t else MulX(MulXPow(t, j - 1))
  }

  // ---------- the byte loop is multiplication by x modulo MODULUS ----------

  lemma ShiftInValue(b: byte, carry: byte)
    requires carry <= 1
    ensures 2 * (b as int) + carry as int == ShiftIn(b, carry) as int + 256 * (HighBit(b) as int)
  {
  }

  lemma {:induction false} ShiftedValue(s: seq<byte>, carry: byte)
    requires carry <= 1 && s != []
    ensures FromLE(Shifted(s, carry)) + (if HighBit(s[|s| - 1]) != 0 then Pow256(|s|) else 0)
         == 2 * FromLE(s) + carry as int
  {
    var (r, c, rest) := (Shifted(s, carry), HighBit(s[0]), s[1..]);
    ShiftInValue(s[0], carry);
    assert r[0] == ShiftIn(s[0], carry);
    assert r[1..] == Shifted(rest, c);
    if rest == [] {
      assert Pow256(1) == 256;
    } else {
      ShiftedValue(rest, c);
      assert rest[|rest| - 1] == s[|s| - 1] && |rest| == |s| - 1;
    }
  }

  lemma ReducedValue(s: Block)
    ensures FromLE(s[0 := XorByte(s[0], 0x87)]) == XorBits(FromLE(s), 0x87)
  {
    assert s[0 := XorByte(s[0], 0x87)][1..] == s[1..];
    XorZero(FromLE(s[1..]));
    XorBytes(FromLE(s[1..]), s[0], 0, 0x87);
  }

  /** The top digits of 2^128 + l and of the modulus cancel. */
  lemma ReduceTop(l: nat)
    requires l < ORDER
    ensures XorBits(ORDER + l, MODULUS) == XorBits(l, 0x87)
  {
    OrderIsPower();
    XorSplits(1, l, 1, 0x87, 128);
    XorOnes();
  }

  lemma XorOnes()
    ensures XorBits(1, 1) == 0 && XorBits(1, 0) == 1 && XorBits(0, 1) == 1 && XorBits(0, 0) == 0
  {
  }

  /** One pass of the byte loop multiplies the little-endian value by x, modulo the field polynomial. */
  lemma MulXIsTimesX(t: Block)
    ensures FromLE(MulX(t)) == TimesX(FromLE(t)) < ORDER
  {
    var s := Shifted(t, 0);
    OrderIsPower();
    ShiftedValue(t, 0);
    FromLEBound(s);
    FromLEBound(MulX(t));
    if HighBit(t[15]) != 0 {
      ReducedValue(s);
      ReduceTop(FromLE(s));
    }
  }

  /** After j doublings the value is the remainder of v * x^j: v * x^j = quotient * MODULUS + remainder. */
  lemma {:induction false} MulXPowIsRemainder(t: Block, j: nat) returns (quotient: nat)
    ensures Shl(FromLE(t), j) == XorBits(Times(quotient, MODULUS), FromLE(MulXPow(t, j)))
    ensures FromLE(MulXPow(t, j)) < ORDER
    decreases j
  {
    if j == 0 {
      quotient := 0;
      XorCommutes(FromLE(t), 0);
      XorZero(FromLE(t));
      FromLEBound(t);
      OrderIsPower();
    } else {
      var q := MulXPowIsRemainder(t, j - 1);
      MulXIsTimesX(MulXPow(t, j - 1));
      quotient := RemainderStep(q, FromLE(MulXPow(t, j - 1)), ORDER, MODULUS);
    }
  }

  lemma RemainderStep(q: nat, r: nat, order: nat, m: nat) returns (q': nat)
    ensures 2 * XorBits(Times(q, m), r) == XorBits(Times(q', m), TimesXModulo(r, order, m))
  {
    q' := 2 * q + (if 2 * r >= order then 1 else 0);
    var p := Times(q, m);
    DoubleXor(p, r);
    TimesDoubled(q, m);
    if 2 * r >= order {
      MoveAcross(2 * p, 2 * r, m);
    }
  }

  lemma TimesDoubled(q: nat, m: nat)
    ensures Times(2 * q, m) == 2 * Times(q, m)
    ensures Times(2 * q + 1, m) == XorBits(m, 2 * Times(q, m))
  {
    XorCommutes(0, 2 * Times(q, m));
    XorZero(2 * Times(q, m));
  }

  lemma MoveAcross(a: nat, b: nat, m: nat)
    ensures XorBits(XorBits(m, a), XorBits(b, m)) == XorBits(a, b)
  {
    XorCommutes(m, a);
    XorAssociates(a, m, XorBits(b, m));
    XorCommutes(m, XorBits(b, m));
    XorBitsCancels(b, m);
  }

  lemma DoubleXor(a: nat, b: nat)
    ensures XorBits(2 * a, 2 * b) == 2 * XorBits(a, b)
  {
  }

  // ---------- the remainder is the only one ----------

  lemma ModulusIs()
    ensures MODULUS == Shl(1, 128) + Shl(1, 7) + Shl(1, 2) + Shl(1, 1) + 1
  {
    OrderIsPower();
    assert Shl(1, 2) == 4 && Shl(1, 4) == 16 && Shl(1, 6) == 64;
  }

  /** Multiplication distributes over the sum of polynomials. */
  lemma {:induction false} TimesXor(p: nat, q: nat, m: nat)
    ensures Times(XorBits(p, q), m) == XorBits(Times(p, m), Times(q, m))
    decreases p + q
  {
    if p > 0 || q > 0 {
      TimesXor(p / 2, q / 2, m);
      XorDigit(p, q);
      TimesStep(p, m);
      TimesStep(q, m);
      TimesStep(XorBits(p, q), m);
      var (x, y) := (Times(p / 2, m), Times(q / 2, m));
      DoubleXor(x, y);
      SumOfSteps(p % 2 == 1, q % 2 == 1, 2 * x, 2 * y, m);
    }
  }

  lemma TimesStep(p: nat, m: nat)
    ensures Times(p, m) == XorBits(if p % 2 == 1 then m else 0, 2 * Times(p / 2, m))
  {
  }

  lemma SumOfSteps(a: bool, b: bool, x: nat, y: nat, m: nat)
    ensures XorBits(XorBits(if a then m else 0, x), XorBits(if b then m else 0, y))
         == XorBits(if a != b then m else 0, XorBits(x, y))
  {
    ZeroXor(x);
    ZeroXor(y);
    ZeroXor(XorBits(x, y));
    XorAssociates(m, x, y);
    if b {
      XorCommutes(m, y);
      if a {
        MoveAcross(x, y, m);
      } else {
        XorAssociates(x, y, m);
        XorCommutes(XorBits(x, y), m);
      }
    }
  }

  lemma ZeroXor(x: nat)
    ensures XorBits(0, x) == x
  {
    XorCommutes(0, x);
    XorZero(x);
  }

  /** Digits from k on cannot be cleared by a number below 2^k. */
  lemma {:induction false} XorKeepsHigh(a: nat, b: nat, k: nat)
    requires a < Shl(1, k) && b >= Shl(1, k)
    ensures XorBits(a, b) >= Shl(1, k)
    decreases k
  {
    if k == 0 {
      ZeroXor(b);
    } else {
      XorKeepsHigh(a / 2, b / 2, k - 1);
    }
  }

  /** A multiple of a polynomial of degree k has at least that degree. */
  lemma {:induction false} TimesKeepsDegree(p: nat, m: nat, k: nat)
    requires p > 0 && Shl(1, k) <= m < Shl(1, k + 1)
    ensures Times(p, m) >= Shl(1, k)
    decreases p
  {
    TimesStep(p, m);
    if p == 1 {
      XorZero(m);
    } else {
      TimesKeepsDegree(p / 2, m, k);
      XorKeepsHigh(if p % 2 == 1 then m else 0, 2 * Times(p / 2, m), k + 1);
    }
  }

  lemma {:induction false} XorSelf(a: nat)
    ensures XorBits(a, a) == 0
  {
    if a > 0 { XorSelf(a / 2); }
  }

  /** Two numbers that differ by a multiple of the modulus, both below 2^k, are equal. */
  lemma RemainderUnique(q: nat, r: nat, q': nat, r': nat, m: nat, k: nat)
    requires Shl(1, k) <= m < Shl(1, k + 1) && r < Shl(1, k) && r' < Shl(1, k)
    requires XorBits(Times(q, m), r) == XorBits(Times(q', m), r')
    ensures r == r'
  {
    var (x, y, d) := (Times(q, m), Times(q', m), XorBits(q, q'));
    TimesXor(q, q', m);
    XorBelow(r, r', k);
    SameDifference(x, r, y, r');
    if d > 0 {
      TimesKeepsDegree(d, m, k);
    } else {
      XorBitsCancels(r, r');
      ZeroXor(r');
    }
  }

  lemma SameDifference(x: nat, r: nat, y: nat, r': nat)
    requires XorBits(x, r) == XorBits(y, r')
    ensures XorBits(x, y) == XorBits(r, r')
  {
    XorBitsCancels(x, r);
    XorBitsCancels(y, r');
    var s := XorBits(x, r);
    XorCommutes(s, r');
    MoveAcross(r, r', s);
    XorCommutes(s, r);
  }

  /** The tweak of block j, told apart by being the remainder of v * x^j. */
  lemma TweakIsRemainder(v: Block, j: nat, t: Block, q: nat)
    requires FromLE(t) < ORDER && Shl(FromLE(v), j) == XorBits(Times(q, MODULUS), FromLE(t))
    ensures t == MulXPow(v, j)
  {
    var q' := MulXPowIsRemainder(v, j);
    OrderIsPower();
    RemainderUnique(q, FromLE(t), q', FromLE(MulXPow(v, j)), MODULUS, 128);
    FromLEInjective(t, MulXPow(v, j));
  }

  // ---------- linear and injective ----------

  /** An odd modulus shows in the lowest digit, so the reduction can be undone. */
  lemma TimesXInjective(v: nat, w: nat, order: nat, m: nat)
    requires m % 2 == 1 && TimesXModulo(v, order, m) == TimesXModulo(w, order, m)
    ensures v == w
  {
    XorDigit(2 * v, m);
    XorDigit(2 * w, m);
    XorBitsCancels(2 * v, m);
    XorBitsCancels(2 * w, m);
  }

  function TimesXPow(v: nat, j: nat): nat
    decreases j
  {
    if j == 0 then v else TimesX(TimesXPow(v, j - 1))
  }

  lemma {:induction false} MulXPowValue(t: Block, j: nat)
    ensures FromLE(MulXPow(t, j)) == TimesXPow(FromLE(t), j)
    decreases j
  {
    if j > 0 {
      MulXPowValue(t, j - 1);
      MulXIsTimesX(MulXPow(t, j - 1));
    }
  }

  lemma {:induction false} TimesXPowInjective(v: nat, w: nat, j: nat)
    requires TimesXPow(v, j) == TimesXPow(w, j)
    ensures v == w
    decreases j
  {
    if j > 0 {
      TimesXInjective(TimesXPow(v, j - 1), TimesXPow(w, j - 1), ORDER, MODULUS);
      TimesXPowInjective(v, w, j - 1);
    }
  }

  /** Distinct sector tweaks stay distinct at every block of the sector. */
  lemma TweaksNeverCollapse(a: Block, b: Block, j: nat)
    requires MulXPow(a, j) == MulXPow(b, j)
    ensures a == b
  {
    MulXPowValue(a, j);
    MulXPowValue(b, j);
    TimesXPowInjective(FromLE(a), FromLE(b), j);
    FromLEInjective(a, b);
  }

  /** Whether a sum has digit k, for numbers of k + 1 digits. */
  lemma TopDigit(v: nat, w: nat, k: nat)
    requires v < 2 * Shl(1, k) && w < 2 * Shl(1, k)
    ensures XorBits(v, w) >= Shl(1, k) <==> ((v >= Shl(1, k)) != (w >= Shl(1, k)))
  {
    var p := Shl(1, k);
    var (h, h') := (if v >= p then 1 else 0, if w >= p then 1 else 0);
    var (l, l') := (if v >= p then v - p else v, if w >= p then w - p else w);
    XorSplits(h, l, h', l', k);
    XorBelow(l, l', k);
    XorOnes();
  }

  lemma TimesXLinear(v: nat, w: nat, k: nat, m: nat)
    requires v < 2 * Shl(1, k) && w < 2 * Shl(1, k)
    ensures TimesXModulo(XorBits(v, w), 2 * Shl(1, k), m)
         == XorBits(TimesXModulo(v, 2 * Shl(1, k), m), TimesXModulo(w, 2 * Shl(1, k), m))
  {
    TopDigit(v, w, k);
    DoubleXor(v, w);
    var (x, y, p) := (2 * v, 2 * w, Shl(1, k));
    if v >= p && w >= p {
      XorCommutes(x, m);
      MoveAcross(x, y, m);
    } else if v >= p {
      XorAssociates(x, y, m);
      XorCommutes(y, m);
      XorAssociates(x, m, y);
    } else if w >= p {
      XorAssociates(x, y, m);
    }
  }

  /** Doubling the sum of two tweaks doubles each. */
  lemma MulXLinear(a: Block, b: Block)
    ensures MulX(Xor(a, b)) == Xor(MulX(a), MulX(b))
  {
    OrderIsPower();
    MulXIsTimesX(a);
    MulXIsTimesX(b);
    MulXIsTimesX(Xor(a, b));
    FromLEOfXor(a, b);
    FromLEOfXor(MulX(a), MulX(b));
    FromLEBound(a);
    FromLEBound(b);
    TimesXLinear(FromLE(a), FromLE(b), 127, MODULUS);
    FromLEInjective(MulX(Xor(a, b)), Xor(MulX(a), MulX(b)));
  }
}
