/** Sector and cluster sizes of a boot sector, and the regions reserved for metadata. */
module Geometry {
  import opened Bytes
  import opened Regions

  // ---------- boot sector ----------

  /** The fields of the boot sector that fix the geometry. */
  datatype BootSector = BootSector(bytesPerSector: nat, sectorsPerCluster: nat,
                                   bytesPerSectorShift: nat, sectorsPerClusterShift: nat)

  function SectorSize(b: BootSector): (ss: nat)
    ensures ss in {512, 1024, 2048, 4096}
    ensures b.bytesPerSector in {512, 1024, 2048, 4096} ==> ss == b.bytesPerSector
  {
    if b.bytesPerSector in {512, 1024, 2048, 4096} then b.bytesPerSector
    else if b.bytesPerSectorShift < 9 || b.bytesPerSectorShift > 12 then 512
    else
      ShlSmall();
      Shl(1, b.bytesPerSectorShift)
  }

  lemma ShlSmall()
    ensures Shl(1, 9) == 512 && Shl(1, 10) == 1024 && Shl(1, 11) == 2048 && Shl(1, 12) == 4096
  {
    assert Shl(1, 1) == 2 && Shl(1, 2) == 4 && Shl(1, 3) == 8 && Shl(1, 4) == 16;
    assert Shl(1, 5) == 32 && Shl(1, 6) == 64 && Shl(1, 7) == 128 && Shl(1, 8) == 256;
  }

  /** A positive multiple of the sector size, though not always a power of two. */
  function ClusterSize(b: BootSector): (cs: nat)
    ensures cs > 0 && cs % SectorSize(b) == 0
  {
    var ss := SectorSize(b);
    var n := if b.sectorsPerCluster > 0 then b.sectorsPerCluster
             else if b.sectorsPerClusterShift > 25 then 1
             else Shl(1, b.sectorsPerClusterShift);
    MultipleOf(n, ss);
    ss * n
  }

  /** The sector size is the one the block parameters give, else the one the shift gives, else 512. */
  lemma SectorSizeIs(b: BootSector)
    ensures SectorSize(b) ==
            if b.bytesPerSector in {512, 1024, 2048, 4096} then b.bytesPerSector
            else match b.bytesPerSectorShift
                 case 9 => 512
                 case 10 => 1024
                 case 11 => 2048
                 case 12 => 4096
                 case _ => 512
  {
    ShlSmall();
  }

  lemma {:induction false} ShlTimes(n: nat, k: nat)
    ensures n * Shl(1, k) == Shl(n, k)
    decreases k
  {
    if k > 0 {
      ShlTimes(n, k - 1);
      assert n * (2 * Shl(1, k - 1)) == 2 * (n * Shl(1, k - 1));
    }
  }

  /** The sectors of a cluster come from the block parameters, else from the shift; a shift above 25 means one. */
  lemma ClusterSizeIs(b: BootSector)
    ensures b.sectorsPerCluster > 0 ==> ClusterSize(b) == b.sectorsPerCluster * SectorSize(b)
    ensures b.sectorsPerCluster == 0 && b.sectorsPerClusterShift > 25 ==> ClusterSize(b) == SectorSize(b)
    ensures b.sectorsPerCluster == 0 && b.sectorsPerClusterShift <= 25 ==>
              ClusterSize(b) == Shl(SectorSize(b), b.sectorsPerClusterShift)
  {
    ShlTimes(SectorSize(b), b.sectorsPerClusterShift);
  }

  lemma MultipleOf(n: nat, d: nat)
    requires n > 0 && d > 0
    ensures d * n > 0 && (d * n) % d == 0
  {
    SectorOfStart(n, d);
    SectorBounds(n * d, d);
  }

  // ---------- mask arithmetic ----------

  /** a & ^b. */
  function AndNotBits(a: nat, b: nat): nat {
    if a == 0 then 0 else 2 * AndNotBits(a / 2, b / 2) + (if a % 2 == 1 && b % 2 == 0 then 1 else 0)
  }

  predicate IsPowerOfTwo(n: nat) {
    n == 1 || (n > 1 && n % 2 == 0 && IsPowerOfTwo(n / 2))
  }

  /** The largest power of two dividing n. */
  function LowBit(n: nat): (b: nat)
    requires n > 0
    ensures b > 0 && IsPowerOfTwo(b)
  {
    if n % 2 == 1 then 1 else 2 * LowBit(n / 2)
  }

  lemma {:induction false} AndNotSelf(a: nat)
    ensures AndNotBits(a, a) == 0
  {
    if a > 0 { AndNotSelf(a / 2); }
  }

  lemma {:induction false} AndNotSplits(h: nat, l: nat, h': nat, l': nat, k: nat)
    requires l < Shl(1, k) && l' < Shl(1, k)
    ensures AndNotBits(Shl(h, k) + l, Shl(h', k) + l') == Shl(AndNotBits(h, h'), k) + AndNotBits(l, l')
    decreases k
  {
    if k > 0 {
      AndNotSplits(h, l / 2, h', l' / 2, k - 1);
      AndNotHalves(Shl(h, k) + l, Shl(h', k) + l', Shl(h, k - 1), l, Shl(h', k - 1), l',
                  Shl(AndNotBits(h, h'), k - 1));
    }
  }

  lemma AndNotHalves(a: nat, b: nat, m: nat, l: nat, m': nat, l': nat, x: nat)
    requires a == 2 * m + l && b == 2 * m' + l'
    requires AndNotBits(m + l / 2, m' + l' / 2) == x + AndNotBits(l / 2, l' / 2)
    ensures AndNotBits(a, b) == 2 * x + AndNotBits(l, l')
  {
    assert (2 * m + l) / 2 == m + l / 2 && (2 * m' + l') / 2 == m' + l' / 2;
  }

  /** Adding one turns the trailing ones of h into the lowest set bit. */
  lemma {:induction false} AndNotNext(h: nat)
    ensures AndNotBits(h + 1, h) == LowBit(h + 1)
  {
    var m := h / 2;
    if h % 2 == 0 {
      AndNotSelf(m);
      assert (h + 1) / 2 == m && (h + 1) % 2 == 1;
    } else {
      AndNotNext(m);
      assert (h + 1) / 2 == m + 1 && (h + 1) % 2 == 0;
    }
  }

  /** A mask of a power of two rounds down to its multiples. */
  lemma MaskRoundsDown(q: nat, r: nat, k: nat)
    requires r < Shl(1, k)
    ensures AndNotBits(Shl(q, k) + r, Shl(1, k) - 1) == Shl(q, k)
  {
    AndNotSplits(q, r, 0, Shl(1, k) - 1, k);
    ShlZero(k);
    AndNotOnes(r, k);
    AndNotZero(q);
  }

  lemma {:induction false} ShlZero(k: nat)
    ensures Shl(0, k) == 0
  {
  }

  lemma {:induction false} AndNotZero(a: nat)
    ensures AndNotBits(a, 0) == a
  {
    if a > 0 { AndNotZero(a / 2); }
  }

  lemma {:induction false} AndNotOnes(r: nat, k: nat)
    requires r < Shl(1, k)
    ensures AndNotBits(r, Shl(1, k) - 1) == 0
    decreases k
  {
    if k > 0 { AndNotOnes(r / 2, k - 1); }
  }

  // ---------- version 1: information blocks ----------

  /** (clusterSize + 0x3FFF) & ^(clusterSize - 1). */
  function InformationSize(cs: nat): nat
    requires cs > 0
  {
    AndNotBits(cs + 0x3FFF, cs - 1)
  }

  /** The least multiple of unit that is at least min. */
  ghost predicate IsRoundUp(size: nat, unit: nat, min: nat) {
    size >= min && size < min + unit && exists q: nat :: size == q * unit
  }

  /** What the mask leaves for any cluster size: 16 KiB times a power of two, so never too little. */
  lemma InformationSizeValue(cs: nat)
    requires cs > 0
    ensures InformationSize(cs) == 0x4000 * LowBit((cs - 1) / 0x4000 + 1)
    ensures InformationSize(cs) >= 0x4000 && IsPowerOfTwo(InformationSize(cs))
  {
    var (h, l) := ((cs - 1) / 0x4000, (cs - 1) % 0x4000);
    Shl14(1);
    Shl14(h);
    Shl14(h + 1);
    Shl14(LowBit(h + 1));
    AndNotSplits(h + 1, l, h, l, 14);
    AndNotSelf(l);
    AndNotNext(h);
    PowerShifted(LowBit(h + 1), 14);
  }

  lemma Shl14(n: nat)
    ensures Shl(n, 14) == 0x4000 * n
  {
    Shl8(n);
    assert Shl(n, 9) == 0x200 * n && Shl(n, 10) == 0x400 * n && Shl(n, 11) == 0x800 * n;
    assert Shl(n, 12) == 0x1000 * n && Shl(n, 13) == 0x2000 * n;
  }

  lemma {:induction false} PowerShifted(n: nat, k: nat)
    requires IsPowerOfTwo(n)
    ensures IsPowerOfTwo(Shl(n, k))
    decreases k
  {
    if k > 0 {
      PowerShifted(n, k - 1);
      assert Shl(n, k) / 2 == Shl(n, k - 1);
    }
  }

  /** A power of two has only powers of two as divisors. */
  lemma {:induction false} DivisorOfPower(d: nat, q: nat, p: nat)
    requires IsPowerOfTwo(p) && d * q == p
    ensures IsPowerOfTwo(d)
    decreases p
  {
    if p == 1 {
      ProductOfOne(d, q);
    } else if d % 2 == 0 {
      HalfProduct(d, q);
      DivisorOfPower(d / 2, q, p / 2);
      assert d > 0;
    } else {
      OddFactor(d, q);
      HalfProduct(q, d);
      DivisorOfPower(d, q / 2, p / 2);
    }
  }

  lemma ProductOfOne(d: nat, q: nat)
    requires d * q == 1
    ensures d == 1
  {
    ProductGrows(d, q);
  }

  lemma ProductGrows(d: nat, q: nat)
    ensures q == 0 ==> d * q == 0
    ensures q > 0 ==> d * q >= d
  {
  }

  lemma HalfProduct(d: nat, q: nat)
    requires d % 2 == 0
    ensures (d * q) / 2 == (d / 2) * q && (d * q) % 2 == 0 && d * q == q * d
  {
    assert d == 2 * (d / 2);
    assert d * q == 2 * ((d / 2) * q);
  }

  lemma OddFactor(d: nat, q: nat)
    requires d % 2 == 1 && (d * q) % 2 == 0
    ensures q % 2 == 0 && d * q == q * d
  {
    var m := d / 2;
    assert d == 2 * m + 1;
    assert d * q == 2 * (m * q) + q;
  }

  /** The powers of two above 16 KiB are multiples of it, with nothing left over. */
  lemma {:induction false} PowerAbove(cs: nat, k: nat)
    requires IsPowerOfTwo(cs) && cs > Shl(1, k)
    ensures cs % Shl(1, k) == 0 && IsPowerOfTwo(cs / Shl(1, k))
    ensures cs / Shl(1, k) * Shl(1, k) == cs
    decreases k
  {
    if k > 0 {
      PowerAbove(cs / 2, k - 1);
      var (p, m) := (Shl(1, k - 1), cs / 2 / Shl(1, k - 1));
      assert cs == m * (2 * p);
      SectorOfStart(m, 2 * p);
      SectorBounds(cs, 2 * p);
    }
  }

  lemma {:induction false} LowBitOfPower(n: nat)
    requires IsPowerOfTwo(n)
    ensures LowBit(n) == n
  {
    if n > 1 { LowBitOfPower(n / 2); }
  }

  lemma {:induction false} PowerBelow(cs: nat, p: nat)
    requires IsPowerOfTwo(cs) && IsPowerOfTwo(p) && cs <= p
    ensures exists q: nat :: p == q * cs
    decreases p
  {
    if cs == p {
      assert p == 1 * cs;
    } else {
      PowerBelowHalf(cs, p);
      PowerBelow(cs, p / 2);
      var q: nat :| p / 2 == q * cs;
      assert p == (2 * q) * cs;
    }
  }

  /** No power of two lies strictly between another and its half. */
  lemma {:induction false} PowerBelowHalf(cs: nat, p: nat)
    requires IsPowerOfTwo(cs) && IsPowerOfTwo(p) && cs < p
    ensures cs <= p / 2
    decreases p
  {
    if cs > 1 { PowerBelowHalf(cs / 2, p / 2); }
  }

  /** The mask rounds up to a whole number of clusters exactly when the cluster size is a power of two. */
  lemma InformationSizeRoundsUp(cs: nat)
    requires cs > 0
    ensures IsRoundUp(InformationSize(cs), cs, 0x4000) <==> IsPowerOfTwo(cs)
  {
    if IsPowerOfTwo(cs) { RoundsUpPower(cs); }
    if IsRoundUp(InformationSize(cs), cs, 0x4000) { RoundsUpOnlyPower(cs); }
  }

  /** A boot sector for which the mask falls short: clusters of three sectors. */
  lemma MaskFallsShort()
    ensures ClusterSize(BootSector(512, 3, 0, 0)) == 1536
    ensures !IsRoundUp(InformationSize(1536), 1536, 0x4000)
  {
    InformationSizeRoundsUp(1536);
    assert !IsPowerOfTwo(3);
    assert !IsPowerOfTwo(12);
    assert !IsPowerOfTwo(96);
    assert !IsPowerOfTwo(768);
  }

  lemma RoundsUpOnlyPower(cs: nat)
    requires cs > 0 && IsRoundUp(InformationSize(cs), cs, 0x4000)
    ensures IsPowerOfTwo(cs)
  {
    InformationSizeValue(cs);
    var q: nat :| InformationSize(cs) == q * cs;
    DivisorOfPower(cs, q, InformationSize(cs));
  }

  lemma RoundsUpPower(cs: nat)
    requires IsPowerOfTwo(cs)
    ensures IsRoundUp(InformationSize(cs), cs, 0x4000)
  {
    if cs <= 0x4000 { RoundsUpSmall(cs); } else { RoundsUpLarge(cs); }
  }

  lemma RoundsUpSmall(cs: nat)
    requires IsPowerOfTwo(cs) && cs <= 0x4000
    ensures IsRoundUp(InformationSize(cs), cs, 0x4000)
  {
    SmallClusterSize(cs);
    PowerBelow(cs, InformationSize(cs));
  }

  lemma SmallClusterSize(cs: nat)
    requires 0 < cs <= 0x4000
    ensures InformationSize(cs) == 0x4000 && IsPowerOfTwo(InformationSize(cs))
  {
    InformationSizeValue(cs);
    assert (cs - 1) / 0x4000 == 0 && LowBit(1) == 1;
  }

  lemma RoundsUpLarge(cs: nat)
    requires IsPowerOfTwo(cs) && cs > 0x4000
    ensures IsRoundUp(InformationSize(cs), cs, 0x4000)
  {
    InformationSizeValue(cs);
    var m := cs / 0x4000;
    LargePower(cs, m);
    LowBitOfPower(m);
    assert (cs - 1) / 0x4000 == m - 1;
    assert InformationSize(cs) == 1 * cs;
  }

  lemma LargePower(cs: nat, m: nat)
    requires IsPowerOfTwo(cs) && cs > 0x4000 && m == cs / 0x4000
    ensures IsPowerOfTwo(m) && m * 0x4000 == cs
  {
    Shl14(1);
    PowerAbove(cs, 14);
  }

  // ---------- version 2 and later: one block of 64 KiB, and the encrypt-on-write block ----------

  /** ^(ss - 1) & (n + ss - 1). */
  function RoundToSectors(n: nat, ss: nat): nat
    requires ss > 0
  {
    AndNotBits(n + ss - 1, ss - 1)
  }

  /** For the sector sizes a boot sector can give, the mask is the exact round-up. */
  lemma RoundToSectorsRoundsUp(n: nat, ss: nat)
    requires ss in {512, 1024, 2048, 4096}
    ensures IsRoundUp(RoundToSectors(n, ss), ss, n)
  {
    ShlSmall();
    if ss == 512 {
      RoundsUp(n, 512, 9, (n + 511) / 512, (n + 511) % 512);
    } else if ss == 1024 {
      RoundsUp(n, 1024, 10, (n + 1023) / 1024, (n + 1023) % 1024);
    } else if ss == 2048 {
      RoundsUp(n, 2048, 11, (n + 2047) / 2048, (n + 2047) % 2048);
    } else {
      RoundsUp(n, 4096, 12, (n + 4095) / 4096, (n + 4095) % 4096);
    }
  }

  lemma RoundsUp(n: nat, ss: nat, k: nat, q: nat, r: nat)
    requires 9 <= k <= 12 && ss == Shl(1, k) && n + ss - 1 == q * ss + r && r < ss
    ensures IsRoundUp(RoundToSectors(n, ss), ss, n)
  {
    ShlSectors(q, k);
    MaskRoundsDown(q, r, k);
  }

  lemma ShlSectors(n: nat, k: nat)
    requires 9 <= k <= 12
    ensures Shl(n, k) == n * Shl(1, k)
  {
    Shl8(n);
    ShlSmall();
    assert Shl(n, 9) == 512 * n && Shl(n, 10) == 1024 * n && Shl(n, 11) == 2048 * n && Shl(n, 12) == 4096 * n;
  }

  // ---------- reserved regions ----------

  /** What of a volume's metadata decides its reserved regions. */
  datatype Metadata = Metadata(sectorSize: nat, clusterSize: nat, version: nat,
                               informationOffsets: seq<int>, eow: Option<EowBlock>)

  datatype EowBlock = EowBlock(offset: int, size: nat)

  /** Integer division that truncates toward zero. */
  function TruncDiv(a: int, b: nat): int
    requires b > 0
  {
    if a >= 0 then a / b else -((-a) / b)
  }

  /** It drops the fraction, whatever the sign. */
  lemma TruncDivIs(a: int, b: nat)
    requires b > 0
    ensures a >= 0 ==> TruncDiv(a, b) * b <= a < TruncDiv(a, b) * b + b
    ensures a <= 0 ==> TruncDiv(a, b) * b - b < a <= TruncDiv(a, b) * b
  {
    if a >= 0 {
      SectorSplit(a, b);
    } else {
      SectorSplit(-a, b);
      assert TruncDiv(a, b) * b == -((-a) / b * b);
    }
  }

  ghost predicate ValidMetadata(m: Metadata) {
    m.sectorSize in {512, 1024, 2048, 4096} && m.clusterSize > 0
  }

  /** The size in bytes of each information block. */
  function BlockSize(m: Metadata): nat
    requires ValidMetadata(m)
  {
    if m.version == 1 then InformationSize(m.clusterSize)
    else if m.version >= 2 then RoundToSectors(0x1_0000, m.sectorSize)
    else 0
  }

  ghost predicate InBlock(start: int, sectors: int, s: int) {
    start <= s < start + sectors
  }

  /** The sectors that hold metadata: the information blocks, and from version 2 the encrypt-on-write block. */
  ghost predicate MetadataSector(m: Metadata, s: int)
    requires ValidMetadata(m)
  {
    (exists i :: 0 <= i < |m.informationOffsets| &&
                 InBlock(TruncDiv(m.informationOffsets[i], m.sectorSize), BlockSize(m) / m.sectorSize, s)) ||
    (m.version >= 2 && m.eow.Some? &&
     InBlock(TruncDiv(m.eow.value.offset, m.sectorSize),
             RoundToSectors(m.eow.value.size, m.sectorSize) / m.sectorSize, s))
  }

  method ReservedRegions(m: Metadata) returns (regions: seq<(int, int)>)
    requires ValidMetadata(m)
    ensures forall s :: Listed(regions, s) <==> MetadataSector(m, s)
  {
    regions := [];
    if m.version == 1 {
      var informationSectors := InformationSize(m.clusterSize) / m.sectorSize;
      regions := BlockRegions(m, informationSectors);
    } else if m.version >= 2 {
      var informationSize := AndNotBits(m.sectorSize + 0xFFFF, m.sectorSize - 1);
      var informationSectors := informationSize / m.sectorSize;
      regions := BlockRegions(m, informationSectors);
      if m.eow.Some? {
        var eowSectors := RoundToSectors(m.eow.value.size, m.sectorSize) / m.sectorSize;
        var r := (TruncDiv(m.eow.value.offset, m.sectorSize), eowSectors);
        ListedAppend(regions, r);
        regions := regions + [r];
      }
    }
  }

  method BlockRegions(m: Metadata, sectors: int) returns (regions: seq<(int, int)>)
    requires ValidMetadata(m)
    ensures forall s :: Listed(regions, s) <==>
              exists i :: 0 <= i < |m.informationOffsets| &&
                          InBlock(TruncDiv(m.informationOffsets[i], m.sectorSize), sectors, s)
  {
    regions := [];
    for i := 0 to |m.informationOffsets|
      invariant |regions| == i
      invariant forall k :: 0 <= k < i ==> regions[k] == (TruncDiv(m.informationOffsets[k], m.sectorSize), sectors)
    {
      regions := regions + [(TruncDiv(m.informationOffsets[i], m.sectorSize), sectors)];
    }
    forall s ensures Listed(regions, s) <==>
              exists i :: 0 <= i < |m.informationOffsets| &&
                          InBlock(TruncDiv(m.informationOffsets[i], m.sectorSize), sectors, s) {
      if Listed(regions, s) {
        var i :| 0 <= i < |regions| && regions[i].0 <= s < regions[i].0 + regions[i].1;
        assert InBlock(TruncDiv(m.informationOffsets[i], m.sectorSize), sectors, s);
      }
      if i :| 0 <= i < |m.informationOffsets| && InBlock(TruncDiv(m.informationOffsets[i], m.sectorSize), sectors, s) {
        assert regions[i].0 <= s < regions[i].0 + regions[i].1;
      }
    }
  }
}
