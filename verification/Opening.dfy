/** Opening a volume: which cipher a stream gets, and what its reserved regions hide. */
module Opening {
  import opened Bytes
  import opened BlockCiphers
  import opened SectorCiphers
  import opened Regions
  import opened Geometry
  import opened Volumes
  import opened Stream
  import Xts
  import Cbc

  const AES_128 := 0x8002
  const AES_256 := 0x8003
  const AES_XTS_128 := 0x8004
  const AES_XTS_256 := 0x8005

  /** A parsed volume, with its key once it has been unlocked. */
  datatype Bde = Bde(disk: seq<byte>, metadata: Metadata, decrypted: bool,
                     fvek: Option<seq<byte>>, fvekType: nat,
                     volumeHeaderOffset: U64, volumeHeaderSectors: U32)

  datatype OpenError = NotUnlocked | UnsupportedCipher

  ghost predicate ValidBde(b: Bde) {
    ValidMetadata(b.metadata)
  }

  /** The cipher the key type asks for; none when the volume is not encrypted or the key does not fit. */
  function CipherFor(aes: Aes, b: Bde): (c: Option<SectorCipher>)
    requires ValidBde(b)
    ensures c.Some? ==> Accepts(c.value, b.metadata.sectorSize)
    ensures c.Some? <==> !b.decrypted && b.fvek.Some? &&
                         ((b.fvekType in {AES_XTS_128, AES_XTS_256} && |b.fvek.value| in {32, 64}) ||
                          (b.fvekType in {AES_128, AES_256} && |b.fvek.value| in {16, 32}))
  {
    if b.decrypted || b.fvek.None? then None
    else if b.fvekType == AES_XTS_128 || b.fvekType == AES_XTS_256 then
      match Xts.NewXtsCipher(aes, b.fvek.value)
      case Ok(x) => Some(XtsSectors(x))
      case Err(_) => None
    else if b.fvekType == AES_128 || b.fvekType == AES_256 then
      match Cbc.NewCbcCipher(aes, b.fvek.value, b.metadata.sectorSize)
      case Ok(x) => Some(CbcSectors(x))
      case Err(_) => None
    else None
  }

  /** The XTS key types take two AES keys, the data key first. */
  lemma XtsCipherFor(aes: Aes, b: Bde, k1: seq<byte>, k2: seq<byte>)
    requires ValidBde(b) && !b.decrypted && b.fvekType in {0x8004, 0x8005}
    requires |k1| == |k2| && |k1| in {16, 32} && b.fvek == Some(k1 + k2)
    ensures var c := CipherFor(aes, b);
            c.Some? && c.value.XtsSectors? && c.value.xts.dataKey == aes(k1) && c.value.xts.tweakKey == aes(k2)
  {
    assert (k1 + k2)[..|k1|] == k1 && (k1 + k2)[|k1|..] == k2;
  }

  /** The CBC key types take one, and sectors of the volume's size. */
  lemma CbcCipherFor(aes: Aes, b: Bde, key: seq<byte>)
    requires ValidBde(b) && !b.decrypted && b.fvekType in {0x8002, 0x8003}
    requires |key| in {16, 32} && b.fvek == Some(key)
    ensures var c := CipherFor(aes, b);
            c.Some? && c.value.CbcSectors? && c.value.cbc.block == aes(key) &&
            c.value.cbc.sectorSize == b.metadata.sectorSize
  {
  }

  /** There is no cipher in any other case. */
  lemma NoCipherOtherwise(aes: Aes, b: Bde)
    requires ValidBde(b) && CipherFor(aes, b).Some?
    ensures !b.decrypted && b.fvek.Some?
    ensures (b.fvekType in {0x8002, 0x8003} && |b.fvek.value| in {16, 32}) ||
            (b.fvekType in {0x8004, 0x8005} && |b.fvek.value| in {32, 64})
  {
  }

  method NewBitlockerStream(aes: Aes, b: Bde) returns (bs: BitlockerStream)
    requires ValidBde(b)
    ensures fresh(bs) && bs.Valid() && bs.offset == 0
    ensures bs.disk == b.disk && bs.sectorSize == b.metadata.sectorSize && bs.passthrough == b.decrypted
    ensures bs.cipher == CipherFor(aes, b)
    ensures bs.cipher.Some? ==> bs.decrypt == Decryptor(bs.cipher.value)
    ensures bs.headerOffset == AsInt64(b.volumeHeaderOffset) && bs.headerSectors == b.volumeHeaderSectors
    ensures forall s :: IsReserved(bs.reserved, s) <==> MetadataSector(b.metadata, s)
  {
    var regions := ReservedRegions(b.metadata);
    bs := new BitlockerStream(b.disk, b.metadata.sectorSize, b.decrypted, regions,
                              AsInt64(b.volumeHeaderOffset), b.volumeHeaderSectors, CipherFor(aes, b));
  }

  method Open(aes: Aes, b: Bde) returns (r: Result<BitlockerStream, OpenError>)
    requires ValidBde(b)
    ensures r == Err(NotUnlocked) <==> b.fvek.None? && !b.decrypted
    ensures r == Err(UnsupportedCipher) <==> b.fvek.Some? && !b.decrypted && CipherFor(aes, b).None?
    ensures r.Ok? ==> fresh(r.value) && r.value.Valid() && r.value.offset == 0 && Serves(aes, b, r.value.Vol())
    ensures r.Ok? ==> r.value.passthrough || r.value.cipher.Some?
  {
    if b.fvek.None? && !b.decrypted {
      return Err(NotUnlocked);
    }
    var bs := NewBitlockerStream(aes, b);
    if !bs.passthrough && bs.cipher.None? {
      return Err(UnsupportedCipher);
    }
    ServesVolume(aes, b, bs.Vol());
    return Ok(bs);
  }

  /** The volume a stream opened on b reads through. */
  ghost predicate Serves(aes: Aes, b: Bde, v: Volume)
    requires ValidBde(b)
  {
    WellFormed(v) && v.disk == b.disk && v.sectorSize == b.metadata.sectorSize && v.passthrough == b.decrypted &&
    v.headerOffset == AsInt64(b.volumeHeaderOffset) && v.headerSectors == b.volumeHeaderSectors &&
    (v.cipher.None? <==> CipherFor(aes, b).None?) &&
    (v.cipher.Some? ==> v.cipher.value == Decryptor(CipherFor(aes, b).value)) &&
    forall s :: Covered(v.reserved, s) <==> MetadataSector(b.metadata, s)
  }

  lemma ServesVolume(aes: Aes, b: Bde, v: Volume)
    requires ValidBde(b) && WellFormed(v)
    requires v.disk == b.disk && v.sectorSize == b.metadata.sectorSize && v.passthrough == b.decrypted
    requires v.headerOffset == AsInt64(b.volumeHeaderOffset) && v.headerSectors == b.volumeHeaderSectors
    requires v.cipher.None? <==> CipherFor(aes, b).None?
    requires v.cipher.Some? ==> v.cipher.value == Decryptor(CipherFor(aes, b).value)
    requires forall s :: IsReserved(v.reserved, s) <==> MetadataSector(b.metadata, s)
    ensures Serves(aes, b, v)
  {
    forall s ensures Covered(v.reserved, s) <==> MetadataSector(b.metadata, s) {
      assert IsReserved(v.reserved, s) <==> Covered(v.reserved, s);
    }
  }

  // ---------- metadata is never shown ----------

  lemma SectorsOfBlock(size: nat, ss: nat, min: nat)
    requires IsRoundUp(size, ss, min) && ss > 0
    ensures size / ss * ss == size && size >= min
  {
    var q: nat :| size == q * ss;
    SectorOfStart(q, ss);
  }

  lemma PowerInSectors(p: nat, ss: nat)
    requires IsPowerOfTwo(p) && p >= 0x4000 && ss in {512, 1024, 2048, 4096}
    ensures p / ss * ss == p
  {
    assert IsPowerOfTwo(ss) by {
      assert IsPowerOfTwo(8) && IsPowerOfTwo(64);
      assert IsPowerOfTwo(512) && IsPowerOfTwo(1024);
      assert IsPowerOfTwo(2048) && IsPowerOfTwo(4096);
    }
    PowerBelow(ss, p);
    var q: nat :| p == q * ss;
    SectorOfStart(q, ss);
  }

  /** A byte of a reserved block is in a metadata sector, and a metadata sector shows zeros. */
  lemma BlockByteIsHidden(aes: Aes, b: Bde, v: Volume, first: nat, n: nat, o: nat)
    requires ValidBde(b) && Serves(aes, b, v) && v.sectorSize == b.metadata.sectorSize
    requires forall s :: InBlock(first, n, s) ==> MetadataSector(b.metadata, s)
    requires first * v.sectorSize <= o < (first + n) * v.sectorSize
    ensures MetadataSector(b.metadata, o / v.sectorSize) && View(v, o) == Some(0)
  {
    SectorAtLeast(o, first, v.sectorSize);
    SectorAtLeast(o, first + n, v.sectorSize);
    assert InBlock(first, n, o / v.sectorSize);
  }

  /** Every byte from the sector of an information block's offset on, for the size of a block, reads as zero. */
  lemma InformationBlockIsHidden(aes: Aes, b: Bde, v: Volume, i: nat, o: nat)
    requires ValidBde(b) && Serves(aes, b, v) && b.metadata.version >= 1
    requires i < |b.metadata.informationOffsets| && b.metadata.informationOffsets[i] >= 0
    requires var off := b.metadata.informationOffsets[i];
             off - off % b.metadata.sectorSize <= o < off - off % b.metadata.sectorSize + BlockSize(b.metadata)
    ensures View(v, o) == Some(0)
  {
    var (m, ss, off) := (b.metadata, b.metadata.sectorSize, b.metadata.informationOffsets[i]);
    BlockSizeInSectors(m);
    InformationBlockSectors(m, i);
    BlockStart(off, ss, BlockSize(m) / ss, BlockSize(m));
    BlockByteIsHidden(aes, b, v, off / ss, BlockSize(m) / ss, o);
  }

  lemma InformationBlockSectors(m: Metadata, i: nat)
    requires ValidMetadata(m) && i < |m.informationOffsets| && m.informationOffsets[i] >= 0
    ensures forall s :: InBlock(m.informationOffsets[i] / m.sectorSize, BlockSize(m) / m.sectorSize, s) ==>
              MetadataSector(m, s)
  {
    assert TruncDiv(m.informationOffsets[i], m.sectorSize) == m.informationOffsets[i] / m.sectorSize;
  }

  lemma BlockStart(off: nat, ss: nat, n: nat, size: nat)
    requires ss > 0 && n * ss == size
    ensures off / ss * ss == off - off % ss && (off / ss + n) * ss == off - off % ss + size
  {
    SectorSplit(off, ss);
    assert (off / ss + n) * ss == off / ss * ss + n * ss;
  }

  /** The same of the encrypt-on-write block: from the start of its sector, all the sectors it is rounded up to. */
  lemma EowBlockIsHidden(aes: Aes, b: Bde, v: Volume, o: nat)
    requires ValidBde(b) && Serves(aes, b, v) && b.metadata.version >= 2
    requires b.metadata.eow.Some? && b.metadata.eow.value.offset >= 0
    requires var (off, ss) := (b.metadata.eow.value.offset, b.metadata.sectorSize);
             off - off % ss <= o < off - off % ss + RoundToSectors(b.metadata.eow.value.size, ss)
    ensures View(v, o) == Some(0)
  {
    var (ss, e) := (b.metadata.sectorSize, b.metadata.eow.value);
    var n := EowBlockSectors(b.metadata);
    BlockStart(e.offset, ss, n, n * ss);
    BlockByteIsHidden(aes, b, v, e.offset / ss, n, o);
  }

  lemma EowBlockSectors(m: Metadata) returns (n: nat)
    requires ValidMetadata(m) && m.version >= 2 && m.eow.Some? && m.eow.value.offset >= 0
    ensures n * m.sectorSize == RoundToSectors(m.eow.value.size, m.sectorSize)
    ensures m.eow.value.size <= n * m.sectorSize < m.eow.value.size + m.sectorSize
    ensures n == RoundToSectors(m.eow.value.size, m.sectorSize) / m.sectorSize
    ensures forall s :: InBlock(m.eow.value.offset / m.sectorSize, n, s) ==> MetadataSector(m, s)
  {
    var (ss, e) := (m.sectorSize, m.eow.value);
    RoundToSectorsRoundsUp(e.size, ss);
    SectorsOfBlock(RoundToSectors(e.size, ss), ss, e.size);
    n := RoundToSectors(e.size, ss) / ss;
    assert TruncDiv(e.offset, ss) == e.offset / ss;
  }

  /** The first byte of sector s is one of `size` bytes from the start of the sector of off. */
  ghost predicate StartsIn(off: nat, size: nat, ss: nat, s: int)
    requires ss > 0
  {
    off - off % ss <= s * ss < off - off % ss + size
  }

  lemma BlockStarts(off: nat, n: nat, size: nat, ss: nat, s: int)
    requires ss > 0 && size <= n * ss < size + ss
    ensures InBlock(off / ss, n, s) <==> StartsIn(off, size, ss, s)
  {
    var first := off / ss;
    SectorSplit(off, ss);
    OneSectorLess(first + n, ss);
    assert (first + n) * ss == first * ss + n * ss;
    if InBlock(first, n, s) {
      Scale(first, s, ss);
      Scale(s, first + n - 1, ss);
    }
    if StartsIn(off, size, ss, s) {
      OneSectorLess(first, ss);
      SectorOrder(first - 1, s, ss);
      SectorOrder(s, first + n, ss);
    }
  }

  /** No offset of the metadata is negative. */
  ghost predicate OffsetsInRange(m: Metadata) {
    (forall i :: 0 <= i < |m.informationOffsets| ==> m.informationOffsets[i] >= 0) &&
    (m.eow.Some? ==> m.eow.value.offset >= 0)
  }

  /** s starts within one of the information blocks: 64 KiB each, in version 1 what the mask leaves. */
  ghost predicate InInformation(m: Metadata, s: int)
    requires ValidMetadata(m) && OffsetsInRange(m)
  {
    var size := if m.version == 1 then InformationSize(m.clusterSize) else 0x1_0000;
    exists i :: 0 <= i < |m.informationOffsets| && StartsIn(m.informationOffsets[i], size, m.sectorSize, s)
  }

  lemma InformationExactly(m: Metadata, s: int)
    requires ValidMetadata(m) && OffsetsInRange(m) && m.version >= 1
    ensures InInformation(m, s) <==>
            exists i :: 0 <= i < |m.informationOffsets| &&
                        InBlock(TruncDiv(m.informationOffsets[i], m.sectorSize), BlockSize(m) / m.sectorSize, s)
  {
    var ss := m.sectorSize;
    BlockSizeInSectors(m);
    forall i | 0 <= i < |m.informationOffsets|
      ensures InBlock(TruncDiv(m.informationOffsets[i], ss), BlockSize(m) / ss, s) <==>
              StartsIn(m.informationOffsets[i], BlockSize(m), ss, s)
    {
      BlockStarts(m.informationOffsets[i], BlockSize(m) / ss, BlockSize(m), ss, s);
    }
  }

  lemma NoInformation(m: Metadata, s: int)
    requires ValidMetadata(m) && m.version == 0
    ensures !MetadataSector(m, s)
  {
  }

  lemma EowExactly(m: Metadata, s: int)
    requires ValidMetadata(m) && OffsetsInRange(m) && m.version >= 2 && m.eow.Some?
    ensures StartsIn(m.eow.value.offset, m.eow.value.size, m.sectorSize, s) <==>
            InBlock(TruncDiv(m.eow.value.offset, m.sectorSize),
                    RoundToSectors(m.eow.value.size, m.sectorSize) / m.sectorSize, s)
  {
    var n := EowBlockSectors(m);
    BlockStarts(m.eow.value.offset, n, m.eow.value.size, m.sectorSize, s);
  }

  /** The metadata sectors are exactly those that start within an information block or the encrypt-on-write block. */
  lemma MetadataExactly(m: Metadata, s: int)
    requires ValidMetadata(m) && OffsetsInRange(m)
    ensures MetadataSector(m, s) <==>
            (m.version >= 1 && InInformation(m, s)) ||
            (m.version >= 2 && m.eow.Some? && StartsIn(m.eow.value.offset, m.eow.value.size, m.sectorSize, s))
  {
    if m.version == 0 { NoInformation(m, s); } else { InformationExactly(m, s); }
    if m.version >= 2 && m.eow.Some? { EowExactly(m, s); }
  }

  /** All the bytes from lo to hi are in metadata sectors. */
  ghost predicate Hidden(m: Metadata, lo: nat, hi: nat)
    requires ValidMetadata(m)
  {
    forall s :: lo / m.sectorSize <= s && s * m.sectorSize < hi ==> MetadataSector(m, s)
  }

  lemma HiddenIsZero(aes: Aes, b: Bde, v: Volume, lo: nat, hi: nat, o: nat)
    requires ValidBde(b) && Serves(aes, b, v) && Hidden(b.metadata, lo, hi) && lo <= o < hi
    ensures View(v, o) == Some(0)
  {
    var ss := v.sectorSize;
    SectorBounds(o, ss);
    SectorBounds(lo, ss);
    SectorAtLeast(o, lo / ss, ss);
    assert MetadataSector(b.metadata, o / ss);
  }

  /** A block of n reserved sectors hides `size` bytes from its offset if they fit, or if the next sector is hidden. */
  lemma BlockHidden(m: Metadata, off: nat, n: nat, size: nat)
    requires ValidMetadata(m) && (n - 1) * m.sectorSize < size <= n * m.sectorSize && size > 0
    requires forall s :: InBlock(off / m.sectorSize, n, s) ==> MetadataSector(m, s)
    ensures Hidden(m, off, off + size) <==>
            off % m.sectorSize + size <= n * m.sectorSize || MetadataSector(m, off / m.sectorSize + n)
  {
    var (ss, first) := (m.sectorSize, off / m.sectorSize);
    BlockStart(off, ss, n, n * ss);
    BlockStart(off, ss, n + 1, (n + 1) * ss);
    if Hidden(m, off, off + size) && off % ss + size > n * ss {
      assert first <= first + n && (first + n) * ss < off + size;
    }
    if off % ss + size <= n * ss || MetadataSector(m, first + n) {
      forall s | first <= s && s * ss < off + size ensures MetadataSector(m, s) {
        assert (n + 1) * ss == n * ss + ss;
        SectorOrder(s, first + n + 1, ss);
        if off % ss + size <= n * ss { SectorOrder(s, first + n, ss); }
        assert s < first + n ==> InBlock(first, n, s);
      }
    }
  }

  /** An information block is hidden whole exactly when it starts on a sector or the sector after it is hidden too. */
  lemma WholeInformationBlockIsHidden(m: Metadata, i: nat)
    requires ValidMetadata(m) && m.version >= 1 && i < |m.informationOffsets| && m.informationOffsets[i] >= 0
    ensures var off := m.informationOffsets[i];
            Hidden(m, off, off + BlockSize(m)) <==>
            off % m.sectorSize == 0 || MetadataSector(m, off / m.sectorSize + BlockSize(m) / m.sectorSize)
  {
    var (ss, n) := (m.sectorSize, BlockSize(m) / m.sectorSize);
    BlockSizeInSectors(m);
    InformationBlockSectors(m, i);
    OneSectorLess(n, ss);
    BlockHidden(m, m.informationOffsets[i], n, BlockSize(m));
  }

  /** The encrypt-on-write block has slack up to its round-up, so it may also start within a sector. */
  lemma WholeEowBlockIsHidden(m: Metadata)
    requires ValidMetadata(m) && m.version >= 2 && m.eow.Some? && m.eow.value.offset >= 0 && m.eow.value.size > 0
    ensures var (off, size, ss) := (m.eow.value.offset, m.eow.value.size, m.sectorSize);
            Hidden(m, off, off + size) <==>
            off % ss + size <= RoundToSectors(size, ss) || MetadataSector(m, off / ss + RoundToSectors(size, ss) / ss)
  {
    var n := EowBlockSectors(m);
    OneSectorLess(n, m.sectorSize);
    BlockHidden(m, m.eow.value.offset, n, m.eow.value.size);
  }

  lemma OneSectorLess(n: int, ss: int)
    ensures (n - 1) * ss == n * ss - ss
  {
  }

  /** A block is a whole number of sectors, of at least 16 KiB in version 1 and of exactly 64 KiB later. */
  lemma BlockSizeInSectors(m: Metadata)
    requires ValidMetadata(m) && m.version >= 1
    ensures BlockSize(m) / m.sectorSize * m.sectorSize == BlockSize(m)
    ensures if m.version == 1 then BlockSize(m) >= 0x4000 else BlockSize(m) == 0x1_0000
  {
    if m.version == 1 {
      InformationSizeValue(m.clusterSize);
      PowerInSectors(InformationSize(m.clusterSize), m.sectorSize);
    } else {
      RoundToSectorsRoundsUp(0x1_0000, m.sectorSize);
      SectorsOfBlock(BlockSize(m), m.sectorSize, 0x1_0000);
      OneBlock(BlockSize(m), m.sectorSize);
    }
  }

  lemma OneBlock(size: nat, ss: nat)
    requires ss in {512, 1024, 2048, 4096} && size / ss * ss == size && 0x1_0000 <= size < 0x1_0000 + ss
    ensures size == 0x1_0000
  {
    if ss == 512 {} else if ss == 1024 {} else if ss == 2048 {} else {}
  }
}
