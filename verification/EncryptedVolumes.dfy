/** The volume round trip: what was encrypted sector by sector is what the stream shows. */
module EncryptedVolumes {
  import opened Bytes
  import opened Regions
  import opened Volumes
  import SectorCiphers

  type Sector = seq<byte>

  // ---------- a disk as a sequence of sectors ----------

  ghost predicate Uniform(sectors: seq<Sector>, ss: nat) {
    forall t :: 0 <= t < |sectors| ==> |sectors[t]| == ss
  }

  function Flatten(sectors: seq<Sector>): seq<byte> {
    if sectors == [] then [] else Flatten(sectors[..|sectors| - 1]) + sectors[|sectors| - 1]
  }

  lemma {:induction false} FlattenSize(sectors: seq<Sector>, ss: nat)
    requires Uniform(sectors, ss)
    ensures |Flatten(sectors)| == |sectors| * ss
  {
    if sectors != [] {
      FlattenSize(sectors[..|sectors| - 1], ss);
      assert |sectors| * ss == (|sectors| - 1) * ss + ss;
    }
  }

  lemma {:induction false} FlattenHolds(sectors: seq<Sector>, ss: nat, t: nat)
    requires Uniform(sectors, ss) && t < |sectors|
    ensures t * ss + ss <= |Flatten(sectors)| && Flatten(sectors)[t * ss..t * ss + ss] == sectors[t]
    decreases |sectors|
  {
    var init := sectors[..|sectors| - 1];
    if t < |init| {
      FlattenHolds(init, ss, t);
      Prefixed(Flatten(init), sectors[|init|], t * ss, ss);
    } else {
      FlattenEnds(init, sectors[|init|], ss, t * ss);
    }
  }

  lemma FlattenEnds(init: seq<Sector>, last: Sector, ss: nat, lo: nat)
    requires Uniform(init, ss) && |last| == ss && lo == |init| * ss
    ensures lo + ss == |Flatten(init) + last| && (Flatten(init) + last)[lo..lo + ss] == last
  {
    FlattenSize(init, ss);
    Suffixed(Flatten(init), last);
  }

  lemma Prefixed(a: seq<byte>, b: seq<byte>, i: nat, n: nat)
    requires i + n <= |a|
    ensures (a + b)[i..i + n] == a[i..i + n]
  {
  }

  lemma Suffixed(a: seq<byte>, b: seq<byte>)
    ensures (a + b)[|a|..|a| + |b|] == b
  {
  }

  lemma FlattenAt(sectors: seq<Sector>, ss: nat, o: nat)
    requires ss > 0 && Uniform(sectors, ss) && o < |Flatten(sectors)|
    ensures o / ss < |sectors| && Flatten(sectors)[o] == sectors[o / ss][o % ss]
  {
    FlattenSize(sectors, ss);
    SectorAtLeast(o, |sectors|, ss);
    SectorNumber(o, ss);
    FlattenHolds(sectors, ss, o / ss);
    SectorSplit(o, ss);
    SliceIndex(Flatten(sectors), o / ss * ss, ss, o % ss, o);
  }

  lemma SliceIndex(s: seq<byte>, lo: int, n: nat, k: nat, o: nat)
    requires 0 <= lo && lo + n <= |s| && k < n && o == lo + k
    ensures s[lo..lo + n][k] == s[o]
  {
  }

  // ---------- writing an encrypted volume ----------

  /** A plaintext volume and how it is laid out; `raw` is whatever the disk holds where no plaintext is stored. */
  datatype Layout = Layout(
    plain: seq<Sector>,
    raw: seq<Sector>,
    sectorSize: nat,
    reserved: seq<Region>,
    headerOffset: int,
    headerSectors: int,
    encrypt: SectorFn,
    decrypt: SectorFn)

  ghost predicate Undoes(decrypt: SectorFn, encrypt: SectorFn, n: nat) {
    KeepsLength(encrypt, n) && KeepsLength(decrypt, n) &&
    forall k: nat, s: seq<byte> {:trigger encrypt(k, s)} :: |s| == n ==> decrypt(k, encrypt(k, s)) == s
  }

  predicate HeaderMoved(e: Layout) {
    e.headerOffset > 0 && e.headerSectors > 0
  }

  /** The first storage sector of the header copy. */
  function CopyStart(e: Layout): int
    requires e.sectorSize > 0
  {
    e.headerOffset / e.sectorSize
  }

  predicate InCopy(e: Layout, t: int)
    requires e.sectorSize > 0
  {
    HeaderMoved(e) && CopyStart(e) <= t < CopyStart(e) + e.headerSectors
  }

  /** Whole sectors, a cipher that can be undone, and room for the sector-aligned header copy. */
  ghost predicate Consistent(e: Layout) {
    e.sectorSize > 0 && Undoes(e.decrypt, e.encrypt, e.sectorSize) && Normalized(e.reserved) &&
    Uniform(e.plain, e.sectorSize) && Uniform(e.raw, e.sectorSize) && |e.raw| == |e.plain| &&
    (HeaderMoved(e) ==> e.headerOffset == CopyStart(e) * e.sectorSize && CopyStart(e) + e.headerSectors <= |e.plain|)
  }

  /** What is written to storage sector t: the header copy, nothing of the plaintext, or the sector itself. */
  ghost function WrittenSector(e: Layout, t: nat): (r: Sector)
    requires Consistent(e) && t < |e.plain|
    ensures |r| == e.sectorSize
  {
    if InCopy(e, t) then e.encrypt(t, e.plain[t - CopyStart(e)])
    else if Covered(e.reserved, t) || (HeaderMoved(e) && t < e.headerSectors) then e.raw[t]
    else e.encrypt(t, e.plain[t])
  }

  ghost function DiskSectors(e: Layout): (d: seq<Sector>)
    requires Consistent(e)
    ensures |d| == |e.plain| && Uniform(d, e.sectorSize)
  {
    seq(|e.plain|, t requires 0 <= t < |e.plain| => WrittenSector(e, t))
  }

  ghost function Stored(e: Layout): (v: Volume)
    requires Consistent(e)
    ensures WellFormed(v)
  {
    Volume(Flatten(DiskSectors(e)), e.sectorSize, e.reserved, false, e.headerOffset, e.headerSectors, Some(e.decrypt))
  }

  // ---------- reading it back ----------

  /** The plaintext a reader should see in sector s. */
  ghost function ExpectedSector(e: Layout, s: nat): (r: Sector)
    requires Consistent(e) && s < |e.plain|
    ensures |r| == e.sectorSize
  {
    if Covered(e.reserved, s) then seq(e.sectorSize, _ => 0)
    else if InCopy(e, s) && s >= e.headerSectors then e.plain[s - CopyStart(e)]
    else e.plain[s]
  }

  /** Where a sector that is not reserved is stored. */
  ghost function Place(e: Layout, s: nat): nat
    requires Consistent(e)
  {
    if HeaderMoved(e) && s < e.headerSectors then PlaceOfHeader(e, s) else s
  }

  ghost function PlaceOfHeader(e: Layout, s: nat): nat
    requires Consistent(e) && HeaderMoved(e)
  {
    SectorNumber(e.headerOffset, e.sectorSize);
    CopyStart(e) + s
  }

  lemma PlaceIsStorage(e: Layout, s: nat)
    requires Consistent(e) && s < |e.plain|
    ensures Place(e, s) < |e.plain|
    ensures StorageOffset(Stored(e), s) == Place(e, s) * e.sectorSize
  {
    if HeaderMoved(e) && s < e.headerSectors {
      Distribute(CopyStart(e), s, e.sectorSize);
    }
  }

  lemma Distribute(a: int, b: int, ss: int)
    ensures (a + b) * ss == a * ss + b * ss
  {
  }

  /** What is stored at the place of a sector decrypts to what a reader should see in it. */
  lemma PlaceDecrypts(e: Layout, s: nat)
    requires Consistent(e) && s < |e.plain| && !Covered(e.reserved, s) && Place(e, s) < |e.plain|
    ensures e.decrypt(Place(e, s), WrittenSector(e, Place(e, s))) == ExpectedSector(e, s)
  {
  }

  lemma SectorRoundTrip(e: Layout, s: nat)
    requires Consistent(e) && s < |e.plain| && !Covered(e.reserved, s)
    ensures PlainSector(Stored(e), s) == Some(ExpectedSector(e, s))
  {
    var t := Place(e, s);
    PlaceIsStorage(e, s);
    FlattenHolds(DiskSectors(e), e.sectorSize, t);
    SectorOfStart(t, e.sectorSize);
    PlaceDecrypts(e, s);
  }

  /** Every byte of the volume reads back: zero in the reserved regions, else the plaintext that was encrypted there. */
  lemma VolumeRoundTrip(e: Layout, o: nat)
    requires Consistent(e) && o < |Flatten(e.plain)|
    ensures o / e.sectorSize < |e.plain|
    ensures View(Stored(e), o) == Some(ExpectedSector(e, o / e.sectorSize)[o % e.sectorSize])
  {
    FlattenAt(e.plain, e.sectorSize, o);
    SectorNumber(o, e.sectorSize);
    if !Covered(e.reserved, o / e.sectorSize) {
      SectorRoundTrip(e, o / e.sectorSize);
    }
  }

  function ByteAt(s: seq<byte>, o: int): byte {
    if 0 <= o < |s| then s[o] else 0
  }

  /** The byte a reader should see at o: zero in a reserved sector, the header in its copy, else the plaintext there. */
  ghost function ExpectedByte(e: Layout, o: nat): byte
    requires Consistent(e)
  {
    var s := o / e.sectorSize;
    if Covered(e.reserved, s) then 0
    else if InCopy(e, s) && s >= e.headerSectors then ByteAt(Flatten(e.plain), o - e.headerOffset)
    else ByteAt(Flatten(e.plain), o)
  }

  lemma ExpectedByteOfSector(e: Layout, o: nat)
    requires Consistent(e) && o < |Flatten(e.plain)|
    ensures o / e.sectorSize < |e.plain|
    ensures ExpectedSector(e, o / e.sectorSize)[o % e.sectorSize] == ExpectedByte(e, o)
  {
    var (ss, s) := (e.sectorSize, o / e.sectorSize);
    SectorNumber(o, ss);
    SectorSplit(o, ss);
    FlattenAt(e.plain, ss, o);
    if !Covered(e.reserved, s) && InCopy(e, s) && s >= e.headerSectors {
      CopyByte(e, o, s - CopyStart(e), o % ss);
    }
  }

  /** Within the header copy, the byte offsets are those of the header moved by the offset of the copy. */
  lemma CopyByte(e: Layout, o: nat, s: nat, r: nat)
    requires Consistent(e) && HeaderMoved(e) && s < |e.plain| && r < e.sectorSize
    requires o == (CopyStart(e) + s) * e.sectorSize + r
    ensures ByteAt(Flatten(e.plain), o - e.headerOffset) == e.plain[s][r]
  {
    Distribute(CopyStart(e), s, e.sectorSize);
    FlattenHolds(e.plain, e.sectorSize, s);
    SliceIndex(Flatten(e.plain), s * e.sectorSize, e.sectorSize, r, o - e.headerOffset);
  }

  /** Any read of the volume: it is served whole, and each byte is what the layout says, whatever it crosses. */
  lemma ReadReturnsVolume(e: Layout, off: nat, len: nat)
    requires Consistent(e) && off + len <= |Flatten(e.plain)|
    ensures |ReadBytes(Stored(e), off, len)| == len
    ensures forall i :: 0 <= i < len ==> ReadBytes(Stored(e), off, len)[i] == ExpectedByte(e, off + i)
  {
    var r := ReadBytes(Stored(e), off, len);
    ReadBytesIsLongest(Stored(e), off, len);
    if |r| < len {
      VolumeRoundTrip(e, off + |r|);
    }
    forall i | 0 <= i < len ensures r[i] == ExpectedByte(e, off + i) {
      VolumeRoundTrip(e, off + i);
      ExpectedByteOfSector(e, off + i);
      assert View(Stored(e), off + i) == Some(r[i]);
    }
  }

  /** Past the end there is nothing to read, except that reserved sectors go on as zeros. */
  lemma PastTheEnd(e: Layout, o: nat)
    requires Consistent(e) && o >= |Flatten(e.plain)|
    ensures View(Stored(e), o) == if Covered(e.reserved, o / e.sectorSize) then Some(0) else None
  {
    var (ss, n) := (e.sectorSize, |e.plain|);
    FlattenSize(e.plain, ss);
    FlattenSize(DiskSectors(e), ss);
    SectorAtLeast(o, n, ss);
    Scale(n, o / ss, ss);
  }

  /** Neither reserved nor in the header copy. */
  ghost predicate Ordinary(e: Layout, o: nat)
    requires Consistent(e)
  {
    !Covered(e.reserved, o / e.sectorSize) && (InCopy(e, o / e.sectorSize) ==> o / e.sectorSize < e.headerSectors)
  }

  lemma OrdinaryByte(e: Layout, o: nat)
    requires Consistent(e) && o < |Flatten(e.plain)| && Ordinary(e, o)
    ensures View(Stored(e), o) == Some(Flatten(e.plain)[o])
  {
    VolumeRoundTrip(e, o);
    ExpectedByteOfSector(e, o);
  }

  /** In particular a read with no reserved sector and no header copy in it is that slice of the plaintext. */
  lemma ReadReturnsPlaintext(e: Layout, off: nat, len: nat)
    requires Consistent(e) && off + len <= |Flatten(e.plain)|
    requires forall o: nat :: off <= o < off + len ==> Ordinary(e, o)
    ensures ReadBytes(Stored(e), off, len) == Flatten(e.plain)[off..off + len]
  {
    ReadReturnsVolume(e, off, len);
    var (r, s) := (ReadBytes(Stored(e), off, len), Flatten(e.plain)[off..off + len]);
    forall i | 0 <= i < len ensures r[i] == s[i] {
      assert Ordinary(e, off + i);
    }
  }

  // ---------- the two ciphers ----------

  lemma CipherUndoes(c: SectorCiphers.SectorCipher, n: nat)
    requires SectorCiphers.InvertibleCipher(c) && n % 16 == 0
    ensures Undoes(SectorCiphers.Decryptor(c), SectorCiphers.Encryptor(c), n)
  {
    forall k: nat, s: seq<byte> | |s| == n
      ensures |SectorCiphers.Encryptor(c)(k, s)| == n && |SectorCiphers.Decryptor(c)(k, s)| == n
      ensures SectorCiphers.Decryptor(c)(k, SectorCiphers.Encryptor(c)(k, s)) == s
    {
      CipherUndoesAt(c, k, s);
    }
  }

  lemma CipherUndoesAt(c: SectorCiphers.SectorCipher, k: nat, s: seq<byte>)
    requires SectorCiphers.InvertibleCipher(c) && |s| % 16 == 0
    ensures |SectorCiphers.Encryptor(c)(k, s)| == |s| && |SectorCiphers.Decryptor(c)(k, s)| == |s|
    ensures SectorCiphers.Decryptor(c)(k, SectorCiphers.Encryptor(c)(k, s)) == s
  {
    SectorCiphers.RoundTrip(c, k, s);
  }

  /** A volume written with either cipher, any block function that can be inverted under it, is one of these layouts. */
  lemma EncryptedLayout(c: SectorCiphers.SectorCipher, plain: seq<Sector>, raw: seq<Sector>, ss: nat,
                        reserved: seq<Region>, copyStart: nat, headerSectors: nat) returns (e: Layout)
    requires ss > 0 && SectorCiphers.Accepts(c, ss) && SectorCiphers.InvertibleCipher(c) && Normalized(reserved)
    requires Uniform(plain, ss) && Uniform(raw, ss) && |raw| == |plain| && copyStart + headerSectors <= |plain|
    ensures e == Layout(plain, raw, ss, reserved, copyStart * ss, headerSectors,
                        SectorCiphers.Encryptor(c), SectorCiphers.Decryptor(c))
    ensures Consistent(e) && Stored(e).cipher == Some(SectorCiphers.Decryptor(c))
  {
    e := Layout(plain, raw, ss, reserved, copyStart * ss, headerSectors,
                SectorCiphers.Encryptor(c), SectorCiphers.Decryptor(c));
    CipherUndoes(c, ss);
    SectorOfStart(copyStart, ss);
  }
}
