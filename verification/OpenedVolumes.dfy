/** From an encrypted disk to the bytes of a read: opening, locating and decrypting together. */
module OpenedVolumes {
  import opened Bytes
  import opened BlockCiphers
  import opened Volumes
  import opened Geometry
  import opened Opening
  import opened EncryptedVolumes
  import Regions
  import SectorCiphers

  /** Whole sectors, and room for the header copy at a sector-aligned offset if there is one. */
  ghost predicate Fits(e: Layout) {
    e.sectorSize > 0 && Uniform(e.plain, e.sectorSize) && Uniform(e.raw, e.sectorSize) && |e.raw| == |e.plain| &&
    (HeaderMoved(e) ==> e.headerOffset % e.sectorSize == 0 && CopyStart(e) + e.headerSectors <= |e.plain|)
  }

  /** The layout is the one a stream on b reads by: its geometry, its regions and the cipher b asks for. */
  ghost predicate LaidOutFor(b: Bde, v: Volume, c: SectorCiphers.SectorCipher, e: Layout) {
    e.sectorSize == b.metadata.sectorSize && e.reserved == v.reserved &&
    e.headerOffset == AsInt64(b.volumeHeaderOffset) && e.headerSectors == b.volumeHeaderSectors &&
    e.encrypt == SectorCiphers.Encryptor(c) && e.decrypt == SectorCiphers.Decryptor(c)
  }

  /** A stream opened on b reads a disk with the plaintext of e, encrypted with a block function that has an inverse. */
  ghost predicate OpenedOn(aes: Aes, b: Bde, v: Volume, c: SectorCiphers.SectorCipher, e: Layout)
    requires ValidBde(b)
  {
    Serves(aes, b, v) && !b.decrypted && CipherFor(aes, b) == Some(c) && SectorCiphers.InvertibleCipher(c) &&
    LaidOutFor(b, v, c, e) && Fits(e) && (Consistent(e) ==> b.disk == Flatten(DiskSectors(e)))
  }

  lemma FitsIsConsistent(e: Layout, c: SectorCiphers.SectorCipher)
    requires Fits(e) && Regions.Normalized(e.reserved) && SectorCiphers.InvertibleCipher(c) && e.sectorSize % 16 == 0
    requires e.encrypt == SectorCiphers.Encryptor(c) && e.decrypt == SectorCiphers.Decryptor(c)
    ensures Consistent(e)
  {
    CipherUndoes(c, e.sectorSize);
    Regions.SectorSplit(e.headerOffset, e.sectorSize);
  }

  lemma SameVolume(v: Volume, w: Volume)
    requires v.disk == w.disk && v.sectorSize == w.sectorSize && v.reserved == w.reserved
    requires v.headerOffset == w.headerOffset && v.headerSectors == w.headerSectors && v.passthrough == w.passthrough
    requires v.cipher.Some? && w.cipher.Some? && v.cipher.value == w.cipher.value
    ensures v == w
  {
  }

  /** A stream opened on a disk that was encrypted with the cipher it asks for serves exactly the stored volume. */
  lemma OpenedIsStored(aes: Aes, b: Bde, v: Volume, c: SectorCiphers.SectorCipher, e: Layout)
    requires ValidBde(b) && OpenedOn(aes, b, v, c, e)
    ensures Consistent(e) && v == Stored(e)
    ensures forall s :: Regions.Covered(e.reserved, s) <==> MetadataSector(b.metadata, s)
  {
    FitsIsConsistent(e, c);
    SameVolume(v, Stored(e));
  }

  /** Conversely, every consistent layout with the geometry, the cipher and the regions of b gives such a disk. */
  lemma StoredCanBeOpened(aes: Aes, b: Bde, c: SectorCiphers.SectorCipher, e: Layout)
    requires ValidBde(b) && Consistent(e) && SectorCiphers.InvertibleCipher(c) && LaidOutFor(b, Stored(e), c, e)
    requires !b.decrypted && CipherFor(aes, b) == Some(c)
    requires forall s :: Regions.Covered(e.reserved, s) <==> MetadataSector(b.metadata, s)
    ensures OpenedOn(aes, b.(disk := Flatten(DiskSectors(e))), Stored(e), c, e)
  {
    if HeaderMoved(e) {
      AlignedMultiple(CopyStart(e), e.sectorSize);
    }
  }

  lemma AlignedMultiple(k: int, ss: nat)
    requires ss > 0
    ensures k * ss % ss == 0
  {
    Regions.SectorOfStart(k, ss);
    Regions.SectorSplit(k * ss, ss);
  }

  /** The byte a reader should see: zero in a metadata sector, the header in its copy, else the plaintext there. */
  ghost function ReadableByte(m: Metadata, e: Layout, o: nat): byte
    requires ValidMetadata(m) && e.sectorSize > 0
  {
    var s := o / e.sectorSize;
    if MetadataSector(m, s) then 0
    else if InCopy(e, s) && s >= e.headerSectors then ByteAt(Flatten(e.plain), o - e.headerOffset)
    else ByteAt(Flatten(e.plain), o)
  }

  lemma SameByte(m: Metadata, e: Layout, o: nat)
    requires ValidMetadata(m) && Consistent(e) && forall s :: Regions.Covered(e.reserved, s) <==> MetadataSector(m, s)
    ensures ReadableByte(m, e, o) == ExpectedByte(e, o)
  {
    assert Regions.Covered(e.reserved, o / e.sectorSize) <==> MetadataSector(m, o / e.sectorSize);
  }

  /** r is what a reader should see from off on. */
  ghost predicate Readable(m: Metadata, e: Layout, off: nat, r: seq<byte>)
    requires ValidMetadata(m) && e.sectorSize > 0
  {
    forall i :: 0 <= i < |r| ==> r[i] == ReadableByte(m, e, off + i)
  }

  lemma StoredReads(m: Metadata, e: Layout, off: nat, len: nat)
    requires ValidMetadata(m) && Consistent(e) && forall s :: Regions.Covered(e.reserved, s) <==> MetadataSector(m, s)
    requires off + len <= |Flatten(e.plain)|
    ensures |ReadBytes(Stored(e), off, len)| == len && Readable(m, e, off, ReadBytes(Stored(e), off, len))
  {
    ReadReturnsVolume(e, off, len);
    var r := ReadBytes(Stored(e), off, len);
    forall i | 0 <= i < len ensures r[i] == ReadableByte(m, e, off + i) {
      SameByte(m, e, off + i);
    }
  }

  /** The whole path: any read of a stream opened on an encrypted disk returns every byte, across metadata and copy. */
  lemma OpenedReadsVolume(aes: Aes, b: Bde, v: Volume, c: SectorCiphers.SectorCipher, e: Layout, off: nat, len: nat)
    requires ValidBde(b) && OpenedOn(aes, b, v, c, e) && off + len <= |Flatten(e.plain)|
    ensures |ReadBytes(v, off, len)| == len && Readable(b.metadata, e, off, ReadBytes(v, off, len))
  {
    OpenedIsStored(aes, b, v, c, e);
    StoredReads(b.metadata, e, off, len);
  }

  /** Neither in a metadata block nor in the header copy. */
  ghost predicate Undisturbed(m: Metadata, e: Layout, o: nat)
    requires ValidMetadata(m) && e.sectorSize > 0
  {
    !MetadataSector(m, o / e.sectorSize) && (InCopy(e, o / e.sectorSize) ==> o / e.sectorSize < e.headerSectors)
  }

  ghost predicate AllUndisturbed(m: Metadata, e: Layout, off: nat, len: nat)
    requires ValidMetadata(m) && e.sectorSize > 0
  {
    forall o: nat :: off <= o < off + len ==> Undisturbed(m, e, o)
  }

  lemma UndisturbedBytes(m: Metadata, e: Layout, off: nat, len: nat, r: seq<byte>)
    requires ValidMetadata(m) && e.sectorSize > 0 && off + len <= |Flatten(e.plain)|
    requires |r| == len && Readable(m, e, off, r) && AllUndisturbed(m, e, off, len)
    ensures r == Flatten(e.plain)[off..off + len]
  {
    forall i | 0 <= i < len ensures r[i] == Flatten(e.plain)[off..off + len][i] {
      assert Undisturbed(m, e, off + i);
    }
  }

  /** In particular what it reads away from the metadata is the plaintext. */
  lemma OpenedReadsPlaintext(aes: Aes, b: Bde, v: Volume, c: SectorCiphers.SectorCipher, e: Layout, off: nat, len: nat)
    requires ValidBde(b) && OpenedOn(aes, b, v, c, e) && off + len <= |Flatten(e.plain)|
    requires AllUndisturbed(b.metadata, e, off, len)
    ensures ReadBytes(v, off, len) == Flatten(e.plain)[off..off + len]
  {
    OpenedReadsVolume(aes, b, v, c, e, off, len);
    UndisturbedBytes(b.metadata, e, off, len, ReadBytes(v, off, len));
  }
}
