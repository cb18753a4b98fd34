/** The decrypted stream: reads served sector by sector into the caller's buffer. */
module Stream {
  import opened Buffers
  import opened Bytes
  import opened Disks
  import opened SectorCiphers
  import opened Regions
  import opened Volumes
  import opened StreamSpec

  /** What a step within one sector does to the buffer: m bytes of the view at d, and no more to be had if m < toDo. */
  ghost predicate Piece(v: Volume, cur: nat, p: seq<byte>, was: seq<byte>, d: nat, toDo: nat, m: nat)
    requires WellFormed(v)
  {
    m <= toDo && d + toDo <= |p| == |was| &&
    Shows(v, cur, p[d..d + m]) && (m < toDo ==> View(v, cur + m).None?) &&
    p[..d] == was[..d] && (!v.passthrough ==> p[d + m..] == was[d + m..])
  }

  /** Having read `done`, what the rest of a read of len bytes will add. */
  ghost predicate Reading(v: Volume, off: nat, len: nat, done: seq<byte>)
    requires WellFormed(v)
  {
    |done| <= len && ReadBytes(v, off, len) == done + ReadBytes(v, off + |done|, len - |done|)
  }

  /** A piece of the view extends what has been read. */
  lemma Advance(v: Volume, off: nat, len: nat, done: seq<byte>, piece: seq<byte>)
    requires WellFormed(v) && Reading(v, off, len, done) && |done| + |piece| <= len
    requires Shows(v, off + |done|, piece)
    ensures Reading(v, off, len, done + piece)
  {
    var (o, l) := (off + |done|, len - |done|);
    ReadBytesPiece(v, o, l, piece);
    assert o + |piece| == off + |done + piece| && l - |piece| == len - |done + piece|;
    Reassociate(done, piece, ReadBytes(v, off + |done + piece|, len - |done + piece|));
  }

  /** Where there is no more view, what has been read is the whole run. */
  lemma Finished(v: Volume, off: nat, len: nat, done: seq<byte>)
    requires WellFormed(v) && Reading(v, off, len, done)
    requires |done| < len ==> View(v, off + |done|).None?
    ensures done == ReadBytes(v, off, len)
  {
    assert done + [] == done;
  }

  /** What one turn of the read loop does to the buffer. */
  lemma ReadStep(v: Volume, off: nat, was: seq<byte>, before: seq<byte>, after: seq<byte>, n: nat, toDo: nat, m: nat)
    requires WellFormed(v) && n <= |was| == |before| && Reading(v, off, |was|, before[..n])
    requires Piece(v, off + n, after, before, n, toDo, m)
    requires !v.passthrough ==> before[n..] == was[n..]
    ensures Reading(v, off, |was|, after[..n + m])
    ensures m < toDo ==> after[..n + m] == ReadBytes(v, off, |was|)
    ensures !v.passthrough ==> after[n + m..] == was[n + m..]
  {
    Advance(v, off, |was|, before[..n], after[n..n + m]);
    assert after[..n + m] == before[..n] + after[n..n + m];
    SliceOfTail(was, n, m);
    SliceOfTail(before, n, m);
    if m < toDo { Finished(v, off, |was|, after[..n + m]); }
  }

  /** A piece of a decrypted sector, or nothing where the sector cannot be read. */
  lemma CipherPieceShows(v: Volume, cur: nat, p: seq<byte>, was: seq<byte>, d: nat, toDo: nat, sector: seq<byte>)
    requires WellFormed(v) && !v.passthrough && !Covered(v.reserved, cur / v.sectorSize)
    requires 0 < toDo <= v.sectorSize - cur % v.sectorSize && d + toDo <= |p| == |was|
    ensures PlainSector(v, cur / v.sectorSize).None? ==> Piece(v, cur, was, was, d, toDo, 0)
    ensures PlainSector(v, cur / v.sectorSize) == Some(sector) ==> |sector| == v.sectorSize
    ensures PlainSector(v, cur / v.sectorSize) == Some(sector) &&
            p[..d] == was[..d] && p[d + toDo..] == was[d + toDo..] &&
            p[d..d + toDo] == sector[cur % v.sectorSize..cur % v.sectorSize + toDo] ==>
              Piece(v, cur, p, was, d, toDo, toDo)
  {
    ShowsPlain(v, cur, toDo);
  }

  /** Reads the sector at srcOffset and decrypts it in place, under the number of the place it is stored at. */
  method LoadStored(disk: seq<byte>, ss: nat, c: SectorCipher, srcOffset: nat, sectorBuf: array<byte>,
                    ghost f: SectorFn) returns (ok: bool)
    requires 0 < ss <= sectorBuf.Length && Accepts(c, ss) && Computes(f, c, ss)
    modifies sectorBuf
    ensures ok <==> StoredSector(disk, srcOffset, ss, Some(f)).Some?
    ensures ok ==> sectorBuf[..][..ss] == StoredSector(disk, srcOffset, ss, Some(f)).value
  {
    AllDiskBytes(disk, srcOffset, ss);
    SectorNumber(srcOffset, ss);
    var sectorNum: nat := srcOffset / ss;
    var m, err := DiskReadAt(disk, sectorBuf, 0, ss, srcOffset);
    if err.Some? {
      return false;
    }
    ghost var stored := disk[srcOffset..srcOffset + ss];
    assert sectorBuf[..ss] == sectorBuf[0..ss];
    DecryptInPlace(c, sectorBuf, ss, sectorNum, stored, f);
    assert sectorBuf[..][..ss] == sectorBuf[..ss];
    return true;
  }

  class BitlockerStream {
    const disk: seq<byte>
    const sectorSize: nat
    const passthrough: bool
    const headerOffset: int
    const headerSectors: int
    var reserved: seq<Region>
    var cipher: Option<SectorCipher>
    var offset: int
    ghost var decrypt: SectorFn  // what the cipher computes

    ghost function Vol(): Volume
      reads this
    {
      Volume(disk, sectorSize, reserved, passthrough, headerOffset, headerSectors,
             if cipher.None? then None else Some(decrypt))
    }

    ghost function Snapshot(): State
      reads this
    {
      State(Vol(), offset)
    }

    /** The sector fits the 4096-byte pooled buffer, the cipher takes its length, the regions are in normal form. */
    ghost predicate Valid()
      reads this
    {
      0 < sectorSize <= 4096 &&
      (cipher.Some? ==> Accepts(cipher.value, sectorSize) && Computes(decrypt, cipher.value, sectorSize)) &&
      WellFormed(Vol()) && offset >= 0
    }

    constructor (disk: seq<byte>, sectorSize: nat, passthrough: bool, regions: seq<(int, int)>,
                 headerOffset: int, headerSectors: int, cipher: Option<SectorCipher>)
      requires 0 < sectorSize <= 4096 && (cipher.Some? ==> Accepts(cipher.value, sectorSize))
      ensures Valid() && offset == 0
      ensures this.disk == disk && this.sectorSize == sectorSize && this.passthrough == passthrough
      ensures cipher.Some? ==> decrypt == Decryptor(cipher.value)
      ensures this.headerOffset == headerOffset && this.headerSectors == headerSectors && this.cipher == cipher
      ensures forall s :: IsReserved(reserved, s) <==> Listed(regions, s)
    {
      this.disk := disk;
      this.sectorSize := sectorSize;
      this.passthrough := passthrough;
      this.headerOffset := headerOffset;
      this.headerSectors := headerSectors;
      this.cipher := cipher;
      this.offset := 0;
      this.reserved := [];
      var f: SectorFn := OptionalDecryptor(cipher);
      this.decrypt := f;
      new;
      if cipher.Some? { DecryptorComputes(cipher.value, sectorSize); }
      SetReservedRegions(regions);
    }

    method SetReservedRegions(regions: seq<(int, int)>)
      modifies this`reserved
      ensures Normalized(reserved)
      ensures forall s :: IsReserved(reserved, s) <==> Listed(regions, s)
    {
      reserved := MergeRegions(regions);
    }

    /** Zero-fills a reserved piece. */
    method ZeroPiece(p: array<byte>, d: nat, cur: nat, toDo: nat)
      requires Valid() && d + toDo <= p.Length && toDo <= sectorSize - cur % sectorSize
      requires IsReserved(reserved, cur / sectorSize)
      modifies p
      ensures Piece(Vol(), cur, p[..], old(p[..]), d, toDo, toDo)
    {
      ghost var was := p[..];
      for i := 0 to toDo
        invariant p[..d] == was[..d] && p[d + i..] == was[d + i..]
        invariant forall k :: d <= k < d + i ==> p[k] == 0
      {
        p[d + i] := 0;
      }
      ShowsZeros(Vol(), cur, p[d..d + toDo]);
    }

    /** Reads a piece of a volume that is not encrypted. */
    method PassPiece(p: array<byte>, d: nat, cur: nat, toDo: nat) returns (m: nat, err: Option<ReadError>)
      requires Valid() && d + toDo <= p.Length && toDo <= sectorSize - cur % sectorSize
      requires passthrough && !IsReserved(reserved, cur / sectorSize)
      modifies p
      ensures Piece(Vol(), cur, p[..], old(p[..]), d, toDo, m)
      ensures err == if m == toDo then None else Some(EOF)
    {
      ShowsDisk(Vol(), cur, toDo);
      m, err := DiskReadAt(disk, p, d, toDo, cur);
    }

    /** Reads and decrypts the whole sector in a scratch buffer, then copies the piece asked for. */
    method CipherPiece(p: array<byte>, d: nat, cur: nat, toDo: nat) returns (m: nat, err: Option<ReadError>)
      requires Valid() && d + toDo <= p.Length && 0 < toDo <= sectorSize - cur % sectorSize
      requires !passthrough && cipher.Some? && !IsReserved(reserved, cur / sectorSize)
      modifies p
      ensures Piece(Vol(), cur, p[..], old(p[..]), d, toDo, m)
      ensures m == 0 || m == toDo
      ensures err == if m == toDo then None else Some(EOF)
    {
      SectorNumber(cur, sectorSize);
      var sector: nat, inSector := cur / sectorSize, cur % sectorSize;
      ghost var was := p[..];
      var sectorBuf := new byte[4096];
      var ok := LoadSector(sector, sectorBuf);
      ghost var plain := sectorBuf[..][..sectorSize];
      if !ok {
        CipherPieceShows(Vol(), cur, p[..], was, d, toDo, plain);
        return 0, Some(EOF);
      }
      SliceOfPrefix(sectorBuf[..], sectorSize, inSector, inSector + toDo);
      CopySlice(p, d, sectorBuf[..][inSector..inSector + toDo]);
      CipherPieceShows(Vol(), cur, p[..], was, d, toDo, plain);
      assert p[..][..d] == p[..d] && p[..][d + toDo..] == p[d + toDo..] && p[..][d..d + toDo] == p[d..d + toDo];
      return toDo, None;
    }

    /** Fills a buffer with the plaintext of a sector, from wherever it is stored. */
    method LoadSector(sector: nat, sectorBuf: array<byte>) returns (ok: bool)
      requires Valid() && cipher.Some? && sectorBuf.Length == 4096
      modifies sectorBuf
      ensures ok <==> PlainSector(Vol(), sector).Some?
      ensures ok ==> sectorBuf[..][..sectorSize] == PlainSector(Vol(), sector).value
    {
      var sectorStart := sector * sectorSize;
      var srcOffset := sectorStart;
      if headerOffset > 0 && headerSectors > 0 && sector < headerSectors {
        srcOffset := headerOffset + sector * sectorSize;
      }
      ok := LoadStored(disk, sectorSize, cipher.value, srcOffset, sectorBuf, decrypt);
    }

    /** The piece of a read that lies in the sector of cur. */
    method ReadPiece(p: array<byte>, d: nat, cur: nat, toDo: nat) returns (m: nat, err: Option<ReadError>)
      requires Valid() && d + toDo <= p.Length && 0 < toDo <= sectorSize - cur % sectorSize
      modifies p
      ensures Piece(Vol(), cur, p[..], old(p[..]), d, toDo, m)
      ensures err.None? <==> m == toDo
      ensures err.Some? ==> err == ReadOutcome(Vol(), 0, 1)
    {
      if IsReserved(reserved, cur / sectorSize) {
        ZeroPiece(p, d, cur, toDo);
        return toDo, None;
      }
      if passthrough {
        m, err := PassPiece(p, d, cur, toDo);
        return;
      }
      if cipher.None? {
        ShowsPlain(Vol(), cur, toDo);
        return 0, Some(NotInitialized);
      }
      m, err := CipherPiece(p, d, cur, toDo);
    }

    /** One turn of the read loop, from n bytes read on: as far as the end of the sector or of the buffer. */
    method ReadTurn(p: array<byte>, off: nat, n: nat, ghost was: seq<byte>) returns (m: nat, err: Option<ReadError>)
      requires Valid() && n < p.Length == |was| && Reading(Vol(), off, p.Length, p[..][..n])
      requires !passthrough ==> p[..][n..] == was[n..]
      modifies p
      ensures n + m <= p.Length && (err.None? ==> m > 0) && Reading(Vol(), off, p.Length, p[..][..n + m])
      ensures err.Some? ==> p[..][..n + m] == ReadBytes(Vol(), off, p.Length) && n + m < p.Length
      ensures err.Some? ==> err == ReadOutcome(Vol(), 0, 1)
      ensures !passthrough ==> p[..][n + m..] == was[n + m..]
    {
      var cur := off + n;
      var remainInSector := sectorSize - cur % sectorSize;
      var toDo := p.Length - n;
      if toDo > remainInSector {
        toDo := remainInSector;
      }
      ghost var before := p[..];
      m, err := ReadPiece(p, n, cur, toDo);
      ReadStep(Vol(), off, was, before, p[..], n, toDo, m);
    }

    /** The read loop: the bytes produced are the longest readable run of the view. */
    method ReadAtInternal(p: array<byte>, off: nat) returns (n: nat, nextOff: nat, err: Option<ReadError>)
      requires Valid()
      modifies p
      ensures n <= p.Length && p[..][..n] == ReadBytes(Vol(), off, p.Length)
      ensures nextOff == off + n
      ensures err == ReadOutcome(Vol(), n, p.Length)
      ensures !passthrough ==> p[..][n..] == old(p[..])[n..]
    {
      ghost var was := p[..];
      n := 0;
      var cur := off;
      while n < p.Length
        invariant 0 <= n <= p.Length && cur == off + n
        invariant Reading(Vol(), off, p.Length, p[..][..n])
        invariant !passthrough ==> p[..][n..] == was[n..]
        decreases p.Length - n
      {
        var m, readErr := ReadTurn(p, off, n, was);
        n := n + m;
        cur := cur + m;
        if readErr.Some? {
          return n, cur, readErr;
        }
      }
      Finished(Vol(), off, p.Length, p[..][..n]);
      return n, cur, None;
    }

    method ReadAt(p: array<byte>, off: nat) returns (n: nat, err: Option<ReadError>)
      requires Valid()
      modifies p
      ensures n <= p.Length && p[..][..n] == ReadBytes(Vol(), off, p.Length)
      ensures err == Reported(n, ReadOutcome(Vol(), n, p.Length))
      ensures err == Some(EOF) <==> p.Length > 0 && View(Vol(), off).None? && (passthrough || cipher.Some?)
      ensures err == Some(NotInitialized) <==> n < p.Length && !passthrough && cipher.None?
      ensures !passthrough ==> p[..][n..] == old(p[..])[n..]
    {
      var next;
      n, next, err := ReadAtInternal(p, off);
      if n > 0 && err == Some(EOF) {
        return n, None;
      }
    }

    method Read(p: array<byte>) returns (n: nat, err: Option<ReadError>)
      requires Valid()
      modifies p, this`offset
      ensures Valid() && ValidState(old(Snapshot()))
      ensures n <= p.Length && p[..][..n] == Output(old(Snapshot()), Op.Read(p.Length))
      ensures err == ErrorOf(old(Snapshot()), Op.Read(p.Length))
      ensures err == Some(EOF) <==> p.Length > 0 && View(Vol(), old(offset)).None? && (passthrough || cipher.Some?)
      ensures err == Some(NotInitialized) <==> n < p.Length && !passthrough && cipher.None?
      ensures Snapshot() == Step(old(Snapshot()), Op.Read(p.Length))
      ensures !passthrough ==> p[..][n..] == old(p[..])[n..]
    {
      var next;
      n, next, err := ReadAtInternal(p, offset);
      if n > 0 {
        offset := next;
      }
      if n > 0 && err == Some(EOF) {
        return n, None;
      }
    }

    method Seek(off: I64, whence: int) returns (r: Result<int, SeekError>)
      requires Valid()
      modifies this`offset
      ensures Valid() && ValidState(old(Snapshot()))
      ensures r == SeekResult(old(offset), off, whence)
      ensures Snapshot() == Step(old(Snapshot()), Op.Seek(off, whence))
    {
      var newOffset: int;
      if whence == 0 {
        newOffset := off;
      } else if whence == 1 {
        newOffset := AsInt64(offset + off);
      } else if whence == 2 {
        return Err(SeekEndUnsupported);
      } else {
        return Err(InvalidWhence);
      }
      if newOffset < 0 {
        return Err(NegativeOffset);
      }
      offset := newOffset;
      return Ok(newOffset);
    }

    method Close()
      requires Valid()
      modifies this`cipher
      ensures Valid() && ValidState(old(Snapshot()))
      ensures Snapshot() == Step(old(Snapshot()), Op.Close)
    {
      cipher := None;
    }
  }
}
