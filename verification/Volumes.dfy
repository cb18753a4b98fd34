/** What a stream shows at each offset, independently of how it is read. */
module Volumes {
  import opened Bytes
  import opened Disks
  import opened Regions

  /** Decryption of the sector with a given number. */
  type SectorFn = (nat, seq<byte>) -> seq<byte>

  /** Everything a stream reads through, apart from its position. */
  datatype Volume = Volume(
    disk: seq<byte>,
    sectorSize: nat,
    reserved: seq<Region>,
    passthrough: bool,
    headerOffset: int,
    headerSectors: int,
    cipher: Option<SectorFn>)

  ghost predicate KeepsLength(f: SectorFn, n: nat) {
    forall k: nat, s: seq<byte> :: |s| == n ==> |f(k, s)| == n
  }

  ghost predicate WellFormed(v: Volume) {
    v.sectorSize > 0 && Normalized(v.reserved) && (v.cipher.Some? ==> KeepsLength(v.cipher.value, v.sectorSize))
  }

  /** Where the ciphertext of a sector is stored: the first sectors are redirected to the header copy. */
  function StorageOffset(v: Volume, sector: nat): nat {
    if v.headerOffset > 0 && v.headerSectors > 0 && sector < v.headerSectors
    then v.headerOffset + sector * v.sectorSize
    else sector * v.sectorSize
  }

  /** The whole sector stored at an offset, decrypted under the number of the place it is stored at. */
  function StoredSector(disk: seq<byte>, src: nat, ss: nat, cipher: Option<SectorFn>): Option<seq<byte>>
    requires ss > 0
  {
    if cipher.None? || src + ss > |disk| then None
    else Some(cipher.value(src / ss, disk[src..src + ss]))
  }

  function PlainSector(v: Volume, sector: nat): Option<seq<byte>>
    requires v.sectorSize > 0
  {
    StoredSector(v.disk, StorageOffset(v, sector), v.sectorSize, v.cipher)
  }

  lemma PlainSectorSize(v: Volume, sector: nat)
    requires WellFormed(v)
    ensures PlainSector(v, sector).Some? ==> |PlainSector(v, sector).value| == v.sectorSize
  {
  }

  /** The byte at an offset, or nothing where the stream cannot be read. */
  ghost function View(v: Volume, o: nat): Option<byte>
    requires WellFormed(v)
  {
    if Covered(v.reserved, o / v.sectorSize) then Some(0)
    else if v.passthrough then if o < |v.disk| then Some(v.disk[o]) else None
    else ByteOfSector(PlainSector(v, o / v.sectorSize), o % v.sectorSize)
  }

  function ByteOfSector(s: Option<seq<byte>>, i: nat): Option<byte> {
    if s.Some? && i < |s.value| then Some(s.value[i]) else None
  }

  /** s is what the volume shows from off on. */
  ghost predicate Shows(v: Volume, off: nat, s: seq<byte>)
    requires WellFormed(v)
  {
    forall i :: 0 <= i < |s| ==> View(v, off + i) == Some(s[i])
  }

  /** The longest readable run from off on, of at most len bytes. */
  ghost function ReadBytes(v: Volume, off: nat, len: nat): (s: seq<byte>)
    requires WellFormed(v)
    ensures |s| <= len
    decreases len
  {
    if len == 0 || View(v, off).None? then [] else [View(v, off).value] + ReadBytes(v, off + 1, len - 1)
  }

  lemma ShowsStep(v: Volume, off: nat, b: byte, rest: seq<byte>)
    requires WellFormed(v)
    ensures Shows(v, off, [b] + rest) <==> View(v, off) == Some(b) && Shows(v, off + 1, rest)
  {
    var s := [b] + rest;
    if Shows(v, off, s) {
      assert View(v, off + 0) == Some(s[0]);
      forall i | 0 <= i < |rest| ensures View(v, off + 1 + i) == Some(rest[i]) {
        assert View(v, off + (i + 1)) == Some(s[i + 1]);
      }
    }
    if View(v, off) == Some(b) && Shows(v, off + 1, rest) {
      forall i | 0 <= i < |s| ensures View(v, off + i) == Some(s[i]) {
        if i > 0 { assert View(v, off + 1 + (i - 1)) == Some(rest[i - 1]); }
      }
    }
  }

  /** The run is the view, byte for byte, and stops short only where there is no view. */
  lemma {:induction false} ReadBytesIsLongest(v: Volume, off: nat, len: nat)
    requires WellFormed(v)
    ensures Shows(v, off, ReadBytes(v, off, len))
    ensures |ReadBytes(v, off, len)| < len ==> View(v, off + |ReadBytes(v, off, len)|).None?
    decreases len
  {
    if len > 0 && View(v, off).Some? {
      ReadBytesIsLongest(v, off + 1, len - 1);
      ShowsStep(v, off, View(v, off).value, ReadBytes(v, off + 1, len - 1));
    }
  }

  lemma {:induction false} PieceInFront(v: Volume, off: nat, len: nat, piece: seq<byte>, o: nat, l: nat)
    requires WellFormed(v) && o == off + |piece| && len == |piece| + l && Shows(v, off, piece)
    ensures ReadBytes(v, off, len) == piece + ReadBytes(v, o, l)
    decreases |piece|
  {
    if piece == [] {
      assert piece + ReadBytes(v, o, l) == ReadBytes(v, o, l);
    } else {
      var (b, rest) := (piece[0], piece[1..]);
      assert piece == [b] + rest;
      ShowsStep(v, off, b, rest);
      PieceInFront(v, off + 1, len - 1, rest, o, l);
      Reassociate([b], rest, ReadBytes(v, o, l));
    }
  }

  /** A piece that shows the view can be split off the front of the run. */
  lemma ReadBytesPiece(v: Volume, off: nat, len: nat, piece: seq<byte>)
    requires WellFormed(v) && |piece| <= len && Shows(v, off, piece)
    ensures ReadBytes(v, off, len) == piece + ReadBytes(v, off + |piece|, len - |piece|)
  {
    PieceInFront(v, off, len, piece, off + |piece|, len - |piece|);
  }

  /** Reading on from where a run ended continues it, whatever the two lengths. */
  lemma ReadBytesChunks(v: Volume, off: nat, m: nat, n: nat)
    requires WellFormed(v)
    ensures ReadBytes(v, off, m + n) == ReadBytes(v, off, m) + ReadBytes(v, off + |ReadBytes(v, off, m)|, n)
  {
    var s := ReadBytes(v, off, m);
    ReadBytesIsLongest(v, off, m);
    ReadBytesPiece(v, off, m + n, s);
    if |s| < m {
      assert ReadBytes(v, off + |s|, m + n - |s|) == [] == ReadBytes(v, off + |s|, n);
    }
  }

  // ---------- the view within one sector ----------

  /** Offsets up to the end of a sector are in that sector. */
  lemma WithinSector(cur: nat, ss: nat, i: nat)
    requires ss > 0 && i < ss - cur % ss
    ensures (cur + i) / ss == cur / ss && (cur + i) % ss == cur % ss + i
  {
    DivModUnique(cur + i, ss, cur / ss, cur % ss + i);
  }

  lemma DivModUnique(n: nat, d: nat, q: nat, r: nat)
    requires d > 0 && n == q * d + r && r < d
    ensures n / d == q && n % d == r
  {
    SectorAtLeast(n, q, d);
    SectorAtLeast(n, q + 1, d);
  }

  lemma ShowsZeros(v: Volume, cur: nat, s: seq<byte>)
    requires WellFormed(v) && Covered(v.reserved, cur / v.sectorSize) && |s| <= v.sectorSize - cur % v.sectorSize
    requires forall i :: 0 <= i < |s| ==> s[i] == 0
    ensures Shows(v, cur, s)
  {
    forall i | 0 <= i < |s| ensures View(v, cur + i) == Some(s[i]) {
      WithinSector(cur, v.sectorSize, i);
    }
  }

  lemma ShowsDisk(v: Volume, cur: nat, n: nat)
    requires WellFormed(v) && v.passthrough && !Covered(v.reserved, cur / v.sectorSize)
    requires n <= v.sectorSize - cur % v.sectorSize
    ensures Shows(v, cur, DiskBytes(v.disk, cur, n))
    ensures |DiskBytes(v.disk, cur, n)| < n ==> View(v, cur + |DiskBytes(v.disk, cur, n)|).None?
  {
    var s := DiskBytes(v.disk, cur, n);
    forall i | 0 <= i < |s| ensures View(v, cur + i) == Some(s[i]) {
      WithinSector(cur, v.sectorSize, i);
    }
    if |s| < n { WithinSector(cur, v.sectorSize, |s|); }
  }

  lemma ShowsPlain(v: Volume, cur: nat, n: nat)
    requires WellFormed(v) && !v.passthrough && !Covered(v.reserved, cur / v.sectorSize)
    requires n <= v.sectorSize - cur % v.sectorSize
    ensures var plain := PlainSector(v, cur / v.sectorSize);
            var i := cur % v.sectorSize;
            if plain.None? then View(v, cur).None?
            else |plain.value| == v.sectorSize && Shows(v, cur, plain.value[i..i + n])
  {
    var plain := PlainSector(v, cur / v.sectorSize);
    PlainSectorSize(v, cur / v.sectorSize);
    if plain.Some? {
      var s := plain.value[cur % v.sectorSize..cur % v.sectorSize + n];
      forall i | 0 <= i < |s| ensures View(v, cur + i) == Some(s[i]) {
        WithinSector(cur, v.sectorSize, i);
      }
    }
  }

  /** A volume that is already decrypted is read as it is on disk, with zeros in the reserved sectors. */
  lemma DecryptedReadsDisk(v: Volume, off: nat, len: nat)
    requires WellFormed(v) && v.passthrough && off + len <= |v.disk|
    ensures |ReadBytes(v, off, len)| == len
    ensures forall i :: 0 <= i < len ==>
              ReadBytes(v, off, len)[i] == if Covered(v.reserved, (off + i) / v.sectorSize) then 0 else v.disk[off + i]
  {
    var r := ReadBytes(v, off, len);
    ReadBytesIsLongest(v, off, len);
    forall i | 0 <= i < len
      ensures r[i] == if Covered(v.reserved, (off + i) / v.sectorSize) then 0 else v.disk[off + i]
    {
      assert View(v, off + i) == Some(r[i]);
    }
  }
}
