/** The cipher of a stream: one of the two sector modes. */
module SectorCiphers {
  import opened Bytes
  import opened BlockCiphers
  import Xts
  import Cbc

  datatype SectorCipher = XtsSectors(xts: Xts.XtsCipher) | CbcSectors(cbc: Cbc.CbcCipher)

  /** The lengths decryptSector does not panic on. */
  predicate Accepts(c: SectorCipher, n: nat) {
    n % 16 == 0 && (c.CbcSectors? ==> n == c.cbc.sectorSize)
  }

  ghost predicate InvertibleCipher(c: SectorCipher) {
    match c
    case XtsSectors(x) => Invertible(x.dataKey)
    case CbcSectors(b) => Invertible(b.block)
  }

  function Decrypt(c: SectorCipher, sectorNum: nat, s: seq<byte>): (r: seq<byte>)
    requires |s| % 16 == 0
    ensures |r| == |s|
  {
    match c
    case XtsSectors(x) => Xts.Decrypt(x, sectorNum, s)
    case CbcSectors(b) => Cbc.Decrypt(b, sectorNum, s)
  }

  function Encrypt(c: SectorCipher, sectorNum: nat, s: seq<byte>): (r: seq<byte>)
    requires |s| % 16 == 0
    ensures |r| == |s|
  {
    match c
    case XtsSectors(x) => Xts.Encrypt(x, sectorNum, s)
    case CbcSectors(b) => Cbc.Encrypt(b, sectorNum, s)
  }

  /** The cipher as a function of sector number and sector. */
  function Decryptor(c: SectorCipher): (nat, seq<byte>) -> seq<byte> {
    (sectorNum: nat, s: seq<byte>) => if |s| % 16 == 0 then Decrypt(c, sectorNum, s) else s
  }

  function Encryptor(c: SectorCipher): (nat, seq<byte>) -> seq<byte> {
    (sectorNum: nat, s: seq<byte>) => if |s| % 16 == 0 then Encrypt(c, sectorNum, s) else s
  }

  function OptionalDecryptor(c: Option<SectorCipher>): (nat, seq<byte>) -> seq<byte> {
    if c.Some? then Decryptor(c.value) else (sectorNum: nat, s: seq<byte>) => s
  }

  method DecryptSector(c: SectorCipher, dst: array<byte>, src: array<byte>, n: nat, sectorNum: nat)
    requires n <= dst.Length && n <= src.Length && Accepts(c, n)
    modifies dst
    ensures dst[..] == Decrypt(c, sectorNum, old(src[..n])) + old(dst[n..])
  {
    match c
    case XtsSectors(x) => Xts.DecryptSector(x, dst, src, n, sectorNum);
    case CbcSectors(b) => Cbc.DecryptSector(b, dst, src, n, sectorNum);
  }

  /** On sectors of n bytes, f is what the cipher computes. */
  ghost predicate Computes(f: (nat, seq<byte>) -> seq<byte>, c: SectorCipher, n: nat) {
    n % 16 == 0 &&
    forall k: nat, s: seq<byte> {:trigger Decrypt(c, k, s)} :: |s| == n ==> f(k, s) == Decrypt(c, k, s)
  }

  lemma DecryptorComputes(c: SectorCipher, n: nat)
    requires n % 16 == 0
    ensures Computes(Decryptor(c), c, n)
  {
  }

  /** Decrypts the first n bytes of a buffer where they are. */
  method DecryptInPlace(c: SectorCipher, buf: array<byte>, n: nat, sectorNum: nat,
                        ghost was: seq<byte>, ghost f: (nat, seq<byte>) -> seq<byte>)
    requires n <= buf.Length && Accepts(c, n) && buf[..n] == was && Computes(f, c, n)
    modifies buf
    ensures buf[..n] == f(sectorNum, was)
  {
    DecryptSector(c, buf, buf, n, sectorNum);
    assert buf[..n] == Decrypt(c, sectorNum, was);
  }

  /** Both modes undo their own encryption, under the same sector number, and the other way round. */
  lemma RoundTrip(c: SectorCipher, sectorNum: nat, s: seq<byte>)
    requires InvertibleCipher(c) && |s| % 16 == 0
    ensures Decrypt(c, sectorNum, Encrypt(c, sectorNum, s)) == s
    ensures Encrypt(c, sectorNum, Decrypt(c, sectorNum, s)) == s
  {
    match c
    case XtsSectors(x) => Xts.RoundTrip(x, sectorNum, s);
    case CbcSectors(b) => Cbc.RoundTrip(b, sectorNum, s);
  }
}
