# A verified model of go-bde

go-bde reads BitLocker volumes. This project models the parts of it that carry hard properties and proves those
properties for all inputs: the decrypted stream, the three block-cipher modes, the datum parser of a metadata block,
the recovery-password format and the scans that locate the metadata.

`dafny verify dfyconfig.toml` checks everything.

## How the model is laid out

| file | models |
|---|---|
| `Bytes.dfy` | bytes, 16-byte blocks, little- and big-endian numbers, bitwise operators digit by digit |
| `Buffers.dfy` | copying into byte buffers and clearing them |
| `BlockCiphers.dfy` | a block cipher as a pair of functions; the byte-slice helpers the modes use in place |
| `GfMul.dfy`, `Xts.dfy`, `Cbc.dfy` | the two sector modes (`xts.go`, `cbc.go`) |
| `CcmFormat.dfy`, `Ccm.dfy`, `CcmReference.dfy` | key unboxing (`ccm.go`) against RFC 3610 |
| `Regions.dfy` | the reserved-region list of a stream: merged in place, searched by bisection (`bde.go`) |
| `SectorCiphers.dfy` | the cipher interface of a stream: one of the two modes |
| `Disks.dfy`, `Volumes.dfy` | the disk, and the view: what a volume shows at each offset, independently of how it is read |
| `StreamSpec.dfy`, `Stream.dfy`, `Runs.dfy` | the stream as a state machine, the code that implements it, and its runs |
| `Geometry.dfy`, `Opening.dfy` | sector sizes, reserved metadata regions, and opening a volume |
| `EncryptedVolumes.dfy`, `OpenedVolumes.dfy` | volumes written by an encryptor, and opening and reading them back |
| `DatumFormat.dfy`, `Datums.dfy`, `DatumRecords.dfy` | the datum tree and its parser (`information.go`) |
| `Recovery.dfy` | recovery passwords (`keys.go`) |
| `Locator.dfy` | the two locator scans (`detect.go`, `bde.go`) |

Code that changes things step by step is a method with loops over arrays or a class with fields, and its contract
ties it to a function; the lemmas are about that function. Three results run through several files:

* **Refinement.** `View` says, offset by offset, what a volume shows: zero in reserved sectors, the disk itself when
  the volume is decrypted, else a byte of the sector decrypted from the place it is stored at. The read loop, with its
  scratch buffer, cursors, sector boundaries, header redirection and early exits, returns exactly the longest readable
  run of the view (`ReadAtInternal`). `Read`, `Seek` and `Close` are steps of a state machine (`Step`), and the lemmas
  of `Runs.dfy` hold of every sequence of them.
* **The volume round trip.** A plaintext volume is written sector by sector with the XTS or CBC encryptor, its first
  sectors at an aligned header copy elsewhere. Every read of it is served whole, whatever it crosses: zeros in the
  reserved regions, the header in its copy, and elsewhere the plaintext that was encrypted there, for any block function
  that has an inverse (`VolumeRoundTrip`, `ReadReturnsVolume`). The same holds of a stream opened on such a disk, whose
  zeros are then exactly the metadata sectors (`OpenedReadsVolume`).
* **Formats read from the outside.** What two sides of a round trip share is also pinned on its own, in the terms of the
  standard or of the on-disk format: `Xts.DecryptsAsStandard`, `Cbc.DecryptsAsStandard`, `DecidesAsStandard` for CCM,
  `ParsedDatum`, `XtsCipherFor`, `MetadataExactly`, `MarkersAreGuids`.
* **Round trips with exact conditions.** A datum is read back from its printed bytes exactly when its size field steers
  the parser through its parts; the condition is weaker for a datum that ends the input, because nested lists may then
  stop early (`RoundTripExactly`, `MissingPropertiesAtEnd`). CCM accepts exactly the RFC 3610 encryptions
  (`AcceptsExactlyEncryptions`). A recovery password is accepted exactly when it is, up to leading `+` signs, the
  printing of eight 16-bit words (`AcceptedIsPrinted`).

AES is a parameter: any pair of functions over 16-byte blocks, assumed inverse only where a round trip needs it. The
hash of a recovery key is a parameter too. The disk is a byte sequence; reading it gives the longest available prefix
and an error exactly when that is not everything asked for. A Go string is a sequence of characters.

## Where code and documentation part

* `ccm.go:20` lists 7-byte nonces as supported. With them the message limit `1 << 64` is 0 in 64 bits, so every message
  is refused as too large; of all supported lengths this is the only one (`SevenByteNonceNeverAccepted`).
* `formatAAD` says its two-byte length is for data below 2^16 - 2^8 bytes. It agrees with the standard's encoding
  exactly there (`ShortAadIsStandard`), so the theorems on CCM are about such data.
* `CheckRecoveryPassword` asks for six digits a block, but accepts a `+` for a leading `0`, because `strconv.Atoi` takes
  a sign and the digit of a non-digit is 0 (`PlusIsAccepted`). Among accepted passwords the printed ones are exactly
  those without a `+` (`PrintedExactlyWithoutPlus`). The checksum test rejects nothing that gets as far as it
  (`ChecksumRedundant`).
* The version-1 mask `(clusterSize + 0x3FFF) & ^(clusterSize - 1)` rounds up to whole clusters exactly when the cluster
  size is a power of two (`InformationSizeRoundsUp`), so not for clusters of three sectors (`MaskFallsShort`); whatever the cluster size it leaves 16 KiB times a power of two,
  so never less than a metadata block (`InformationSizeValue`).

## Model

| member | source | states |
|---|---|---|
| Stream.BitlockerStream.ReadAtInternal | bde.go:838-910 | the bytes produced are exactly the longest readable run of the view, the next offset is the end of it, the error is nil exactly when the buffer is full and else says end of data or missing cipher, and the buffer beyond the run is untouched when decrypting |
| Stream.BitlockerStream.ReadTurn | bde.go:842-907 | one turn extends the run read so far, up to the end of the sector or the buffer, or ends it where the view ends |
| Stream.BitlockerStream.ReadPiece | bde.go:842-907 | one piece shows the view within one sector, or stops exactly where the view does |
| Stream.BitlockerStream.ZeroPiece | bde.go:851-860 | a piece of a reserved sector becomes zeros, the rest of the buffer stays |
| Stream.BitlockerStream.PassPiece | bde.go:862-876 | a piece of a decrypted volume is the disk's own bytes, short only at the end of the disk |
| Stream.BitlockerStream.CipherPiece | bde.go:882-907 | the whole sector is loaded and decrypted in a 4096-byte scratch buffer and the piece copied out, or nothing is changed when the sector cannot be read whole |
| Stream.BitlockerStream.LoadSector | bde.go:883-901 | the first headerSectors sectors come from the header copy; what is loaded is the sector decrypted under the number of the place it is stored at |
| Stream.LoadStored | bde.go:893-901 | reading and decrypting in the same buffer succeeds exactly when the whole sector is on the disk |
| Stream.ReadStep | bde.go:842-907 | the loop invariant: each piece extends the run read so far, and a short piece completes it |
| Stream.BitlockerStream.ReadAt | bde.go:926-933 | the same bytes as the internal read; the end of data is reported exactly when the view has nothing at the offset, and the missing cipher exactly when it cuts the read short |
| Stream.BitlockerStream.Read | bde.go:913-923 | one step of the state machine: returns the run at the offset and advances it by what was read, and reports the end of data exactly when there is nothing at the offset |
| Stream.BitlockerStream.Seek | bde.go:936-959 | one step of the state machine: refuses seeking from the end, unknown origins and negative targets, and then changes nothing; the sum wraps in 64 bits |
| StreamSpec.SeekStaysInRange | bde.go:943-955 | from an offset in range a relative seek is refused exactly when it would leave the 64-bit non-negative range |
| StreamSpec.SeekElsewhere | bde.go:940-954 | every other origin: from the start any offset that is not negative, from the end or elsewhere none |
| StreamSpec.SeekMoves | bde.go:936-959 | a seek leaves the stream at its target if that is allowed, else where it was |
| Stream.BitlockerStream.Close | bde.go:962-965 | one step of the state machine: the cipher is gone and nothing else changes |
| StreamSpec.CloseOnly | bde.go:962-965 | closing takes the cipher away and nothing else: what is reserved or not encrypted still shows |
| Stream.BitlockerStream.constructor | bde.go:737-763 | a new stream is valid, at offset 0, and reserves exactly the listed sectors |
| Stream.BitlockerStream.SetReservedRegions | bde.go:765-799 | the list is in normal form and bisection in it is membership in the list as given |
| StreamSpec.Step | bde.go:913-965 | every operation keeps the offset non-negative and the volume well-formed |
| Volumes.ReadBytesIsLongest | bde.go:838-910 | the run is the view byte for byte and stops short only where the view does |
| Volumes.ReadBytesPiece | bde.go:838-910 | any piece of the view can be split off the front of a read |
| Volumes.ReadBytesChunks | bde.go:838-910 | reading on from where a read ended continues it, whatever the two lengths |
| Volumes.DecryptedReadsDisk | bde.go:851-876 | a volume that is already decrypted is read as it is on disk, with zeros in the reserved sectors |
| Runs.Run | bde.go:913-965 | every run keeps the stream valid and its offset non-negative |
| Runs.ChunkedReads | bde.go:913-923 | consecutive reads of any lengths return the bytes of one read of the total and leave the offset at its end |
| Runs.ChunkingIrrelevant | bde.go:913-923 | two ways of cutting the same total return the same bytes and end in the same state |
| Runs.RunKeepsVolume | bde.go:913-965 | a run changes nothing but the offset, and the cipher exactly if it closes the stream |
| Runs.NoMissingCipherBeforeClose | bde.go:878-880 | on a stream that can be opened, a read reports the missing cipher exactly after a Close, on an encrypted volume, when it falls short |
| Regions.MergeRegions | bde.go:765-799 | from any unsorted, overlapping list with non-positive lengths: sorted, strict gaps, no empty region, and the same sectors covered |
| Regions.Collect | bde.go:770-780 | drops the regions of non-positive length and covers the same sectors |
| Regions.MergeInPlace | bde.go:783-797 | merging over the array being read gives the normal form of what was there |
| Regions.MergeStep | bde.go:785-797 | writes at or before the entry being read, so that what is unread is untouched |
| Regions.MergeOneKeeps | bde.go:785-797 | merging one more region keeps the list normal and its cover the union |
| Regions.NormalFormIsUnique | bde.go:783-798 | two normal lists covering the same sectors are equal, so the order in which equal starts are sorted cannot show |
| Regions.IsReserved | bde.go:801-812 | bisection is membership |
| Regions.NextUnreservedOffset | bde.go:814-826 | the least unreserved offset from off on |
| Regions.EndOfRegion | bde.go:819-825 | the fallback line is never reached: a reserved sector is always found by the second search |
| Regions.NextReservedStartOffset | bde.go:828-836 | from an unreserved offset the least later reserved one, or -1 exactly when there is none |
| GfMul.GfMulX | xts.go:77-90 | the byte-carry loop in place computes the doubled block |
| GfMul.MulXIsTimesX | xts.go:77-90 | the doubled block is the product with x modulo x^128 + x^7 + x^2 + x + 1 of the little-endian value |
| GfMul.MulXPowIsRemainder | xts.go:73 | j doublings give the remainder of v * x^j: the tweak is multiplied by alpha^j |
| GfMul.TweakIsRemainder | xts.go:73 | it is the only block that is such a remainder |
| GfMul.ModulusIs | xts.go:87-89 | the polynomial is x^128 + x^7 + x^2 + x + 1 |
| GfMul.MulXLinear | xts.go:77-90 | doubling is linear over exclusive or |
| GfMul.TweaksNeverCollapse | xts.go:77-90 | doubling any number of times is injective |
| Xts.CipherOfTwoKeys | xts.go:30-45 | the ciphers that can be set up are exactly those of two AES-128 or two AES-256 keys, data key first |
| Xts.DecryptSector | xts.go:47-75 | decrypts into dst whether or not it is src, and leaves dst beyond the sector alone |
| Xts.SectorTweaks | xts.go:54-73 | the plaintext of a sector, block by block, under tweaks each the double of the one before |
| Xts.DecryptStep | xts.go:62-73 | one block in place: the blocks before are plaintext, those after still ciphertext |
| Xts.DecryptAt | xts.go:62-73 | block j is decrypted with the sector tweak times alpha^j |
| Xts.RoundTrip | xts.go:47-75 | decryption and encryption undo each other for every number of whole blocks |
| Xts.TweaksDiffer | xts.go:54-59 | sectors with different 64-bit numbers differ in the tweak of every block |
| Xts.DecryptsAsStandard | xts.go:47-75 | block j of a sector in the terms of the standard: the block whose little-endian value is the sector number, encrypted, times alpha^j modulo the field polynomial, is combined before and after the data cipher |
| Cbc.NewCipherRoundTrip | cbc.go:23-67 | a cipher can be set up for a sector exactly when it has whole blocks and the key fits, and then it takes the sector and undoes its encryption |
| Cbc.DecryptSector | cbc.go:37-67 | decrypts in place or not, under the encrypted byte offset of the sector |
| Cbc.DecryptStep | cbc.go:50-66 | the ciphertext block is saved before it is overwritten, so the next block still has it |
| Cbc.DecryptAt | cbc.go:50-66 | block j is the decrypted block combined with the ciphertext block before it, the IV before the first |
| Cbc.RoundTrip | cbc.go:37-67 | decryption and encryption undo each other for every number of whole blocks |
| Cbc.DecryptsAsStandard | cbc.go:37-67 | block j of a sector in the terms of the standard: its decryption combined with the ciphertext block before it, the encrypted byte offset of the sector, as a little-endian block, before the first |
| SectorCiphers.DecryptSector | bde.go:717-719 | through the interface both modes decrypt what they are given |
| SectorCiphers.RoundTrip | bde.go:717-719 | both modes undo their own encryption |
| Ccm.Decrypt | ccm.go:23-70 | each check in the order it is made, then the recomputed tag decides between the plaintext and an authentication failure |
| Ccm.DecryptAndVerify | ccm.go:43-69 | the plaintext is returned exactly when its recomputed, masked tag is the given one |
| Ccm.MakeCcmIv | ccm.go:72-96 | the buffer becomes the counter block of section 2.3 of RFC 3610, for every width of the counter field |
| Ccm.Mac | ccm.go:98-131 | the in-place chaining is CBC-MAC over B_0, the padded associated data and the padded message |
| Ccm.UpdateCbcMac | ccm.go:149-169 | continues a CBC-MAC over the zero-padded blocks of the data |
| Ccm.FormatAad | ccm.go:133-147 | a two-byte length, the data, and zeros to a whole block |
| Ccm.FlagBits | ccm.go:101-107 | the flag byte put together with bitwise or is 64 * Adata + 8 * M' + L' |
| Ccm.KeyStreamIsMask | ccm.go:53-55 | counting up the whole 128-bit block from A_1 gives the keystream of RFC 3610 |
| Ccm.AcceptsExactlyEncryptions | ccm.go:23-70 | accepted as p exactly when it is the RFC 3610 encryption of p, with a nonce of 8 to 13 bytes |
| Ccm.RoundTrip | ccm.go:23-70 | decrypting an RFC 3610 encryption gives the message back |
| Ccm.SevenByteNonceNeverAccepted | ccm.go:30-36 | every message is refused as too large exactly for nonces of 7 bytes |
| CcmReference.DecidesAsStandard | ccm.go:23-169 | with every block of RFC 3610 read byte by byte: the plaintext is the ciphertext combined with the encrypted counter blocks, and it is accepted exactly when the tag is the start of the CBC chain combined with the encryption of A_0 |
| CcmReference.ReferenceExists | ccm.go:23-169 | there is such a chain for every message |
| CcmReference.UnmaskedUnique | ccm.go:43-56 | and only one such plaintext |
| CcmReference.RefusesInOrder | ccm.go:24-41 | which inputs are refused, and for which reason first |
| CcmFormat.CounterStaysInField | ccm.go:53-55 | incrementing the block never carries out of the last L bytes |
| CcmFormat.FormatPrefixFree | ccm.go:98-131 | distinct messages differ at some common block, section 5.4 of NIST SP 800-38C, whatever their nonces and tag lengths |
| CcmFormat.FormatDecode | ccm.go:98-131 | formatted messages that agree on every common block are the same message |
| CcmFormat.FirstBlockIsNoCounter | ccm.go:72-107 | B_0 is no counter block of any message |
| CcmFormat.ShortAadIsStandard | ccm.go:133-147 | of all lengths the standard can encode, the form written is the standard's exactly below 2^16 - 2^8 bytes |
| Geometry.SectorSize | bde.go:34-44 | one of 512, 1024, 2048 and 4096 for every boot sector, so a sector fits the pooled buffer |
| Geometry.ClusterSize | bde.go:45-51 | a positive multiple of the sector size |
| Geometry.SectorSizeIs | bde.go:34-44 | block parameters first, then shifts 9 to 12, else 512 |
| Geometry.ClusterSizeIs | bde.go:45-51 | sectors per cluster first, then the shift, a shift above 25 counting as one sector |
| Geometry.ReservedRegions | bde.go:675-709 | the listed sectors are exactly those of the information blocks and, from version 2 on, of the encrypt-on-write block |
| Geometry.InformationSizeValue | bde.go:679 | the version-1 mask leaves 16 KiB times a power of two |
| Geometry.InformationSizeRoundsUp | bde.go:679 | it is the least multiple of the cluster size from 16 KiB on exactly when the cluster size is a power of two |
| Geometry.MaskFallsShort | bde.go:45-51 | a boot sector with three sectors to a cluster, for which it is not |
| Geometry.RoundToSectorsRoundsUp | bde.go:688-702 | the sector mask is the exact round-up for every sector size |
| Geometry.TruncDivIs | bde.go:684 | integer division drops the fraction, whatever the sign |
| Opening.CipherFor | bde.go:749-761 | a cipher is set up exactly for supported key types with keys of their length, and it takes the sector size |
| Opening.XtsCipherFor | bde.go:751-755 | for types 0x8004 and 0x8005 the first half of the key is the data key and the second the tweak key |
| Opening.CbcCipherFor | bde.go:756-759 | for types 0x8002 and 0x8003 it is CBC under the whole key with the volume's sector size |
| Opening.NoCipherOtherwise | bde.go:749-761 | there is no cipher for any other type or key length |
| Opening.NewBitlockerStream | bde.go:737-763 | the stream is valid and reserves exactly the metadata sectors |
| Opening.Open | bde.go:661-672 | refused exactly when locked or without a usable cipher; an opened stream serves the volume and has a cipher when it needs one |
| Opening.InformationBlockIsHidden | bde.go:675-709 | every byte of every information block, from the start of its sector, reads as zero |
| Opening.EowBlockIsHidden | bde.go:700-705 | every byte of the encrypt-on-write block, from the start of its sector to its round-up, reads as zero |
| Opening.WholeInformationBlockIsHidden | bde.go:675-698 | the block from its own offset on is hidden whole exactly when the offset is sector-aligned or the sector after it is hidden too |
| Opening.WholeEowBlockIsHidden | bde.go:700-705 | the block from its own offset on is hidden whole exactly when it ends within its round-up or the sector after it is hidden too |
| Opening.HiddenIsZero | bde.go:851-860 | what is hidden reads as zero |
| Opening.MetadataExactly | bde.go:675-709 | the metadata sectors are exactly those that start within an information block or the encrypt-on-write block, counted from the start of its sector |
| Opening.BlockSizeInSectors | bde.go:679-690 | a reserved block is a whole number of sectors: at least 16 KiB in version 1, exactly 64 KiB later |
| EncryptedVolumes.SectorRoundTrip | bde.go:882-901 | the sector loaded for s is the plaintext that was encrypted for it, redirected or not |
| EncryptedVolumes.VolumeRoundTrip | bde.go:838-910 | every byte of an encrypted volume reads back as its plaintext, or as zero in the reserved regions |
| EncryptedVolumes.ReadReturnsVolume | bde.go:926-933 | every read within the volume is served whole, byte by byte zero, header or plaintext, across reserved sectors and the header copy |
| EncryptedVolumes.PastTheEnd | bde.go:838-910 | past the volume there is nothing to read but zeros of reserved sectors |
| EncryptedVolumes.OrdinaryByte | bde.go:838-910 | outside the reserved regions and the header copy that is the plaintext at the same offset |
| EncryptedVolumes.ReadReturnsPlaintext | bde.go:926-933 | so a read of such a stretch is that slice of the plaintext |
| EncryptedVolumes.CipherUndoes | xts.go:47-75 | either mode is a decryptor that undoes its encryptor sector by sector |
| EncryptedVolumes.EncryptedLayout | bde.go:737-763 | a volume written with either mode under an aligned header copy is such a layout |
| OpenedVolumes.OpenedIsStored | bde.go:661-763 | a stream opened on a disk encrypted with the cipher its key type asks for serves exactly the stored volume |
| OpenedVolumes.StoredCanBeOpened | bde.go:661-763 | conversely every consistent layout with the geometry, cipher and regions of a volume is such a disk |
| OpenedVolumes.OpenedReadsVolume | bde.go:661-910 | every read of such a stream is served whole: zero in the metadata sectors, the header in its copy, else the plaintext at the same offset, for any block function with an inverse |
| OpenedVolumes.OpenedReadsPlaintext | bde.go:661-910 | so what it reads outside the metadata and the header copy is that slice of the plaintext |
| Datums.ReadDatum | information.go:329-453 | reading from the shared cursor computes the parse of one datum and leaves the cursor at its end |
| Datums.ReadProperties | information.go:456-499 | the property loop computes the nested parse, the end of input only stopping it |
| Datums.Dataset.ReadData | information.go:201-232 | fails exactly on a header longer than the block; else parses the datums whatever the bytes are, at most one per eight bytes counting nested ones |
| Datums.ParseDatum | information.go:329-453 | total on every input; a datum uses at least its header, an error everything that is left |
| Datums.DatumBound | information.go:329-453 | a tree of n datums, however deep, used at least 8 n bytes of the reader |
| Datums.DataBound | information.go:205-231 | so does the whole forest |
| Datums.ForestRoundTrip | information.go:201-232 | a well-formed forest printed and padded with any number of zeros is parsed back to itself |
| Datums.WellFormedRoundTrip | information.go:329-453 | a well-formed datum is read back and reading it uses exactly its size field |
| Datums.RoundTripExactly | information.go:329-499 | a datum is read back from its printed bytes exactly when it is readable, for what follows them and for nothing following, which are different conditions |
| Datums.MissingPropertiesAtEnd | information.go:476-496 | a datum that claims nested datums it does not have is read back exactly when it ends the input |
| Datums.SlackIsPadding | information.go:480-485 | a datum with nested ones may claim up to seven bytes more than it has, and no more |
| Datums.ParsePrinted | information.go:329-453 | a readable datum printed anywhere is read back from there, at the end of the input also one whose nested lists stop early |
| Datums.PrintParsed | information.go:329-453 | a parsed datum prints as the bytes it was read from, and is readable in the sense that fits where it ended |
| Datums.ParsePadding | information.go:222-225 | zero padding ends the data |
| DatumRecords.ParsedDatum | information.go:329-453 | parsing succeeds exactly when header, record and payload are there, and then the header fields, the record fields of each type number and what follows are the literal bytes of the format |
| DatumRecords.ParsedRecord | types.go:218-261 | the record of each type number, field by field |
| DatumRecords.ParsedData | information.go:214-229 | a block's datums go on exactly while there is room for a header and the next datum is complete and claims at least its header |
| DatumFormat.WellFormedIsReadable | information.go:329-499 | a datum whose sizes are the encoded lengths is readable |
| DatumFormat.HeaderRoundTrip | information.go:333-335 | a header is read back as it was printed |
| DatumFormat.FieldsRoundTrip | types.go:218-261 | so is the fixed-size record of every datum type |
| DatumFormat.FieldsRoundTripBack | types.go:218-261 | a record that was read prints as its bytes |
| Recovery.CheckRecoveryPassword | keys.go:89-132 | reports the first thing wrong with the password, block by block in the order of the tests |
| Recovery.CheckBlock | keys.go:95-128 | reports the first thing wrong with a block; the truncated remainder plus 11 is a true remainder |
| Recovery.DeriveRecoveryKey | keys.go:67-86 | fails exactly as the check does; else hashes the sixteen bytes of the eight words |
| Recovery.BlocksToKey | keys.go:72-81 | the key array is filled with the words, least significant byte first |
| Recovery.ChecksumIsDivisibility | keys.go:120-127 | for six digits the alternating sum test is divisibility by 11 |
| Recovery.ChecksumRedundant | keys.go:120-127 | no password is ever refused for its checksum |
| Recovery.BlockAccepted | keys.go:95-128 | a block passes exactly when it is, up to a leading plus sign, six digits that make a multiple of 11 below 720896 |
| Recovery.BlockErrorIs | keys.go:95-128 | which error a block gets: no number of 63 bits, no multiple of 11, too large, not six characters, in that order |
| Recovery.FirstErrorIs | keys.go:95-129 | a password gets the error of its first bad block |
| Recovery.KeyIsPassword | keys.go:72-81 | 11 times the little-endian number in two bytes of the key is the number in the block |
| Recovery.PrintedIsAccepted | keys.go:67-132 | any eight 16-bit words print as an accepted password that stands for them |
| Recovery.AcceptedIsPrinted | keys.go:89-132 | a password is accepted exactly when, up to leading plus signs, it is the printing of the words it stands for |
| Recovery.PrintedExactlyWithoutPlus | keys.go:89-132 | among accepted passwords the printed ones are exactly those without a plus sign |
| Recovery.PlusIsAccepted | keys.go:97-100 | a password of blocks +00011 is accepted |
| Recovery.SameKeyExactly | keys.go:67-86 | two accepted passwords give the same sixteen bytes exactly when they are the same up to leading plus signs |
| Locator.ProbeInformationOffsets | detect.go:104-156 | the information offsets of the reference scan, in its order, or its failure |
| Locator.TryScan | bde.go:133-196 | the information and encrypt-on-write offsets of the same reference scan, or its failure |
| Locator.ScannersAgree | detect.go:104-156 | on every disk the two scanners both fail, or find the same information offsets in the same order |
| Locator.ProbeSector | detect.go:108-152 | one round appends the information offsets of the sector |
| Locator.TrySector | bde.go:138-192 | one round appends both kinds of offsets of the sector |
| Locator.RawOffsets | detect.go:108-136 | the offsets after a GUID are what the disk has there, taken from the sector buffer or read again |
| Locator.IndexFrom | detect.go:144-149 | the first occurrence, or -1 exactly when there is none |
| Locator.LocatorRoundTrip | detect.go:108-136 | the offsets written in a locator are read back in order, without the zero ones |
| Locator.SectorRoundTrip | detect.go:138-152 | the first locator of a sector is found wherever it starts, even when its offsets run into the next sector |
| Locator.ScanRoundTrip | detect.go:138-155 | a scan of sectors of which one holds a locator finds exactly the offsets written there |
| Locator.CombineFails | detect.go:138-155 | a scan fails exactly when one of its sectors does |
| Locator.CombineInOrder | detect.go:138-155 | what a scan finds comes in the order of the sectors |
| Locator.SectorCases | detect.go:138-152 | a sector fails exactly when it is not all there or the offsets after its GUID are not |
| Locator.MarkersAreGuids | types.go:14-30 | the two markers are the GUIDs of the format, group by group |

## Left out

- Overflow of 64-bit offsets: offsets, sector numbers and sector counts are unbounded integers, so a read that runs past 2^63 - 1 goes on here. The fixed widths of tweaks, IVs, message limits, locator and header offsets and of a relative seek are modelled.
- AES, SHA-256, constant-time comparison: abstract functions.
- The buffer pool: each use takes a fresh buffer of 4096 bytes.
- Library sort, search, CTR mode, `strings.Split`, `strconv.Atoi` and `binary.Read`: modelled by what they promise. The sort is used only as a permutation into order; the search is the library's bisection.
- The panics of `decryptSector` on a wrong length are preconditions; every caller here meets them.
- Negative read offsets, which the read loop does not handle either.
- Datums are values rather than shared pointers, and `size` is not kept apart from the header field it copies.
- Malformed datums beyond totality, the size bound and the exact round-trip condition: what a lying size makes of the bytes after it is the parser's own definition.
- The two locator GUIDs are a parameter of the scanners (the program's are `BITLOCKER_MARKERS`), and the retries of `readGuidBlocks` with other sector sizes are not modelled.
- `tryBootSectorOffsets`, `New`, `NewInformation`, `NewEowInformation`, `readerSize` and the boot-sector marker: input plumbing and heuristics.
- `Unlock` and the functions around it, `Stretch`, `DeriveUserKey`, `UTF16LEEncode`, `Text`, `Unbox`: error plumbing, or a hash iterated.
- Getters, FILETIME conversion, checksum validation (stubbed in the program) and the command-line tool.
