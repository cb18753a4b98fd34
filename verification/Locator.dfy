/** Finding the metadata blocks: the two scans for locator blocks marked by a GUID. */
module Locator {
  import opened Bytes
  import opened Disks

  /** The GUIDs that announce a locator block without and with encrypt-on-write offsets. */
  datatype Markers = Markers(info: Block, eow: Block) {
    function For(e: nat): Block {
      if e == 0 then info else eow
    }
  }

  /** INFORMATION_OFFSET_GUID and EOW_INFORMATION_OFFSET_GUID; everything below holds of any two markers. */
  const BITLOCKER_MARKERS := Markers(
    [0x3B, 0xD6, 0x67, 0x49, 0x29, 0x2E, 0xD8, 0x4A, 0x83, 0x99, 0xF6, 0xA3, 0x39, 0xE3, 0xD0, 0x01],
    [0x3B, 0x4D, 0xA8, 0x92, 0x80, 0xDD, 0x0E, 0x4D, 0x9E, 0x4E, 0xB1, 0xE3, 0x28, 0x4E, 0xAE, 0xD8])

  // ---------- searching ----------

  /** bytes.Index: where the pattern first occurs from i on, or -1. */
  function IndexFrom(s: seq<byte>, pattern: seq<byte>, i: nat): (r: int)
    requires i <= |s|
    ensures r == -1 || (i <= r && At(s, r, pattern))
    ensures forall k: nat :: i <= k && (r < 0 || k < r) ==> !At(s, k, pattern)
    decreases |s| - i
  {
    if i + |pattern| > |s| then -1
    else if s[i..i + |pattern|] == pattern then i
    else if i == |s| then -1
    else IndexFrom(s, pattern, i + 1)
  }

  function Index(s: seq<byte>, pattern: seq<byte>): int {
    IndexFrom(s, pattern, 0)
  }

  ghost predicate NotBefore(s: seq<byte>, pattern: seq<byte>, i: nat) {
    forall k: nat :: k < i ==> !At(s, k, pattern)
  }

  lemma IndexIs(s: seq<byte>, pattern: seq<byte>, i: nat)
    requires At(s, i, pattern) && NotBefore(s, pattern, i)
    ensures Index(s, pattern) == i
  {
  }

  // ---------- what a locator block says ----------

  /** A zero offset is an empty slot. */
  function Slot(raw: seq<byte>): seq<int> {
    var off := FromLE(raw);
    if off != 0 then [AsInt64(off)] else []
  }

  /** The little-endian 64-bit numbers of raw that are not zero, as signed offsets. */
  function Offsets(raw: seq<byte>): seq<int> {
    if |raw| < 8 then [] else Offsets(raw[..|raw| - 8]) + Slot(raw[|raw| - 8..])
  }

  /** Offsets of information blocks and of encrypt-on-write blocks. */
  datatype Found = Found(info: seq<int>, eow: seq<int>) {
    function Then(next: Found): Found {
      Found(info + next.info, eow + next.eow)
    }
  }

  const NOTHING := Found([], [])

  /** The bytes after a GUID: offsets of information blocks, then of encrypt-on-write blocks. */
  datatype Slots = Slots(info: seq<byte>, eow: seq<byte>)

  const NO_SLOTS := Slots([], [])

  function Decode(r: Result<Slots, ReadError>): Result<Found, ReadError> {
    if r.Err? then Err(r.error) else Ok(Found(Offsets(r.value.info), Offsets(r.value.eow)))
  }

  /** The i and e slots of the locator whose GUID starts at `at`. */
  function SlotsAt(disk: seq<byte>, at: nat, i: nat, e: nat): Result<Slots, ReadError> {
    if at + 16 + 8 * (i + e) > |disk| then Err(EOF)
    else Ok(Slots(disk[at + 16..at + 16 + 8 * i], disk[at + 16 + 8 * i..at + 16 + 8 * (i + e)]))
  }

  lemma SlotsAre(disk: seq<byte>, at: nat, i: nat, e: nat, raw: seq<byte>, err: Option<ReadError>)
    requires |raw| == 8 * (i + e)
    requires RawRead(disk, at + 16, raw, err)
    ensures SlotsAt(disk, at, i, e) == if err.None? then Ok(Slots(raw[..8 * i], raw[8 * i..])) else Err(EOF)
  {
    if err.None? {
      AtParts(disk, at + 16, raw[..8 * i], raw[8 * i..]);
      assert raw == raw[..8 * i] + raw[8 * i..];
    }
  }

  lemma ThenNothing(f: Found)
    ensures f.Then(NOTHING) == f && NOTHING.Then(f) == f
  {
    assert f.info + [] == f.info && f.eow + [] == f.eow && [] + f.info == f.info && [] + f.eow == f.eow;
  }

  /** Which locator counts, by where the two GUIDs were found: one with encrypt-on-write offsets hides a plain one. */
  function Chosen(disk: seq<byte>, base: nat, eow: int, info: int): Result<Slots, ReadError> {
    if eow >= 0 then SlotsAt(disk, base + eow, 3, 2)
    else if info >= 0 then SlotsAt(disk, base + info, 3, 0)
    else Ok(NO_SLOTS)
  }

  lemma ChosenIs(disk: seq<byte>, base: nat, eow: int, info: int, idx: nat, e: nat)
    requires if e == 0 then eow < 0 && info == idx else e == 2 && eow == idx
    ensures Chosen(disk, base, eow, info) == SlotsAt(disk, base + idx, 3, e)
  {
  }

  /** The locator in a sector read from base on. */
  function LocatorIn(disk: seq<byte>, g: Markers, base: nat, sec: seq<byte>): Result<Slots, ReadError> {
    Chosen(disk, base, Index(sec, g.eow), Index(sec, g.info))
  }

  /** What the sector from base on holds. */
  function SectorLocator(disk: seq<byte>, g: Markers, base: nat, ss: nat): Result<Slots, ReadError> {
    var sec := DiskBytes(disk, base, ss);
    if |sec| < ss then Err(EOF) else LocatorIn(disk, g, base, sec)
  }

  lemma WholeSector(disk: seq<byte>, g: Markers, base: nat, ss: nat, sec: seq<byte>)
    requires ss > 0 && base + ss <= |disk| && sec == disk[base..base + ss]
    ensures SectorLocator(disk, g, base, ss) == LocatorIn(disk, g, base, sec)
  {
    AllDiskBytes(disk, base, ss);
  }

  function SectorAt(disk: seq<byte>, g: Markers, ss: nat, sector: nat): Result<Found, ReadError> {
    Decode(SectorLocator(disk, g, sector * ss, ss))
  }

  /** What each sector holds. */
  type Locate = nat -> Result<Found, ReadError>

  function Locators(disk: seq<byte>, g: Markers, ss: nat): Locate {
    (sector: nat) => SectorAt(disk, g, ss, sector)
  }

  /** What the first n sectors hold together, in order; the first failure counts. */
  function Combine(locate: Locate, n: nat): Result<Found, ReadError> {
    if n == 0 then Ok(NOTHING)
    else
      var (before, last) := (Combine(locate, n - 1), locate(n - 1));
      if before.Err? then before else if last.Err? then last else Ok(before.value.Then(last.value))
  }

  /** The outcome of a scan of the first n sectors. */
  function Scan(disk: seq<byte>, g: Markers, ss: nat, n: nat): Result<Found, ReadError> {
    Combine(Locators(disk, g, ss), n)
  }

  function Sectors(maxSectors: int): nat {
    if maxSectors < 0 then 0 else maxSectors
  }

  // ---------- the two scanners ----------

  /** The loop both scanners run over raw offsets. */
  method AppendOffsets(offsets: seq<int>, raw: seq<byte>, count: nat) returns (r: seq<int>)
    requires |raw| == 8 * count
    ensures r == offsets + Offsets(raw)
  {
    r := offsets;
    for i := 0 to count
      invariant r == offsets + Offsets(raw[..8 * i])
    {
      OffsetsStep(raw, i);
      var off := FromLE(raw[i * 8..(i + 1) * 8]);
      if off != 0 {
        r := r + [AsInt64(off)];
      }
    }
    assert raw[..8 * count] == raw;
  }

  lemma OffsetsStep(raw: seq<byte>, i: nat)
    requires 8 * (i + 1) <= |raw|
    ensures Offsets(raw[..8 * (i + 1)]) == Offsets(raw[..8 * i]) + Slot(raw[8 * i..8 * (i + 1)])
  {
    var s := raw[..8 * (i + 1)];
    assert s[..|s| - 8] == raw[..8 * i] && s[|s| - 8..] == raw[8 * i..8 * (i + 1)];
  }

  /** raw is what the disk has at `at`, unless the disk ends before it. */
  ghost predicate RawRead(disk: seq<byte>, at: nat, raw: seq<byte>, err: Option<ReadError>) {
    if err.None? then At(disk, at, raw) else err == Some(EOF) && at + |raw| > |disk|
  }

  /** The bytes after a GUID found in the sector: from the buffer when they fit, else read again from the disk. */
  method RawOffsets(disk: seq<byte>, sec: array<byte>, base: nat, idx: nat, infoCount: nat, eowCount: nat)
      returns (raw: seq<byte>, err: Option<ReadError>)
    requires 0 < infoCount && idx + 16 <= sec.Length && sec[..] == DiskBytes(disk, base, sec.Length)
    ensures |raw| == 8 * (infoCount + eowCount) && RawRead(disk, base + idx + 16, raw, err)
  {
    var count := infoCount + eowCount;
    var need := idx + 16 + count * 8;
    if need <= sec.Length {
      raw, err := sec[..][idx + 16..need], None;
      InBuffer(disk, base, sec[..], idx + 16, need);
    } else {
      raw, err := ReadBytes(disk, base + idx + 16, count * 8);
    }
  }

  method ReadBytes(disk: seq<byte>, off: nat, n: nat) returns (raw: seq<byte>, err: Option<ReadError>)
    requires n > 0
    ensures |raw| == n
    ensures RawRead(disk, off, raw, err)
  {
    var buf := new byte[n];
    AllDiskBytes(disk, off, n);
    var m;
    m, err := DiskReadAt(disk, buf, 0, n, off);
    raw := buf[..];
    assert err.None? ==> raw == buf[0..m];
  }

  lemma InBuffer(disk: seq<byte>, base: nat, sec: seq<byte>, i: nat, k: nat)
    requires sec == DiskBytes(disk, base, |sec|) && i < k <= |sec|
    ensures At(disk, base + i, sec[i..k]) && base + k <= |disk|
  {
    AllDiskBytes(disk, base, |sec|);
    SliceOfSlice(disk, base, base + |sec|, i, k);
  }

  ghost predicate Locates(locate: Locate, disk: seq<byte>, g: Markers, ss: nat) {
    forall sector: nat {:trigger SectorAt(disk, g, ss, sector)} :: locate(sector) == SectorAt(disk, g, ss, sector)
  }

  /** What a sector turns out to hold, from what one round of a scan has read. */
  lemma LocatedBy(locate: Locate, disk: seq<byte>, g: Markers, sec: seq<byte>, sector: nat, base: nat,
                  idx: int, e: nat, raw: seq<byte>, err: Option<ReadError>)
    requires Locates(locate, disk, g, |sec|) && base == sector * |sec| && sec == DiskBytes(disk, base, |sec|)
    requires if Index(sec, g.eow) >= 0 then idx == Index(sec, g.eow) && e == 2 else idx == Index(sec, g.info) && e == 0
    requires idx >= 0 ==> |raw| == 8 * (3 + e) && RawRead(disk, base + idx + 16, raw, err)
    ensures locate(sector) == if idx < 0 then Ok(NOTHING)
                              else if err.None? then Ok(Found(Offsets(raw[..24]), Offsets(raw[24..]))) else Err(EOF)
  {
    var found := SectorAt(disk, g, |sec|, sector);
    SectorIs(disk, g, sec, base, idx, e, raw, err);
  }

  lemma SectorIs(disk: seq<byte>, g: Markers, sec: seq<byte>, base: nat, idx: int, e: nat,
                 raw: seq<byte>, err: Option<ReadError>)
    requires sec == DiskBytes(disk, base, |sec|)
    requires if Index(sec, g.eow) >= 0 then idx == Index(sec, g.eow) && e == 2 else idx == Index(sec, g.info) && e == 0
    requires idx >= 0 ==> |raw| == 8 * (3 + e) && RawRead(disk, base + idx + 16, raw, err)
    ensures SectorLocator(disk, g, base, |sec|) ==
            if idx < 0 then Ok(NO_SLOTS) else if err.None? then Ok(Slots(raw[..24], raw[24..])) else Err(EOF)
  {
    if idx >= 0 {
      ChosenIs(disk, base, Index(sec, g.eow), Index(sec, g.info), idx, e);
      SlotsAre(disk, base + idx, 3, e, raw, err);
    }
  }

  lemma NotLocated(locate: Locate, disk: seq<byte>, g: Markers, ss: nat, sector: nat)
    requires Locates(locate, disk, g, ss) && |DiskBytes(disk, sector * ss, ss)| < ss
    ensures locate(sector) == Err(EOF)
  {
    var found := SectorAt(disk, g, ss, sector);
  }

  /** One round of the detection code's scan; it keeps only the information offsets. */
  method ProbeSector(disk: seq<byte>, g: Markers, sec: array<byte>, sector: nat, infoOffsets: seq<int>,
                     ghost locate: Locate)
      returns (r: Result<seq<int>, ReadError>)
    requires Locates(locate, disk, g, sec.Length)
    modifies sec
    ensures r == if locate(sector).Err? then Err(locate(sector).error) else Ok(infoOffsets + locate(sector).value.info)
  {
    var base: nat := sector * sec.Length;
    var m, err := DiskReadAt(disk, sec, 0, sec.Length, base);
    if err.Some? {
      NotLocated(locate, disk, g, sec.Length, sector);
      return Err(err.value);
    }
    assert sec[..] == sec[0..m];
    var idx, eowCount := Index(sec[..], g.eow), 2;
    if idx < 0 {
      idx, eowCount := Index(sec[..], g.info), 0;
    }
    if idx < 0 {
      LocatedBy(locate, disk, g, sec[..], sector, base, idx, eowCount, [], None);
      assert infoOffsets + [] == infoOffsets;
      return Ok(infoOffsets);
    }
    var raw, readErr := RawOffsets(disk, sec, base, idx, 3, eowCount);
    LocatedBy(locate, disk, g, sec[..], sector, base, idx, eowCount, raw, readErr);
    if readErr.Some? {
      return Err(readErr.value);
    }
    var offsets := AppendOffsets(infoOffsets, raw[..24], 3);
    return Ok(offsets);
  }

  method ProbeSectors(disk: seq<byte>, g: Markers, sectorSize: nat, maxSectors: int, ghost locate: Locate)
      returns (r: Result<seq<int>, ReadError>)
    requires Locates(locate, disk, g, sectorSize)
    ensures var found := Combine(locate, Sectors(maxSectors));
            r == if found.Err? then Err(found.error) else Ok(found.value.info)
  {
    var infoOffsets: seq<int> := [];
    var sec := new byte[sectorSize];
    var sector := 0;
    while sector < maxSectors
      invariant 0 <= sector <= Sectors(maxSectors)
      invariant Combine(locate, sector).Ok? && Combine(locate, sector).value.info == infoOffsets
    {
      CombineStops(locate, sector + 1, maxSectors);
      var found := ProbeSector(disk, g, sec, sector, infoOffsets, locate);
      if found.Err? {
        return Err(found.error);
      }
      infoOffsets := found.value;
      sector := sector + 1;
    }
    return Ok(infoOffsets);
  }

  /** The scan of the detection code. */
  method ProbeInformationOffsets(disk: seq<byte>, g: Markers, sectorSize: nat, maxSectors: int)
      returns (r: Result<seq<int>, ReadError>)
    ensures var found := Scan(disk, g, sectorSize, if maxSectors < 0 then 0 else maxSectors);
            r == if found.Err? then Err(found.error) else Ok(found.value.info)
  {
    r := ProbeSectors(disk, g, sectorSize, maxSectors, Locators(disk, g, sectorSize));
  }

  /** One round of the opening code's scan, which keeps the encrypt-on-write offsets as well. */
  method TrySector(disk: seq<byte>, g: Markers, sec: array<byte>, sector: nat, found: Found, ghost locate: Locate)
      returns (r: Result<Found, ReadError>)
    requires Locates(locate, disk, g, sec.Length)
    modifies sec
    ensures r == if locate(sector).Err? then locate(sector) else Ok(found.Then(locate(sector).value))
  {
    var offset: nat := sector * sec.Length;
    var m, err := DiskReadAt(disk, sec, 0, sec.Length, offset);
    if err.Some? {
      NotLocated(locate, disk, g, sec.Length, sector);
      return Err(err.value);
    }
    assert sec[..] == sec[0..m];
    var idx, eowCount := Index(sec[..], g.eow), 2;
    if idx < 0 {
      idx, eowCount := Index(sec[..], g.info), 0;
    }
    if idx < 0 {
      LocatedBy(locate, disk, g, sec[..], sector, offset, idx, eowCount, [], None);
      ThenNothing(found);
      return Ok(found);
    }
    var raw, readErr := RawOffsets(disk, sec, offset, idx, 3, eowCount);
    LocatedBy(locate, disk, g, sec[..], sector, offset, idx, eowCount, raw, readErr);
    if readErr.Some? {
      return Err(readErr.value);
    }
    var info := AppendOffsets(found.info, raw[..24], 3);
    var eow := AppendOffsets(found.eow, raw[24..], eowCount);
    return Ok(Found(info, eow));
  }

  method TrySectors(disk: seq<byte>, g: Markers, sectorSize: nat, maxSectors: int, ghost locate: Locate)
      returns (r: Result<Found, ReadError>)
    requires Locates(locate, disk, g, sectorSize)
    ensures r == Combine(locate, Sectors(maxSectors))
  {
    var found := NOTHING;
    var sec := new byte[sectorSize];
    var sector := 0;
    while sector < maxSectors
      invariant 0 <= sector <= Sectors(maxSectors)
      invariant Combine(locate, sector) == Ok(found)
    {
      CombineStops(locate, sector + 1, maxSectors);
      var next := TrySector(disk, g, sec, sector, found, locate);
      if next.Err? {
        return next;
      }
      found := next.value;
      sector := sector + 1;
    }
    return Ok(found);
  }

  /** The scan of the opening code. */
  method TryScan(disk: seq<byte>, g: Markers, sectorSize: nat, maxSectors: int) returns (r: Result<Found, ReadError>)
    ensures r == Scan(disk, g, sectorSize, if maxSectors < 0 then 0 else maxSectors)
  {
    r := TrySectors(disk, g, sectorSize, maxSectors, Locators(disk, g, sectorSize));
  }

  /** The two scanners either both fail or find the same information offsets in the same order. */
  method ScannersAgree(disk: seq<byte>, g: Markers, sectorSize: nat, maxSectors: int)
      returns (probed: Result<seq<int>, ReadError>, scanned: Result<Found, ReadError>)
    ensures probed.Err? <==> scanned.Err?
    ensures probed.Ok? ==> probed.value == scanned.value.info
  {
    probed := ProbeInformationOffsets(disk, g, sectorSize, maxSectors);
    scanned := TryScan(disk, g, sectorSize, maxSectors);
  }

  /** A failed scan fails however many more sectors it was to cover. */
  lemma {:induction false} CombineStops(locate: Locate, n: nat, more: nat)
    requires n <= more
    ensures Combine(locate, n).Err? ==> Combine(locate, more) == Combine(locate, n)
    decreases more
  {
    if n < more {
      CombineStops(locate, n, more - 1);
    }
  }

  // ---------- what a scan finds ----------

  /** Sixty-four-bit numbers one after another. */
  function Numbers(ns: seq<U64>): (s: seq<byte>)
    ensures |s| == 8 * |ns|
  {
    if ns == [] then [] else Numbers(ns[..|ns| - 1]) + LE(ns[|ns| - 1], 8)
  }

  function NonZero(ns: seq<U64>): seq<int> {
    if ns == [] then []
    else NonZero(ns[..|ns| - 1]) + if ns[|ns| - 1] != 0 then [AsInt64(ns[|ns| - 1])] else []
  }

  lemma {:induction false} OffsetsOfNumbers(ns: seq<U64>)
    ensures Offsets(Numbers(ns)) == NonZero(ns)
    decreases |ns|
  {
    if ns != [] {
      var (front, last) := (ns[..|ns| - 1], ns[|ns| - 1]);
      OffsetsOfNumbers(front);
      Pow256Values();
      FromLEOfLE(last, 8);
      var (a, b) := (Numbers(front), LE(last, 8));
      assert (a + b)[..|a|] == a && (a + b)[|a|..] == b;
    }
  }

  lemma DecodeNumbers(info: seq<U64>, eow: seq<U64>)
    ensures Decode(Ok(Slots(Numbers(info), Numbers(eow)))) == Ok(Found(NonZero(info), NonZero(eow)))
  {
    OffsetsOfNumbers(info);
    OffsetsOfNumbers(eow);
  }

  lemma SlotsOf(disk: seq<byte>, at: nat, i: nat, e: nat, a: seq<byte>, b: seq<byte>)
    requires |a| == 8 * i && |b| == 8 * e && At(disk, at + 16, a + b)
    ensures SlotsAt(disk, at, i, e) == Ok(Slots(a, b))
  {
    SlotsAre(disk, at, i, e, a + b, None);
    assert (a + b)[..|a|] == a && (a + b)[|a|..] == b;
  }

  /** A locator written anywhere on the disk is read back, without its zero offsets. */
  lemma LocatorRoundTrip(disk: seq<byte>, at: nat, info: seq<U64>, eow: seq<U64>)
    requires At(disk, at + 16, Numbers(info) + Numbers(eow))
    ensures Decode(SlotsAt(disk, at, |info|, |eow|)) == Ok(Found(NonZero(info), NonZero(eow)))
  {
    SlotsOf(disk, at, |info|, |eow|, Numbers(info), Numbers(eow));
    DecodeNumbers(info, eow);
  }

  /** The first occurrence of a GUID in a sector. */
  ghost predicate FirstAt(sec: seq<byte>, guid: Block, idx: nat) {
    idx + 16 <= |sec| && At(sec, idx, guid) && NotBefore(sec, guid, idx)
  }

  lemma FirstInSector(disk: seq<byte>, base: nat, sec: seq<byte>, guid: Block, body: seq<byte>, idx: nat)
    requires base + |sec| <= |disk| && sec == disk[base..base + |sec|]
    requires idx + 16 <= |sec| && NotBefore(sec, guid, idx) && At(disk, base + idx, guid + body)
    ensures FirstAt(sec, guid, idx) && At(disk, base + idx + 16, body)
  {
    AtParts(disk, base + idx, guid, body);
    SliceOfSlice(disk, base, base + |sec|, idx, idx + 16);
  }

  /** Which of the two GUIDs a sector is read by. */
  ghost predicate Announced(sec: seq<byte>, g: Markers, idx: nat, e: nat) {
    if e == 0 then NotBefore(sec, g.eow, |sec|) && FirstAt(sec, g.info, idx) else e == 2 && FirstAt(sec, g.eow, idx)
  }

  lemma LocatorInIs(disk: seq<byte>, g: Markers, base: nat, sec: seq<byte>, idx: nat, e: nat)
    requires Announced(sec, g, idx, e)
    ensures LocatorIn(disk, g, base, sec) == SlotsAt(disk, base + idx, 3, e)
  {
    if e == 0 {
      IndexIs(sec, g.info, idx);
      assert Index(sec, g.eow) < 0;
    } else {
      IndexIs(sec, g.eow, idx);
    }
    ChosenIs(disk, base, Index(sec, g.eow), Index(sec, g.info), idx, e);
  }

  lemma AnnouncedLocator(disk: seq<byte>, g: Markers, base: nat, ss: nat, idx: nat, e: nat, body: seq<byte>)
    requires base + ss <= |disk| && idx + 16 <= ss && e in {0, 2} && At(disk, base + idx, g.For(e) + body)
    requires NotBefore(disk[base..base + ss], g.For(e), idx)
    requires e == 0 ==> NotBefore(disk[base..base + ss], g.eow, ss)
    ensures SectorLocator(disk, g, base, ss) == SlotsAt(disk, base + idx, 3, e) && At(disk, base + idx + 16, body)
  {
    var sec := disk[base..base + ss];
    FirstInSector(disk, base, sec, g.For(e), body, idx);
    LocatorInIs(disk, g, base, sec, idx, e);
    WholeSector(disk, g, base, ss, sec);
  }

  /** The first locator of a sector is found wherever in the sector it starts, even if its offsets run past the end. */
  lemma SectorRoundTrip(disk: seq<byte>, g: Markers, base: nat, ss: nat, idx: nat, info: seq<U64>, eow: seq<U64>)
    requires |info| == 3 && |eow| in {0, 2} && base + ss <= |disk| && idx + 16 <= ss
    requires At(disk, base + idx, g.For(|eow|) + (Numbers(info) + Numbers(eow)))
    requires NotBefore(disk[base..base + ss], g.For(|eow|), idx)
    requires eow == [] ==> NotBefore(disk[base..base + ss], g.eow, ss)
    ensures Decode(SectorLocator(disk, g, base, ss)) == Ok(Found(NonZero(info), NonZero(eow)))
  {
    AnnouncedLocator(disk, g, base, ss, idx, |eow|, Numbers(info) + Numbers(eow));
    LocatorRoundTrip(disk, base + idx, info, eow);
  }

  /** When one sector holds something, exactly that is found. */
  lemma {:induction false} CombineOne(locate: Locate, n: nat, k: nat)
    requires k < n && locate(k).Ok? && forall i: nat :: i < n && i != k ==> locate(i) == Ok(NOTHING)
    ensures Combine(locate, n) == locate(k)
    decreases n
  {
    ThenNothing(locate(k).value);
    if k < n - 1 {
      CombineOne(locate, n - 1, k);
    } else {
      CombineNothing(locate, k);
    }
  }

  lemma {:induction false} CombineNothing(locate: Locate, n: nat)
    requires forall i: nat :: i < n ==> locate(i) == Ok(NOTHING)
    ensures Combine(locate, n) == Ok(NOTHING)
    decreases n
  {
    if n > 0 {
      CombineNothing(locate, n - 1);
      ThenNothing(NOTHING);
    }
  }

  /** A scan fails exactly when one of its sectors does. */
  lemma {:induction false} CombineFails(locate: Locate, n: nat)
    ensures Combine(locate, n).Err? <==> exists i: nat :: i < n && locate(i).Err?
    decreases n
  {
    if n > 0 {
      CombineFails(locate, n - 1);
      if locate(n - 1).Err? {
        var i: nat := n - 1;
        assert locate(i).Err?;
      }
    }
  }

  /** A scan of n sectors, only the k-th of which holds a locator, finds the offsets written there. */
  lemma ScanRoundTrip(disk: seq<byte>, g: Markers, ss: nat, n: nat, k: nat, base: nat, idx: nat,
                      info: seq<U64>, eow: seq<U64>)
    requires |info| == 3 && |eow| in {0, 2} && k < n && base == k * ss && base + ss <= |disk| && idx + 16 <= ss
    requires At(disk, base + idx, g.For(|eow|) + (Numbers(info) + Numbers(eow)))
    requires NotBefore(disk[base..base + ss], g.For(|eow|), idx)
    requires eow == [] ==> NotBefore(disk[base..base + ss], g.eow, ss)
    requires forall i: nat :: i < n && i != k ==> SectorAt(disk, g, ss, i) == Ok(NOTHING)
    ensures Scan(disk, g, ss, n) == Ok(Found(NonZero(info), NonZero(eow)))
  {
    SectorRoundTrip(disk, g, base, ss, idx, info, eow);
    CombineOne(Locators(disk, g, ss), n, k);
  }

  /** The groups of a GUID as bytes: three little-endian numbers and two big-endian ones. */
  ghost predicate IsGuid(b: Block, g1: nat, g2: nat, g3: nat, g4: nat, g5: nat) {
    FromLE(b[0..4]) == g1 && FromLE(b[4..6]) == g2 && FromLE(b[6..8]) == g3 &&
    FromBE(b[8..10]) == g4 && FromBE(b[10..16]) == g5
  }

  lemma TwoLittle(s: seq<byte>)
    requires |s| == 2
    ensures FromLE(s) == s[0] as int + 256 * (s[1] as int)
  {
    assert FromLE(s[1..]) == s[1] as int + 256 * FromLE(s[1..][1..]);
  }

  lemma FourLittle(s: seq<byte>)
    requires |s| == 4
    ensures FromLE(s) == s[0] as int + 256 * (s[1] as int + 256 * (s[2] as int + 256 * (s[3] as int)))
  {
    TwoLittle(s[2..]);
    assert s[1..][1..] == s[2..];
    assert FromLE(s[1..]) == s[1] as int + 256 * FromLE(s[2..]);
  }

  lemma TwoBig(s: seq<byte>)
    requires |s| == 2
    ensures FromBE(s) == 256 * (s[0] as int) + s[1] as int
  {
    assert FromBE(s[..1]) == 256 * FromBE(s[..1][..0]) + s[0] as int;
  }

  lemma SixBig(s: seq<byte>)
    requires |s| == 6
    ensures FromBE(s) == 256 * (256 * (256 * (256 * (256 * (s[0] as int) + s[1] as int) + s[2] as int) + s[3] as int)
                                + s[4] as int) + s[5] as int
  {
    TwoBig(s[..2]);
    assert s[..3][..2] == s[..2] && s[..4][..3] == s[..3] && s[..5][..4] == s[..4];
    assert FromBE(s[..3]) == 256 * FromBE(s[..2]) + s[2] as int;
    assert FromBE(s[..4]) == 256 * FromBE(s[..3]) + s[3] as int;
    assert FromBE(s[..5]) == 256 * FromBE(s[..4]) + s[4] as int;
  }

  lemma GuidGroups(b: Block, g1: nat, g2: nat, g3: nat, g4: nat, g5: nat)
    requires g1 == b[0] as int + 256 * (b[1] as int + 256 * (b[2] as int + 256 * (b[3] as int)))
    requires g2 == b[4] as int + 256 * (b[5] as int) && g3 == b[6] as int + 256 * (b[7] as int)
    requires g4 == 256 * (b[8] as int) + b[9] as int
    requires g5 == 256 * (256 * (256 * (256 * (256 * (b[10] as int) + b[11] as int) + b[12] as int) + b[13] as int)
                          + b[14] as int) + b[15] as int
    ensures IsGuid(b, g1, g2, g3, g4, g5)
  {
    FourLittle(b[0..4]);
    TwoLittle(b[4..6]);
    TwoLittle(b[6..8]);
    TwoBig(b[8..10]);
    SixBig(b[10..16]);
  }

  /** The markers are 4967D63B-2E29-4AD8-8399-F6A339E3D001 and 92A84D3B-DD80-4D0E-9E4E-B1E3284EAED8. */
  lemma MarkersAreGuids()
    ensures IsGuid(BITLOCKER_MARKERS.info, 0x4967D63B, 0x2E29, 0x4AD8, 0x8399, 0xF6A339E3D001)
    ensures IsGuid(BITLOCKER_MARKERS.eow, 0x92A84D3B, 0xDD80, 0x4D0E, 0x9E4E, 0xB1E3284EAED8)
  {
    GuidGroups(BITLOCKER_MARKERS.info, 0x4967D63B, 0x2E29, 0x4AD8, 0x8399, 0xF6A339E3D001);
    GuidGroups(BITLOCKER_MARKERS.eow, 0x92A84D3B, 0xDD80, 0x4D0E, 0x9E4E, 0xB1E3284EAED8);
  }

  /** What can happen to a sector: it is not there, it holds no GUID, or it holds one whose offsets are there or not. */
  lemma SectorCases(disk: seq<byte>, g: Markers, base: nat, ss: nat, idx: nat, e: nat)
    requires ss > 0
    ensures base + ss > |disk| ==> SectorLocator(disk, g, base, ss) == Err(EOF)
    ensures base + ss <= |disk| ==>
              var sec := disk[base..base + ss];
              (NotBefore(sec, g.eow, ss) && NotBefore(sec, g.info, ss) ==>
                 SectorLocator(disk, g, base, ss) == Ok(NO_SLOTS)) &&
              (Announced(sec, g, idx, e) ==>
                 (SectorLocator(disk, g, base, ss).Err? <==> base + idx + 16 + 8 * (3 + e) > |disk|))
  {
    AllDiskBytes(disk, base, ss);
    if base + ss <= |disk| {
      var sec := disk[base..base + ss];
      WholeSector(disk, g, base, ss, sec);
      if Announced(sec, g, idx, e) {
        LocatorInIs(disk, g, base, sec, idx, e);
      }
    }
  }

  /** The offsets of the sectors from i on, first sector first. */
  function InOrder(locate: Locate, i: nat, n: nat): (seq<int>, seq<int>)
    requires i <= n && forall k: nat :: k < n ==> locate(k).Ok?
    decreases n - i
  {
    if i == n then ([], [])
    else
      var rest := InOrder(locate, i + 1, n);
      (locate(i).value.info + rest.0, locate(i).value.eow + rest.1)
  }

  lemma {:induction false} InOrderAppend(locate: Locate, i: nat, n: nat)
    requires i <= n && forall k: nat :: k < n + 1 ==> locate(k).Ok?
    ensures InOrder(locate, i, n + 1).0 == InOrder(locate, i, n).0 + locate(n).value.info
    ensures InOrder(locate, i, n + 1).1 == InOrder(locate, i, n).1 + locate(n).value.eow
    decreases n - i
  {
    if i == n {
      assert InOrder(locate, n + 1, n + 1) == ([], []);
    } else {
      InOrderAppend(locate, i + 1, n);
      var (f, r, l) := (locate(i).value, InOrder(locate, i + 1, n), locate(n).value);
      Reassociate(f.info, r.0, l.info);
      Reassociate(f.eow, r.1, l.eow);
    }
  }

  /** What a scan finds comes in the order of the sectors, and within a sector in the order of the slots. */
  lemma {:induction false} CombineInOrder(locate: Locate, n: nat)
    requires forall k: nat :: k < n ==> locate(k).Ok?
    ensures Combine(locate, n) == Ok(Found(InOrder(locate, 0, n).0, InOrder(locate, 0, n).1))
    decreases n
  {
    if n > 0 {
      CombineInOrder(locate, n - 1);
      InOrderAppend(locate, 0, n - 1);
    }
  }
}
