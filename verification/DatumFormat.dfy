/** The datum tree of a metadata block: its values and how they are laid out in bytes. */
module DatumFormat {
  import opened Bytes

  const KEY: U16 := 0x0001
  const STRETCH_KEY: U16 := 0x0003
  const USE_KEY: U16 := 0x0004
  const AES_CCM_ENCRYPTED_KEY: U16 := 0x0005
  const VOLUME_MASTER_KEY_INFO: U16 := 0x0008
  const EXTERNAL_INFO: U16 := 0x0009
  const VIRTUALIZATION_INFO: U16 := 0x000F

  /** A field of a fixed-size record: a little-endian number of some width, or bytes as they are. */
  datatype Field = Number(width: nat, value: nat) | Raw(bytes: seq<byte>)

  datatype Kind = Num(width: nat) | Fixed(width: nat)

  datatype Header = Header(size: U16, role: U16, typ: U16, flags: U16)

  datatype Datum = Datum(header: Header, structure: seq<Field>, data: seq<byte>, properties: seq<Datum>)

  /** The record that follows the header of a datum of each type. */
  function Layout(typ: U16): seq<Kind> {
    if typ == KEY || typ == USE_KEY then [Num(2), Num(2)] // key type, flags
    else if typ == STRETCH_KEY then [Num(2), Num(2), Fixed(16)] // key type, flags, salt
    else if typ == AES_CCM_ENCRYPTED_KEY then [Num(8), Num(4), Fixed(16)] // date, counter, authentication tag
    else if typ == VOLUME_MASTER_KEY_INFO then [Fixed(16), Num(8), Num(2), Num(2)] // id, date, unknown, protector
    else if typ == EXTERNAL_INFO then [Fixed(16), Num(8)] // identifier, date
    else if typ == VIRTUALIZATION_INFO then [Num(8), Num(8)] // block offset, block size
    else []
  }

  function Width(ks: seq<Kind>): nat {
    if ks == [] then 0 else ks[0].width + Width(ks[1..])
  }

  function StructSize(typ: U16): nat {
    Width(Layout(typ))
  }

  /** The types followed by nested datums. */
  predicate HasProperties(typ: U16) {
    typ == STRETCH_KEY || typ == USE_KEY || typ == VOLUME_MASTER_KEY_INFO || typ == EXTERNAL_INFO
  }

  /** The types followed by payload bytes. */
  predicate HasPayload(typ: U16) {
    !HasProperties(typ) && typ != VIRTUALIZATION_INFO
  }

  // ---------- numbers ----------

  function Num16(s: seq<byte>): U16
    requires |s| == 2
  {
    FromLEBound(s);
    Pow256Values();
    FromLE(s)
  }

  lemma NumOfLE(n: nat, len: nat)
    requires len in {2, 4, 8} && n < Pow256(len)
    ensures FromLE(LE(n, len)) == n
  {
    FromLEOfLE(n, len);
  }

  // ---------- reading and printing the fixed parts ----------

  function ParseHeader(s: seq<byte>): Header
    requires |s| == 8
  {
    Header(Num16(s[0..2]), Num16(s[2..4]), Num16(s[4..6]), Num16(s[6..8]))
  }

  function PrintHeader(h: Header): (s: seq<byte>)
    ensures |s| == 8
  {
    LE(h.size, 2) + LE(h.role, 2) + LE(h.typ, 2) + LE(h.flags, 2)
  }

  function ParseField(k: Kind, s: seq<byte>): Field {
    if k.Num? then Number(k.width, FromLE(s)) else Raw(s)
  }

  function PrintField(f: Field): seq<byte> {
    match f
    case Number(width, value) => LE(value, width)
    case Raw(bytes) => bytes
  }

  function ParseFields(ks: seq<Kind>, s: seq<byte>): seq<Field>
    requires |s| == Width(ks)
  {
    if ks == [] then []
    else [ParseField(ks[0], s[..ks[0].width])] + ParseFields(ks[1..], s[ks[0].width..])
  }

  function PrintFields(fs: seq<Field>): seq<byte> {
    if fs == [] then [] else PrintField(fs[0]) + PrintFields(fs[1..])
  }

  ghost predicate FieldMatches(f: Field, k: Kind) {
    match f
    case Number(width, value) => k == Num(width) && value < Pow256(width)
    case Raw(bytes) => k == Fixed(|bytes|)
  }

  /** The fields a record of these kinds calls for, each of its own width. */
  ghost predicate Matches(fs: seq<Field>, ks: seq<Kind>) {
    if fs == [] || ks == [] then fs == [] && ks == []
    else FieldMatches(fs[0], ks[0]) && Matches(fs[1..], ks[1..])
  }

  lemma HeaderRoundTrip(h: Header)
    ensures ParseHeader(PrintHeader(h)) == h
  {
    var s := PrintHeader(h);
    Pow256Values();
    NumOfLE(h.size, 2);
    NumOfLE(h.role, 2);
    NumOfLE(h.typ, 2);
    NumOfLE(h.flags, 2);
    Parts(LE(h.size, 2), LE(h.role, 2), LE(h.typ, 2), LE(h.flags, 2), s);
  }

  lemma HeaderRoundTripBack(s: seq<byte>)
    requires |s| == 8
    ensures PrintHeader(ParseHeader(s)) == s
  {
    LEOfFromLE(s[0..2]);
    LEOfFromLE(s[2..4]);
    LEOfFromLE(s[4..6]);
    LEOfFromLE(s[6..8]);
    assert s == s[0..2] + s[2..4] + s[4..6] + s[6..8];
  }

  lemma Parts(a: seq<byte>, b: seq<byte>, c: seq<byte>, d: seq<byte>, s: seq<byte>)
    requires s == a + b + c + d
    ensures var (i, j, k) := (|a|, |a| + |b|, |a| + |b| + |c|);
            |s| == k + |d| && s[0..i] == a && s[i..j] == b && s[j..k] == c && s[k..k + |d|] == d
  {
  }

  lemma FieldRoundTrip(f: Field, k: Kind)
    requires FieldMatches(f, k)
    ensures |PrintField(f)| == k.width && ParseField(k, PrintField(f)) == f
  {
    if f.Number? {
      FromLEOfLE(f.value, f.width);
    }
  }

  /** A record is read back as it was printed. */
  lemma {:induction false} FieldsRoundTrip(fs: seq<Field>, ks: seq<Kind>)
    requires Matches(fs, ks)
    ensures |PrintFields(fs)| == Width(ks) && ParseFields(ks, PrintFields(fs)) == fs
  {
    if fs != [] {
      FieldRoundTrip(fs[0], ks[0]);
      FieldsRoundTrip(fs[1..], ks[1..]);
      var (a, b) := (PrintField(fs[0]), PrintFields(fs[1..]));
      assert (a + b)[..|a|] == a && (a + b)[|a|..] == b;
    }
  }

  lemma FieldRoundTripBack(k: Kind, s: seq<byte>)
    requires |s| == k.width
    ensures FieldMatches(ParseField(k, s), k) && PrintField(ParseField(k, s)) == s
  {
    LEOfFromLE(s);
    FromLEBound(s);
  }

  lemma PrintFieldsCons(f: Field, k: Kind, fs: seq<Field>, ks: seq<Kind>)
    ensures PrintFields([f] + fs) == PrintField(f) + PrintFields(fs)
    ensures FieldMatches(f, k) && Matches(fs, ks) ==> Matches([f] + fs, [k] + ks)
  {
    assert ([f] + fs)[1..] == fs && ([k] + ks)[1..] == ks;
  }

  /** A record that was read prints as the bytes it was read from. */
  lemma {:induction false} FieldsRoundTripBack(ks: seq<Kind>, s: seq<byte>)
    requires |s| == Width(ks)
    ensures Matches(ParseFields(ks, s), ks) && PrintFields(ParseFields(ks, s)) == s
    decreases |ks|
  {
    if ks != [] {
      var (k, rest, a, b) := (ks[0], ks[1..], s[..ks[0].width], s[ks[0].width..]);
      FieldRoundTripBack(k, a);
      FieldsRoundTripBack(rest, b);
      PrintFieldsCons(ParseField(k, a), k, ParseFields(rest, b), rest);
      assert s == a + b && ks == [k] + rest;
    }
  }

  // ---------- whole datums ----------

  function Print(d: Datum): (s: seq<byte>)
    ensures |s| >= 8
  {
    PrintHeader(d.header) + PrintFields(d.structure) + d.data + PrintAll(d.properties)
  }

  function PrintAll(ds: seq<Datum>): seq<byte> {
    if ds == [] then [] else Print(ds[0]) + PrintAll(ds[1..])
  }

  /** Every size field is the encoded length, and each datum carries only what its type has. */
  ghost predicate WellFormed(d: Datum) {
    d.header.size == |Print(d)| && Matches(d.structure, Layout(d.header.typ)) &&
    (!HasPayload(d.header.typ) ==> d.data == []) && (!HasProperties(d.header.typ) ==> d.properties == []) &&
    AllWellFormed(d.properties)
  }

  ghost predicate AllWellFormed(ds: seq<Datum>) {
    ds == [] || (WellFormed(ds[0]) && AllWellFormed(ds[1..]))
  }

  /** How many payload bytes a datum of this type has when its size leaves dataSize after the fixed parts. */
  function PayloadSize(typ: U16, dataSize: int): nat {
    if HasPayload(typ) && dataSize > 0 then dataSize else 0
  }

  /** What a datum must satisfy to be read back as printed: its size need only steer the parser through its parts.
    * A datum that is the last of the input may claim more nested datums than there are.
    */
  ghost predicate Readable(d: Datum, last: bool)
    decreases d, 1
  {
    Matches(d.structure, Layout(d.header.typ)) && BodyReadable(d, d.header.size - 8 - StructSize(d.header.typ), last)
  }

  ghost predicate BodyReadable(d: Datum, dataSize: int, last: bool)
    decreases d, 0
  {
    if HasProperties(d.header.typ) then d.data == [] && Fills(d.properties, dataSize, last)
    else d.properties == [] && |d.data| == PayloadSize(d.header.typ, dataSize)
  }

  /** There is room for a header before each datum and, short of the end of the input, none after the last. */
  ghost predicate Fills(ds: seq<Datum>, dataSize: int, last: bool)
    decreases ds, 2
  {
    if ds == [] then last || dataSize < 8
    else dataSize >= 8 && Readable(ds[0], last && |ds| == 1) && Fills(ds[1..], dataSize - ds[0].header.size, last)
  }

  /** What is read back whatever follows is read back at the end of the input too. */
  lemma {:induction false} ReadableLast(d: Datum, last: bool)
    requires Readable(d, false)
    ensures Readable(d, last)
    decreases d, 0
  {
    if HasProperties(d.header.typ) {
      FillsLast(d.properties, d.header.size - 8 - StructSize(d.header.typ), last);
    }
  }

  lemma {:induction false} FillsLast(ds: seq<Datum>, dataSize: int, last: bool)
    requires Fills(ds, dataSize, false)
    ensures Fills(ds, dataSize, last)
    decreases ds, 1
  {
    if ds != [] {
      ReadableLast(ds[0], last && |ds| == 1);
      FillsLast(ds[1..], dataSize - ds[0].header.size, last);
    }
  }

  lemma FillsCons(d: Datum, ds: seq<Datum>, dataSize: int, atEnd: bool, last: bool)
    requires dataSize >= 8 && Readable(d, atEnd) && Fills(ds, dataSize - d.header.size, last)
    requires atEnd ==> ds == [] && last
    ensures Fills([d] + ds, dataSize, last)
  {
    assert ([d] + ds)[1..] == ds;
    if !atEnd {
      ReadableLast(d, last && ds == []);
    }
  }

  lemma {:induction false} WellFormedIsReadable(d: Datum)
    requires WellFormed(d)
    ensures Readable(d, false)
    decreases d, 0
  {
    FieldsRoundTrip(d.structure, Layout(d.header.typ));
    AllWellFormedFills(d.properties, |PrintAll(d.properties)|);
  }

  lemma {:induction false} AllWellFormedFills(ds: seq<Datum>, n: nat)
    requires AllWellFormed(ds) && n == |PrintAll(ds)|
    ensures Fills(ds, n, false)
    decreases ds, 1
  {
    if ds != [] {
      WellFormedIsReadable(ds[0]);
      AllWellFormedFills(ds[1..], n - ds[0].header.size);
    }
  }

  /** The datums of a tree, and of a forest. */
  function Nodes(d: Datum): nat {
    1 + AllNodes(d.properties)
  }

  function AllNodes(ds: seq<Datum>): nat {
    if ds == [] then 0 else Nodes(ds[0]) + AllNodes(ds[1..])
  }
}
