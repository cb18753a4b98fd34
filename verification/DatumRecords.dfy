/** What a parsed datum consists of, byte by byte: the records of the format, by their type numbers. */
module DatumRecords {
  import opened Bytes
  import opened DatumFormat
  import opened Datums

  /** The size of the record after the header of a datum. */
  function RecordSize(typ: nat): nat {
    match typ
    case 1 => 4
    case 3 => 20
    case 4 => 4
    case 5 => 28
    case 8 => 28
    case 9 => 24
    case 15 => 16
    case _ => 0
  }

  /** The fields of a record: key type, flags and salt; date, counter and tag; identifiers, dates and numbers. */
  ghost predicate IsRecord(typ: nat, s: seq<byte>, fs: seq<Field>) {
    |s| == RecordSize(typ) &&
    match typ
    case 1 => fs == [Number(2, FromLE(s[0..2])), Number(2, FromLE(s[2..4]))]
    case 3 => fs == [Number(2, FromLE(s[0..2])), Number(2, FromLE(s[2..4])), Raw(s[4..20])]
    case 4 => fs == [Number(2, FromLE(s[0..2])), Number(2, FromLE(s[2..4]))]
    case 5 => fs == [Number(8, FromLE(s[0..8])), Number(4, FromLE(s[8..12])), Raw(s[12..28])]
    case 8 => fs == [Raw(s[0..16]), Number(8, FromLE(s[16..24])),
                     Number(2, FromLE(s[24..26])), Number(2, FromLE(s[26..28]))]
    case 9 => fs == [Raw(s[0..16]), Number(8, FromLE(s[16..24]))]
    case 15 => fs == [Number(8, FromLE(s[0..8])), Number(8, FromLE(s[8..16]))]
    case _ => fs == []
  }

  /** The first field of a record is its first bytes. */
  lemma FirstField(k: Kind, ks: seq<Kind>, a: seq<byte>, rest: seq<byte>)
    requires |a| == k.width && |rest| == Width(ks)
    ensures Width([k] + ks) == |a + rest|
    ensures ParseFields([k] + ks, a + rest) == [ParseField(k, a)] + ParseFields(ks, rest)
  {
    assert ([k] + ks)[1..] == ks;
    assert (a + rest)[..|a|] == a && (a + rest)[|a|..] == rest;
  }

  lemma OneField(k: Kind, a: seq<byte>)
    requires |a| == k.width
    ensures Width([k]) == |a| && ParseFields([k], a) == [ParseField(k, a)]
  {
    FirstField(k, [], a, []);
    assert a + [] == a && [k] + [] == [k];
  }

  lemma TwoFields(k: Kind, l: Kind, a: seq<byte>, b: seq<byte>)
    requires |a| == k.width && |b| == l.width
    ensures Width([k, l]) == |a + b| && ParseFields([k, l], a + b) == [ParseField(k, a), ParseField(l, b)]
  {
    OneField(l, b);
    FirstField(k, [l], a, b);
    assert [k] + [l] == [k, l];
  }

  lemma ThreeFields(k: Kind, l: Kind, m: Kind, a: seq<byte>, b: seq<byte>, c: seq<byte>)
    requires |a| == k.width && |b| == l.width && |c| == m.width
    ensures Width([k, l, m]) == |a + (b + c)|
    ensures ParseFields([k, l, m], a + (b + c)) == [ParseField(k, a), ParseField(l, b), ParseField(m, c)]
  {
    TwoFields(l, m, b, c);
    FirstField(k, [l, m], a, b + c);
    assert [k] + [l, m] == [k, l, m];
  }

  lemma FourFields(k: Kind, l: Kind, m: Kind, n: Kind, a: seq<byte>, b: seq<byte>, c: seq<byte>, d: seq<byte>)
    requires |a| == k.width && |b| == l.width && |c| == m.width && |d| == n.width
    ensures Width([k, l, m, n]) == |a + (b + (c + d))|
    ensures ParseFields([k, l, m, n], a + (b + (c + d)))
         == [ParseField(k, a), ParseField(l, b), ParseField(m, c), ParseField(n, d)]
  {
    ThreeFields(l, m, n, b, c, d);
    FirstField(k, [l, m, n], a, b + (c + d));
    assert [k] + [l, m, n] == [k, l, m, n];
  }

  lemma CutTwo(s: seq<byte>, i: nat)
    requires i <= |s|
    ensures s == s[0..i] + s[i..|s|]
  {
  }

  lemma CutThree(s: seq<byte>, i: nat, j: nat)
    requires i <= j <= |s|
    ensures s == s[0..i] + (s[i..j] + s[j..|s|])
  {
  }

  lemma CutFour(s: seq<byte>, i: nat, j: nat, k: nat)
    requires i <= j <= k <= |s|
    ensures s == s[0..i] + (s[i..j] + (s[j..k] + s[k..|s|]))
  {
  }

  lemma SizeOfRecord(typ: U16)
    ensures StructSize(typ) == RecordSize(typ)
  {
    if typ == 1 || typ == 4 {
      TwoFields(Num(2), Num(2), LE(0, 2), LE(0, 2));
    } else if typ == 3 {
      ThreeFields(Num(2), Num(2), Fixed(16), LE(0, 2), LE(0, 2), ZERO_BLOCK);
    } else if typ == 5 {
      ThreeFields(Num(8), Num(4), Fixed(16), LE(0, 8), LE(0, 4), ZERO_BLOCK);
    } else if typ == 8 {
      FourFields(Fixed(16), Num(8), Num(2), Num(2), ZERO_BLOCK, LE(0, 8), LE(0, 2), LE(0, 2));
    } else if typ == 9 {
      TwoFields(Fixed(16), Num(8), ZERO_BLOCK, LE(0, 8));
    } else if typ == 15 {
      TwoFields(Num(8), Num(8), LE(0, 8), LE(0, 8));
    }
  }

  /** The record the parser reads for each type number. */
  lemma ParsedRecord(typ: U16, s: seq<byte>)
    requires |s| == StructSize(typ)
    ensures IsRecord(typ, s, ParseFields(Layout(typ), s))
  {
    SizeOfRecord(typ);
    if typ == 1 || typ == 4 {
      CutTwo(s, 2);
      TwoFields(Num(2), Num(2), s[0..2], s[2..4]);
    } else if typ == 3 {
      CutThree(s, 2, 4);
      ThreeFields(Num(2), Num(2), Fixed(16), s[0..2], s[2..4], s[4..20]);
    } else if typ == 5 {
      CutThree(s, 8, 12);
      ThreeFields(Num(8), Num(4), Fixed(16), s[0..8], s[8..12], s[12..28]);
    } else if typ == 8 {
      CutFour(s, 16, 24, 26);
      FourFields(Fixed(16), Num(8), Num(2), Num(2), s[0..16], s[16..24], s[24..26], s[26..28]);
    } else if typ == 9 {
      CutTwo(s, 16);
      TwoFields(Fixed(16), Num(8), s[0..16], s[16..24]);
    } else if typ == 15 {
      CutTwo(s, 8);
      TwoFields(Num(8), Num(8), s[0..8], s[8..16]);
    }
  }

  /** The header at pos: size, role, type and flags, two little-endian bytes each. */
  ghost predicate IsHeader(data: seq<byte>, pos: nat, h: Header)
    requires pos + 8 <= |data|
  {
    h.size == FromLE(data[pos..pos + 2]) && h.role == FromLE(data[pos + 2..pos + 4]) &&
    h.typ == FromLE(data[pos + 4..pos + 6]) && h.flags == FromLE(data[pos + 6..pos + 8])
  }

  lemma ParsedHeader(data: seq<byte>, pos: nat)
    requires pos + 8 <= |data|
    ensures IsHeader(data, pos, ParseHeader(data[pos..pos + 8]))
  {
    SliceOfSlice(data, pos, pos + 8, 0, 2);
    SliceOfSlice(data, pos, pos + 8, 2, 4);
    SliceOfSlice(data, pos, pos + 8, 4, 6);
    SliceOfSlice(data, pos, pos + 8, 6, 8);
  }

  /** What follows the record, by type number: nested datums, nothing, or the rest of the size as payload. */
  lemma ParsedBody(data: seq<byte>, pos: nat, h: Header, fs: seq<Field>, dataSize: int)
    requires pos <= |data|
    ensures var r := ParseBody(data, pos, h, fs, dataSize);
            (r.result.Ok? <==> (h.typ !in {3, 4, 8, 9, 15} ==> pos + dataSize <= |data|)) &&
            (r.result.Ok? ==>
               var d := r.result.value;
               d.header == h && d.structure == fs &&
               (h.typ in {3, 4, 8, 9} ==>
                  d.data == [] && (d.properties, r.pos) == ParseProperties(data, pos, dataSize)) &&
               (h.typ == 15 ==> d.data == [] && d.properties == [] && r.pos == pos) &&
               (h.typ !in {3, 4, 8, 9, 15} ==>
                  d.properties == [] && d.data == data[pos..r.pos] &&
                  r.pos == if dataSize > 0 then pos + dataSize else pos))
  {
  }

  /** A datum needs its header, its record and, when it has a payload, all the bytes its size claims. */
  ghost predicate Complete(data: seq<byte>, pos: nat) {
    pos + 8 <= |data| &&
    var (size, typ) := (FromLE(data[pos..pos + 2]), FromLE(data[pos + 4..pos + 6]));
    pos + 8 + RecordSize(typ) <= |data| && (typ !in {3, 4, 8, 9, 15} ==> pos + size <= |data|)
  }

  /** What a datum is made of: its header, its record, and what its type number says follows. */
  ghost predicate IsDatum(data: seq<byte>, pos: nat, d: Datum, p: nat)
    requires Complete(data, pos)
  {
    var h := d.header;
    var b := pos + 8 + RecordSize(h.typ);
    IsHeader(data, pos, h) && b <= p <= |data| && IsRecord(h.typ, data[pos + 8..b], d.structure) &&
    if h.typ in {3, 4, 8, 9} then d.data == [] && (d.properties, p) == ParseProperties(data, b, pos + h.size - b)
    else d.properties == [] && d.data == data[b..p] && p == if h.typ != 15 && pos + h.size > b then pos + h.size else b
  }

  lemma RecordMissing(data: seq<byte>, pos: nat, head: seq<byte>)
    requires pos <= |data| && |head| == 8 && pos + StructSize(ParseHeader(head).typ) > |data|
    ensures ParseRecord(data, pos, head).result.Err?
  {
  }

  lemma RecordThere(data: seq<byte>, pos: nat, head: seq<byte>, h: Header, m: nat) returns (fs: seq<Field>)
    requires pos <= m <= |data| && |head| == 8 && h == ParseHeader(head) && m == pos + StructSize(h.typ)
    ensures fs == ParseFields(Layout(h.typ), data[pos..m])
    ensures ParseRecord(data, pos, head) == ParseBody(data, m, h, fs, h.size - 8 - (m - pos))
  {
    fs := ParseFields(Layout(h.typ), data[pos..m]);
  }

  /** Parsing succeeds exactly on complete datums, and then gives the datum whose bytes they are. */
  lemma ParsedDatum(data: seq<byte>, pos: nat)
    requires pos <= |data|
    ensures ParseDatum(data, pos).result.Ok? <==> Complete(data, pos)
    ensures Complete(data, pos) ==> IsDatum(data, pos, ParseDatum(data, pos).result.value, ParseDatum(data, pos).pos)
  {
    if pos + 8 <= |data| {
      var head := data[pos..pos + 8];
      var h := ParseHeader(head);
      var m := pos + 8 + RecordSize(h.typ);
      ParsedHeader(data, pos);
      SizeOfRecord(h.typ);
      if m > |data| {
        RecordMissing(data, pos + 8, head);
      } else {
        var fs := RecordThere(data, pos + 8, head, h, m);
        ParsedRecord(h.typ, data[pos + 8..m]);
        ParsedBody(data, m, h, fs, h.size - 8 - (m - (pos + 8)));
      }
    }
  }

  /** A block's datums go on while there is room for a header and the next one is complete and claims its header. */
  lemma ParsedData(data: seq<byte>, pos: nat, remaining: int)
    requires pos <= |data|
    ensures ParseData(data, pos, remaining) != [] <==>
            remaining >= 8 && Complete(data, pos) && FromLE(data[pos..pos + 2]) >= 8
  {
    ParsedDatum(data, pos);
  }
}
