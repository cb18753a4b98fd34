/** Parsing the datum tree of a metadata block from a shared reader. */
module Datums {
  import opened Bytes
  import opened DatumFormat

  datatype ReaderError = EOF | UnexpectedEOF

  // ---------- what the parser computes ----------

  /** The outcome of a read and where it leaves the reader. */
  datatype Parsed<+T> = Parsed(result: Result<T, ReaderError>, pos: nat)

  /** A full read of n bytes; what is left of too short an input is used up. */
  function TakeFull(data: seq<byte>, pos: nat, n: nat): (r: Parsed<seq<byte>>)
    requires pos <= |data|
    ensures pos <= r.pos <= |data|
    ensures r.result.Ok? <==> pos + n <= |data|
    ensures r.result.Ok? ==> r.pos == pos + n && r.result.value == data[pos..pos + n]
    ensures r.result.Err? ==> r.pos == |data|
    ensures r.result == Err(EOF) <==> pos == |data| && n > 0
  {
    if pos + n <= |data| then Parsed(Ok(data[pos..pos + n]), pos + n)
    else Parsed(Err(if pos == |data| then EOF else UnexpectedEOF), |data|)
  }

  /** One datum. The measure is what is left in the reader: the sizes the input claims need not shrink. */
  function ParseDatum(data: seq<byte>, pos: nat): (r: Parsed<Datum>)
    requires pos <= |data|
    ensures pos <= r.pos <= |data|
    ensures r.result.Ok? ==> pos + 8 <= r.pos
    ensures r.result.Err? ==> r.pos == |data|
    decreases |data| - pos, 0
  {
    var head := TakeFull(data, pos, 8);
    if head.result.Err? then Parsed(Err(head.result.error), head.pos)
    else ParseRecord(data, head.pos, head.result.value)
  }

  /** What follows a header: the fixed-size record its type calls for and the rest of the datum. */
  function ParseRecord(data: seq<byte>, pos: nat, head: seq<byte>): (r: Parsed<Datum>)
    requires pos <= |data| && |head| == 8
    ensures pos <= r.pos <= |data|
    ensures r.result.Err? ==> r.pos == |data|
    decreases |data| - pos, 3
  {
    var h := ParseHeader(head);
    var size := StructSize(h.typ);
    var fixed := TakeFull(data, pos, size);
    if fixed.result.Err? then Parsed(Err(fixed.result.error), fixed.pos)
    else ParseBody(data, fixed.pos, h, ParseFields(Layout(h.typ), fixed.result.value), h.size - 8 - size)
  }

  /** What follows the record: nested datums, payload bytes or nothing. */
  function ParseBody(data: seq<byte>, pos: nat, h: Header, st: seq<Field>, dataSize: int): (r: Parsed<Datum>)
    requires pos <= |data|
    ensures pos <= r.pos <= |data|
    ensures r.result.Err? ==> r.pos == |data|
    ensures r.result.Ok? ==> r.result.value.header == h
    decreases |data| - pos, 2
  {
    if HasProperties(h.typ) then
      var props := ParseProperties(data, pos, dataSize);
      Parsed(Ok(Datum(h, st, [], props.0)), props.1)
    else
      var payload := TakeFull(data, pos, PayloadSize(h.typ, dataSize));
      if payload.result.Err? then Parsed(Err(payload.result.error), payload.pos)
      else Parsed(Ok(Datum(h, st, payload.result.value, [])), payload.pos)
  }

  /** Nested datums for as long as the declared size leaves room for a header; running out of input only stops them. */
  function ParseProperties(data: seq<byte>, pos: nat, dataSize: int): (r: (seq<Datum>, nat))
    requires pos <= |data|
    ensures pos <= r.1 <= |data|
    decreases |data| - pos, 1
  {
    if dataSize < 8 then ([], pos)
    else
      var d := ParseDatum(data, pos);
      if d.result.Err? then ([], d.pos)
      else
        var rest := ParseProperties(data, d.pos, dataSize - d.result.value.header.size);
        ([d.result.value] + rest.0, rest.1)
  }

  /** The datums of a metadata block: as nested ones, but a size below a header's ends them. */
  function ParseData(data: seq<byte>, pos: nat, remaining: int): seq<Datum>
    requires pos <= |data|
    decreases |data| - pos
  {
    if remaining < 8 then []
    else
      var d := ParseDatum(data, pos);
      if d.result.Err? || d.result.value.header.size < 8 then []
      else [d.result.value] + ParseData(data, d.pos, remaining - d.result.value.header.size)
  }

  // ---------- the reading code ----------

  class Reader {
    const data: seq<byte>
    var pos: nat

    ghost predicate Valid()
      reads this
    {
      pos <= |data|
    }

    constructor (data: seq<byte>)
      ensures Valid() && this.data == data && pos == 0
    {
      this.data := data;
      this.pos := 0;
    }

    method ReadFull(n: nat) returns (r: Result<seq<byte>, ReaderError>)
      requires Valid()
      modifies this`pos
      ensures Valid()
      ensures Parsed(r, pos) == TakeFull(data, old(pos), n)
    {
      if pos + n <= |data| {
        r := Ok(data[pos..pos + n]);
        pos := pos + n;
      } else {
        r := Err(if pos == |data| then EOF else UnexpectedEOF);
        pos := |data|;
      }
    }
  }

  method ReadDatum(r: Reader) returns (d: Result<Datum, ReaderError>)
    requires r.Valid()
    modifies r`pos
    ensures r.Valid()
    ensures Parsed(d, r.pos) == ParseDatum(r.data, old(r.pos))
    decreases |r.data| - r.pos, 0
  {
    var head := r.ReadFull(8);
    if head.Err? {
      return Err(head.error);
    }
    var h := ParseHeader(head.value);
    ghost var goal := ParseRecord(r.data, r.pos, head.value);
    var fixed := r.ReadFull(StructSize(h.typ));
    if fixed.Err? {
      return Err(fixed.error);
    }
    var st := ParseFields(Layout(h.typ), fixed.value);
    var dataSize := h.size as int - 8 - StructSize(h.typ);
    assert goal == ParseBody(r.data, r.pos, h, st, dataSize);
    if HasProperties(h.typ) {
      var props := ReadProperties(r, h);
      return Ok(Datum(h, st, [], props));
    }
    var payload := [];
    if HasPayload(h.typ) && dataSize > 0 {
      var bytes := r.ReadFull(dataSize);
      if bytes.Err? {
        return Err(bytes.error);
      }
      payload := bytes.value;
    }
    return Ok(Datum(h, st, payload, []));
  }

  method ReadProperties(r: Reader, h: Header) returns (properties: seq<Datum>)
    requires r.Valid()
    modifies r`pos
    ensures r.Valid()
    ensures (properties, r.pos) == ParseProperties(r.data, old(r.pos), h.size - 8 - StructSize(h.typ))
    decreases |r.data| - r.pos, 1
  {
    properties := [];
    var dataSize := h.size as int - 8 - StructSize(h.typ);
    ghost var goal := ParseProperties(r.data, r.pos, dataSize);
    assert properties + goal.0 == goal.0;
    while dataSize > 0
      invariant r.Valid() && old(r.pos) <= r.pos
      invariant Continues(r.data, r.pos, dataSize, properties, goal)
      decreases |r.data| - r.pos
    {
      if dataSize < 8 {
        break;
      }
      var property := ReadDatum(r);
      if property.Err? {
        assert properties + [] == properties;
        return;
      }
      ghost var rest := ParseProperties(r.data, r.pos, dataSize - property.value.header.size);
      Reassociate(properties, [property.value], rest.0);
      properties := properties + [property.value];
      dataSize := dataSize - property.value.header.size;
    }
    assert properties + [] == properties;
  }

  /** What has been read and what the rest gives make up the goal. */
  ghost predicate Continues(data: seq<byte>, pos: nat, dataSize: int, done: seq<Datum>, goal: (seq<Datum>, nat))
    requires pos <= |data|
  {
    var rest := ParseProperties(data, pos, dataSize);
    goal.0 == done + rest.0 && goal.1 == rest.1
  }

  datatype DatasetError = InvalidHeaderBounds

  class Dataset {
    const headerSize: U32
    const buf: seq<byte>
    var data: seq<Datum>

    constructor (headerSize: U32, buf: seq<byte>)
      ensures this.headerSize == headerSize && this.buf == buf
    {
      this.headerSize := headerSize;
      this.buf := buf;
      this.data := [];
    }

    /** Ends without an error whatever the bytes are, unless the header is said to be longer than the block. */
    method ReadData() returns (err: Option<DatasetError>)
      modifies this`data
      ensures err.Some? <==> headerSize > |buf|
      ensures err.Some? ==> data == []
      ensures err.None? ==> data == ParseData(buf[headerSize..], 0, |buf| - headerSize)
      ensures err.None? ==> 8 * AllNodes(data) <= |buf| - headerSize
    {
      data := [];
      var start, end := headerSize as int, |buf|;
      if start < 0 || start > end {
        return Some(InvalidHeaderBounds);
      }
      var r := new Reader(buf[start..end]);
      var remaining := end - start;
      ghost var goal := ParseData(r.data, 0, remaining);
      while remaining >= 8
        invariant r.Valid() && r.data == buf[headerSize..]
        invariant goal == data + ParseData(r.data, r.pos, remaining)
        decreases |r.data| - r.pos
      {
        var datum := ReadDatum(r);
        if datum.Err? || datum.value.header.size < 8 {
          break;
        }
        ghost var rest := ParseData(r.data, r.pos, remaining - datum.value.header.size);
        Reassociate(data, [datum.value], rest);
        data := data + [datum.value];
        remaining := remaining - datum.value.header.size;
      }
      DataBound(r.data, 0, |buf| - headerSize);
      return None;
    }
  }

  // ---------- how much a block can hold ----------

  /** Every datum of the tree, however deep, took at least the eight bytes of its header from the reader. */
  lemma {:induction false} DatumBound(data: seq<byte>, pos: nat)
    requires pos <= |data|
    ensures var d := ParseDatum(data, pos);
            d.result.Ok? ==> 8 * Nodes(d.result.value) <= d.pos - pos
    decreases |data| - pos, 0
  {
    var head := TakeFull(data, pos, 8);
    if head.result.Ok? {
      RecordBound(data, head.pos, head.result.value);
    }
  }

  lemma {:induction false} RecordBound(data: seq<byte>, pos: nat, head: seq<byte>)
    requires pos <= |data| && |head| == 8
    ensures var d := ParseRecord(data, pos, head);
            d.result.Ok? ==> 8 * AllNodes(d.result.value.properties) <= d.pos - pos
    decreases |data| - pos, 3
  {
    var h := ParseHeader(head);
    var fixed := TakeFull(data, pos, StructSize(h.typ));
    if fixed.result.Ok? && HasProperties(h.typ) {
      PropertiesBound(data, fixed.pos, h.size - 8 - StructSize(h.typ));
    }
  }

  lemma {:induction false} PropertiesBound(data: seq<byte>, pos: nat, dataSize: int)
    requires pos <= |data|
    ensures var r := ParseProperties(data, pos, dataSize);
            8 * AllNodes(r.0) <= r.1 - pos
    decreases |data| - pos, 1
  {
    if dataSize >= 8 {
      DatumBound(data, pos);
      var d := ParseDatum(data, pos);
      if d.result.Ok? {
        PropertiesBound(data, d.pos, dataSize - d.result.value.header.size);
      }
    }
  }

  lemma {:induction false} DataBound(data: seq<byte>, pos: nat, remaining: int)
    requires pos <= |data|
    ensures 8 * AllNodes(ParseData(data, pos, remaining)) <= |data| - pos
    decreases |data| - pos
  {
    if remaining >= 8 {
      DatumBound(data, pos);
      var d := ParseDatum(data, pos);
      if d.result.Ok? && d.result.value.header.size >= 8 {
        DataBound(data, d.pos, remaining - d.result.value.header.size);
      }
    }
  }

  // ---------- printing and parsing ----------

  lemma AtFour(data: seq<byte>, pos: nat, a: seq<byte>, b: seq<byte>, c: seq<byte>, d: seq<byte>)
    ensures At(data, pos, a + b + c + d) <==>
            At(data, pos, a) && At(data, pos + |a|, b) &&
            At(data, pos + |a| + |b|, c) && At(data, pos + |a| + |b| + |c|, d)
  {
    AtParts(data, pos, a + b + c, d);
    AtParts(data, pos, a + b, c);
    AtParts(data, pos, a, b);
  }

  /** How the parser puts a datum together from the record on. */
  lemma BodyFromParts(data: seq<byte>, pos: nat, d: Datum, dataSize: int, p: nat)
    requires pos <= |data|
    requires HasProperties(d.header.typ) ==> d.data == [] && ParseProperties(data, pos, dataSize) == (d.properties, p)
    requires !HasProperties(d.header.typ) ==>
               d.properties == [] && |d.data| == PayloadSize(d.header.typ, dataSize) && At(data, pos, d.data) &&
               p == pos + |d.data|
    ensures ParseBody(data, pos, d.header, d.structure, dataSize) == Parsed(Ok(d), p)
  {
  }

  lemma RecordFromParts(data: seq<byte>, pos: nat, h: Header, head: seq<byte>, st: seq<byte>, fs: seq<Field>,
                        r: Parsed<Datum>)
    requires |head| == 8 && ParseHeader(head) == h
    requires |st| == StructSize(h.typ) && At(data, pos, st) && ParseFields(Layout(h.typ), st) == fs
    requires ParseBody(data, pos + |st|, h, fs, h.size - 8 - |st|) == r
    ensures ParseRecord(data, pos, head) == r
  {
  }

  lemma DatumFromParts(data: seq<byte>, pos: nat, head: seq<byte>, r: Parsed<Datum>)
    requires At(data, pos, head) && |head| == 8 && ParseRecord(data, pos + 8, head) == r
    ensures ParseDatum(data, pos) == r
  {
  }

  /** A readable datum's record is read back when what follows it is. */
  lemma RecordPrinted(data: seq<byte>, pos: nat, d: Datum, head: seq<byte>, st: seq<byte>, r: Parsed<Datum>)
    requires Matches(d.structure, Layout(d.header.typ))
    requires head == PrintHeader(d.header) && st == PrintFields(d.structure)
    requires At(data, pos, st)
    requires ParseBody(data, pos + |st|, d.header, d.structure, d.header.size - 8 - StructSize(d.header.typ)) == r
    ensures ParseRecord(data, pos, head) == r
  {
    HeaderRoundTrip(d.header);
    FieldsRoundTrip(d.structure, Layout(d.header.typ));
    RecordFromParts(data, pos, d.header, head, st, d.structure, r);
  }

  /** s is what is written in data between pos and q. */
  ghost predicate Between(data: seq<byte>, pos: nat, q: nat, s: seq<byte>) {
    At(data, pos, s) && q == pos + |s|
  }

  /** Where the parts of a printed datum stand. */
  lemma Unprint(data: seq<byte>, pos: nat, q: nat, d: Datum)
      returns (head: seq<byte>, st: seq<byte>, nested: seq<byte>, b: nat)
    requires Between(data, pos, q, Print(d))
    ensures head == PrintHeader(d.header) && st == PrintFields(d.structure) && nested == PrintAll(d.properties)
    ensures |head| == 8 && At(data, pos, head) && Between(data, pos + 8, b, st)
    ensures At(data, b, d.data) && Between(data, b + |d.data|, q, nested)
  {
    head, st, nested := PrintHeader(d.header), PrintFields(d.structure), PrintAll(d.properties);
    b := pos + 8 + |st|;
    AtFour(data, pos, head, st, d.data, nested);
  }

  /** A printed readable datum is read back as it was. */
  lemma {:induction false} ParsePrinted(data: seq<byte>, pos: nat, q: nat, d: Datum, last: bool)
    requires Readable(d, last) && Between(data, pos, q, Print(d)) && (last ==> q == |data|)
    ensures ParseDatum(data, pos) == Parsed(Ok(d), q)
    decreases d, 0
  {
    var head, st, nested, b := Unprint(data, pos, q, d);
    var r := Parsed(Ok(d), q);
    ParsePrintedBody(data, b, q, d, d.header.size - 8 - StructSize(d.header.typ), last);
    RecordPrinted(data, pos + 8, d, head, st, r);
    DatumFromParts(data, pos, head, r);
  }

  lemma {:induction false} ParsePrintedBody(data: seq<byte>, pos: nat, q: nat, d: Datum, dataSize: int, last: bool)
    requires At(data, pos, d.data) && Between(data, pos + |d.data|, q, PrintAll(d.properties))
    requires BodyReadable(d, dataSize, last) && (last ==> q == |data|)
    ensures ParseBody(data, pos, d.header, d.structure, dataSize) == Parsed(Ok(d), q)
    decreases d.properties, 2
  {
    if HasProperties(d.header.typ) {
      ParsePrintedAll(data, pos, q, d.properties, dataSize, last);
    }
    BodyFromParts(data, pos, d, dataSize, q);
  }

  /** The first datum of a printed forest is read back and the others stand after it. */
  lemma {:induction false} FirstPrinted(data: seq<byte>, pos: nat, q: nat, ds: seq<Datum>, last: bool)
      returns (d: Datum, rest: seq<Datum>, m: nat)
    requires ds != [] && Readable(ds[0], last) && Between(data, pos, q, PrintAll(ds))
    requires last ==> |ds| == 1 && q == |data|
    ensures d == ds[0] && rest == ds[1..] && ds == [d] + rest
    ensures ParseDatum(data, pos) == Parsed(Ok(d), m) && pos + 8 <= m <= q && |Print(d)| == m - pos
    ensures Between(data, m, q, PrintAll(rest))
    decreases ds, 0
  {
    d, rest := ds[0], ds[1..];
    var (a, b) := (Print(d), PrintAll(rest));
    m := pos + |a|;
    AtParts(data, pos, a, b);
    ParsePrinted(data, pos, m, d, last);
  }

  lemma {:induction false} ParsePrintedAll(data: seq<byte>, pos: nat, q: nat, ds: seq<Datum>, dataSize: int,
                                            last: bool)
    requires Fills(ds, dataSize, last) && Between(data, pos, q, PrintAll(ds)) && (last ==> q == |data|)
    ensures ParseProperties(data, pos, dataSize) == (ds, q)
    decreases ds, 1
  {
    if ds == [] {
      assert q == pos;
      if last { EndOfInput(data, dataSize); }
    } else {
      var d, rest, m := FirstPrinted(data, pos, q, ds, last && |ds| == 1);
      ParsePrintedAll(data, m, q, rest, dataSize - d.header.size, last);
      PropertiesCons(data, pos, m, q, d, rest, dataSize);
    }
  }

  lemma PropertiesCons(data: seq<byte>, pos: nat, m: nat, q: nat, d: Datum, rest: seq<Datum>, dataSize: int)
    requires pos <= m <= q <= |data| && dataSize >= 8
    requires ParseDatum(data, pos) == Parsed(Ok(d), m)
    requires ParseProperties(data, m, dataSize - d.header.size) == (rest, q)
    ensures ParseProperties(data, pos, dataSize) == ([d] + rest, q)
  {
  }

  lemma HeaderOfParsed(data: seq<byte>, pos: nat)
    requires pos + 8 <= |data|
    ensures var r := ParseDatum(data, pos).result;
            r.Ok? ==> r.value.header == ParseHeader(data[pos..pos + 8])
  {
    var r := ParseRecord(data, pos + 8, data[pos..pos + 8]);
  }

  /** Zero padding reads as the end of the data. */
  lemma ParsePadding(data: seq<byte>, pos: nat, n: nat)
    requires pos + n <= |data| && forall i :: pos <= i < pos + n ==> data[i] == 0
    ensures ParseData(data, pos, n) == []
  {
    if n >= 8 {
      var s := data[pos..pos + 8];
      assert s[0..2] == [0, 0];
      assert FromLE([0 as byte, 0]) == 0;
      assert ParseHeader(s).size == 0;
      HeaderOfParsed(data, pos);
    }
  }

  lemma DataCons(data: seq<byte>, pos: nat, m: nat, d: Datum, rest: seq<Datum>, n: int)
    requires pos + 8 <= m <= |data| && d.header.size == m - pos && n >= m - pos
    requires ParseDatum(data, pos) == Parsed(Ok(d), m)
    requires ParseData(data, m, n - (m - pos)) == rest
    ensures ParseData(data, pos, n) == [d] + rest
  {
  }

  /** A printed forest is parsed back to itself when what follows it reads as nothing. */
  lemma {:induction false} ForestParses(data: seq<byte>, pos: nat, q: nat, ds: seq<Datum>, after: nat)
    requires AllWellFormed(ds) && Between(data, pos, q, PrintAll(ds)) && ParseData(data, q, after) == []
    ensures ParseData(data, pos, q - pos + after) == ds
    decreases |ds|
  {
    if ds == [] {
      assert q == pos;
    } else {
      WellFormedIsReadable(ds[0]);
      var d, rest, m := FirstPrinted(data, pos, q, ds, false);
      ForestParses(data, m, q, rest, after);
      DataCons(data, pos, m, d, rest, q - pos + after);
    }
  }

  /** The round trip: a forest printed and padded with any number of zeros is parsed back to itself. */
  lemma ForestRoundTrip(ds: seq<Datum>, zeros: nat)
    requires AllWellFormed(ds)
    ensures var data := PrintAll(ds) + seq(zeros, _ => 0);
            ParseData(data, 0, |data|) == ds
  {
    var s := PrintAll(ds);
    var data := s + seq(zeros, _ => 0 as byte);
    assert At(data, 0, s) by { assert data[0..0 + |s|] == s; }
    ParsePadding(data, |s|, zeros);
    ForestParses(data, 0, |s|, ds, zeros);
  }

  // ---------- parsing and printing ----------

  /** s is what was read from pos to p, all of it unless the input ran out. */
  ghost predicate ReadFrom(data: seq<byte>, pos: nat, p: nat, s: seq<byte>) {
    At(data, pos, s) && pos + |s| <= p <= |data| && (p < |data| ==> pos + |s| == p)
  }

  lemma DatumIsRecord(data: seq<byte>, pos: nat) returns (head: seq<byte>)
    requires pos <= |data| && ParseDatum(data, pos).result.Ok?
    ensures |head| == 8 && At(data, pos, head) && ParseDatum(data, pos) == ParseRecord(data, pos + 8, head)
  {
    head := data[pos..pos + 8];
  }

  lemma PrintOf(d: Datum, head: seq<byte>, st: seq<byte>, nested: seq<byte>)
    requires head == PrintHeader(d.header) && st == PrintFields(d.structure) && nested == PrintAll(d.properties)
    ensures Print(d) == head + st + d.data + nested
  {
  }

  /** Nothing read is lost short of the end of the input: a datum prints as the bytes it was read from. */
  lemma {:induction false} PrintParsed(data: seq<byte>, pos: nat) returns (d: Datum, p: nat)
    requires pos <= |data| && ParseDatum(data, pos).result.Ok?
    ensures ParseDatum(data, pos) == Parsed(Ok(d), p) && ReadFrom(data, pos, p, Print(d))
    ensures Readable(d, p == |data|)
    decreases |data| - pos, 0
  {
    var head := DatumIsRecord(data, pos);
    var st, m;
    st, d, m, p := PrintParsedRecord(data, pos + 8, head);
    var nested := PrintAll(d.properties);
    ReadFromFour(data, pos, m, p, head, st, d.data, nested);
    PrintOf(d, head, st, nested);
  }

  /** The record after a header, what it decodes to and where the body starts. */
  lemma RecordParts(data: seq<byte>, pos: nat, head: seq<byte>, h: Header)
      returns (st: seq<byte>, fs: seq<Field>, m: nat, dataSize: int)
    requires pos <= |data| && |head| == 8 && h == ParseHeader(head) && ParseRecord(data, pos, head).result.Ok?
    ensures Between(data, pos, m, st) && |st| == StructSize(h.typ) && fs == ParseFields(Layout(h.typ), st)
    ensures ParseRecord(data, pos, head) == ParseBody(data, m, h, fs, dataSize)
    ensures dataSize == h.size - 8 - StructSize(h.typ)
  {
    m := pos + StructSize(h.typ);
    st := data[pos..m];
    fs := ParseFields(Layout(h.typ), st);
    dataSize := h.size - 8 - (m - pos);
  }

  lemma Reprints(head: seq<byte>, h: Header, st: seq<byte>, fs: seq<Field>)
    requires |head| == 8 && h == ParseHeader(head) && |st| == StructSize(h.typ) && fs == ParseFields(Layout(h.typ), st)
    ensures PrintHeader(h) == head && PrintFields(fs) == st && Matches(fs, Layout(h.typ))
  {
    HeaderRoundTripBack(head);
    FieldsRoundTripBack(Layout(h.typ), st);
  }

  lemma {:induction false} PrintParsedRecord(data: seq<byte>, pos: nat, head: seq<byte>)
      returns (st: seq<byte>, d: Datum, m: nat, p: nat)
    requires pos <= |data| && |head| == 8 && ParseRecord(data, pos, head).result.Ok?
    ensures ParseRecord(data, pos, head) == Parsed(Ok(d), p)
    ensures PrintHeader(d.header) == head && PrintFields(d.structure) == st && Between(data, pos, m, st)
    ensures At(data, m, d.data) && ReadFrom(data, m + |d.data|, p, PrintAll(d.properties))
    ensures Readable(d, p == |data|)
    decreases |data| - pos, 3
  {
    var h := ParseHeader(head);
    var fs, dataSize;
    st, fs, m, dataSize := RecordParts(data, pos, head, h);
    Reprints(head, h, st, fs);
    d, p := PrintParsedBody(data, m, h, fs, dataSize);
  }

  lemma {:induction false} PrintParsedBody(data: seq<byte>, pos: nat, h: Header, st: seq<Field>, dataSize: int)
      returns (d: Datum, p: nat)
    requires pos <= |data| && ParseBody(data, pos, h, st, dataSize).result.Ok?
    ensures ParseBody(data, pos, h, st, dataSize) == Parsed(Ok(d), p)
    ensures d.header == h && d.structure == st && At(data, pos, d.data)
    ensures ReadFrom(data, pos + |d.data|, p, PrintAll(d.properties))
    ensures BodyReadable(d, dataSize, p == |data|)
    decreases |data| - pos, 2
  {
    var r := ParseBody(data, pos, h, st, dataSize);
    d, p := r.result.value, r.pos;
    if HasProperties(h.typ) {
      var ds, q := PrintAllParsed(data, pos, dataSize);
    }
  }

  lemma ReadFromFour(data: seq<byte>, pos: nat, m: nat, p: nat, a: seq<byte>, b: seq<byte>, c: seq<byte>, d: seq<byte>)
    requires At(data, pos, a) && Between(data, pos + |a|, m, b) && At(data, m, c) && ReadFrom(data, m + |c|, p, d)
    ensures ReadFrom(data, pos, p, a + b + c + d)
  {
    AtFour(data, pos, a, b, c, d);
  }

  lemma {:induction false} PrintAllParsed(data: seq<byte>, pos: nat, dataSize: int) returns (ds: seq<Datum>, p: nat)
    requires pos <= |data|
    ensures ParseProperties(data, pos, dataSize) == (ds, p)
    ensures ReadFrom(data, pos, p, PrintAll(ds)) && Fills(ds, dataSize, p == |data|)
    decreases |data| - pos, 1
  {
    if dataSize < 8 {
      ds, p := [], pos;
    } else if ParseDatum(data, pos).result.Err? {
      ds, p := [], |data|;
    } else {
      var d, m := PrintParsed(data, pos);
      var rest;
      rest, p := PrintAllParsed(data, m, dataSize - d.header.size);
      ds := [d] + rest;
      if m == |data| { EndOfInput(data, dataSize - d.header.size); }
      PropertiesCons(data, pos, m, p, d, rest, dataSize);
      FillsCons(d, rest, dataSize, m == |data|, p == |data|);
      ReadFromCons(data, pos, m, p, d, rest);
    }
  }

  lemma ReadFromCons(data: seq<byte>, pos: nat, m: nat, p: nat, d: Datum, rest: seq<Datum>)
    requires ReadFrom(data, pos, m, Print(d)) && ReadFrom(data, m, p, PrintAll(rest)) && (m == |data| ==> rest == [])
    ensures ReadFrom(data, pos, p, PrintAll([d] + rest))
  {
    PrintAllCons(d, rest);
    ReadFromParts(data, pos, m, p, Print(d), PrintAll(rest));
  }

  lemma ReadFromParts(data: seq<byte>, pos: nat, m: nat, p: nat, a: seq<byte>, b: seq<byte>)
    requires ReadFrom(data, pos, m, a) && ReadFrom(data, m, p, b) && (m == |data| ==> b == [])
    ensures ReadFrom(data, pos, p, a + b)
  {
    if m == |data| {
      assert a + b == a;
    } else {
      AtParts(data, pos, a, b);
    }
  }

  lemma PrintAllCons(d: Datum, ds: seq<Datum>)
    ensures PrintAll([d] + ds) == Print(d) + PrintAll(ds)
  {
    assert ([d] + ds)[1..] == ds;
  }

  lemma EndOfInput(data: seq<byte>, dataSize: int)
    ensures ParseProperties(data, |data|, dataSize) == ([], |data|)
  {
  }

  /** Exactly the readable datums are read back from their printed bytes; at the end of the input there are more. */
  lemma RoundTripExactly(d: Datum, after: seq<byte>)
    ensures ParseDatum(Print(d) + after, 0) == Parsed(Ok(d), |Print(d)|) <==> Readable(d, after == [])
  {
    var data, q := Print(d) + after, |Print(d)|;
    assert data[0..0 + q] == Print(d);
    if Readable(d, after == []) {
      ParsePrinted(data, 0, q, d, after == []);
    }
    if ParseDatum(data, 0) == Parsed(Ok(d), q) {
      var d', p := PrintParsed(data, 0);
    }
  }

  lemma StretchKeyRecord(keyType: U16, keyFlags: U16, salt: Field)
    requires salt.Raw? && |salt.bytes| == 16
    ensures Matches([Number(2, keyType), Number(2, keyFlags), salt], Layout(STRETCH_KEY))
    ensures StructSize(STRETCH_KEY) == 20
  {
    var fs, ks := [Number(2, keyType), Number(2, keyFlags), salt], Layout(STRETCH_KEY);
    Pow256Values();
    assert fs[1..] == [Number(2, keyFlags), salt] && fs[1..][1..] == [salt] && fs[1..][1..][1..] == [];
    assert ks[1..] == [Num(2), Fixed(16)] && ks[1..][1..] == [Fixed(16)] && ks[1..][1..][1..] == [];
    assert Width([Fixed(16)]) == 16 && Width(ks[1..]) == 18;
    assert Matches([salt], [Fixed(16)]) && Matches(fs[1..], ks[1..]);
  }

  /** A datum that claims nested datums it does not have: read back when it ends the input, and only then. */
  lemma MissingPropertiesAtEnd(after: seq<byte>) returns (d: Datum)
    ensures d.header.size == 1000 && d.header.typ == STRETCH_KEY && d.properties == []
    ensures ParseDatum(Print(d) + after, 0) == Parsed(Ok(d), |Print(d)|) <==> after == []
  {
    var salt := Raw(seq(16, _ => 0));
    StretchKeyRecord(0, 0, salt);
    d := Datum(Header(1000, 0, STRETCH_KEY, 0), [Number(2, 0), Number(2, 0), salt], [], []);
    assert Fills([], 972, true) && !Fills([], 972, false);
    assert BodyReadable(d, 972, true) && !BodyReadable(d, 972, false);
    RoundTripExactly(d, after);
  }

  /** A well-formed datum is read back, and reading it uses exactly its size field. */
  lemma WellFormedRoundTrip(d: Datum, after: seq<byte>)
    requires WellFormed(d)
    ensures ParseDatum(Print(d) + after, 0) == Parsed(Ok(d), d.header.size)
  {
    var data, q := Print(d) + after, |Print(d)|;
    assert data[0..0 + q] == Print(d);
    WellFormedIsReadable(d);
    ParsePrinted(data, 0, q, d, false);
  }

  /** Fewer than eight bytes left over are padding; eight would be another datum. */
  lemma {:induction false} FillsSlack(ds: seq<Datum>, n: nat, k: nat)
    requires AllWellFormed(ds) && n == |PrintAll(ds)|
    ensures Fills(ds, n + k, false) <==> k < 8
    decreases ds
  {
    if ds != [] {
      var size := ds[0].header.size;
      WellFormedIsReadable(ds[0]);
      FillsSlack(ds[1..], n - size, k);
      assert n - size + k == n + k - size;
    }
  }

  /** A datum with nested ones may claim up to seven bytes more than it has, and no more. */
  lemma SlackIsPadding(d: Datum, k: nat, after: seq<byte>)
    requires WellFormed(d) && d.header.typ in {3, 4, 8, 9} && d.header.size + k < 0x1_0000 && after != []
    ensures var d' := d.(header := d.header.(size := d.header.size + k));
            ParseDatum(Print(d') + after, 0) == Parsed(Ok(d'), d.header.size) <==> k < 8
  {
    var h := d.header.(size := d.header.size + k);
    var d' := d.(header := h);
    FieldsRoundTrip(d.structure, Layout(d.header.typ));
    FillsSlack(d.properties, |PrintAll(d.properties)|, k);
    assert |Print(d')| == |Print(d)|;
    RoundTripExactly(d', after);
    SlackReadable(d, d', k);
  }

  lemma SlackReadable(d: Datum, d': Datum, k: nat)
    requires WellFormed(d) && d.header.typ in {3, 4, 8, 9} && d.header.size + k < 0x1_0000
    requires d' == d.(header := d.header.(size := d.header.size + k))
    requires Fills(d.properties, |PrintAll(d.properties)| + k, false) <==> k < 8
    ensures Readable(d', false) <==> k < 8
  {
    FieldsRoundTrip(d.structure, Layout(d.header.typ));
    var dataSize := d'.header.size - 8 - StructSize(d.header.typ);
    assert dataSize == |PrintAll(d.properties)| + k;
    assert BodyReadable(d', dataSize, false) <==> Fills(d.properties, dataSize, false);
  }
}
