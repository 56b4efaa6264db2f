/** All types of S-records: data records with addresses of two, three and four bytes, the end records that belong
    to them, and files made of any of these. */
module SRecordTypes {
  import opened Machine
  import opened SRecord
  import opened SRecordLoad

  // ------------------------------------------------------------ one record

  /** The low `width` bytes of a number, high byte first. */
  function BigEndian(n: nat, width: nat): (b: seq<Byte>)
    ensures |b| == width
  {
    if width == 0 then [] else BigEndian(n / 256, width - 1) + [n % 256]
  }

  lemma {:induction false} BigEndianValue(n: nat, width: nat)
    requires n < Pow2(8 * width)
    ensures Value(BigEndian(n, width)) == n
  {
    if width > 0 {
      Pow2Sum(8, 8 * (width - 1));
      assert Pow2(8) == 256;
      BigEndianValue(n / 256, width - 1);
      ValueStep(BigEndian(n / 256, width - 1), n % 256);
    }
  }

  /** The bytes of a record: length, address, data and the checksum that makes the sum 0xFF. */
  function RecordBytes(address: nat, width: nat, data: seq<Byte>): seq<Byte>
    requires width + |data| + 1 < 256
  {
    var head := [(width + |data| + 1) as Byte] + BigEndian(address, width) + data;
    head + [(255 - Sum(head) % 256) as Byte]
  }

  lemma RecordSum(address: nat, width: nat, data: seq<Byte>)
    requires width + |data| + 1 < 256
    ensures Sum(RecordBytes(address, width, data)) % 256 == 255
  {
    var head := [(width + |data| + 1) as Byte] + BigEndian(address, width) + data;
    var last: Byte := 255 - Sum(head) % 256;
    SumConcat(head, [last]);
    assert [last][1..] == [];
  }

  lemma RecordParts(address: nat, width: nat, data: seq<Byte>)
    requires width + |data| + 1 < 256
    ensures var rest := RecordBytes(address, width, data)[1..];
            && |rest| == width + |data| + 1 == RecordBytes(address, width, data)[0]
            && rest[..width] == BigEndian(address, width) && rest[width..|rest| - 1] == data
  {
    var b, rest := BigEndian(address, width), RecordBytes(address, width, data)[1..];
    assert rest[..|rest| - 1] == b + data;
    assert rest[..width] == rest[..|rest| - 1][..width] && rest[width..|rest| - 1] == rest[..|rest| - 1][width..];
  }

  /** S1, S2 and S3 have addresses of 16, 24 and 32 bits, and so have S9, S8 and S7. */
  predicate TypeWidth(kind: char, width: nat) {
    (kind, width) in [('1', 2), ('2', 3), ('3', 4), ('9', 2), ('8', 3), ('7', 4)]
  }

  /** Records of all these types decode to their address and data. */
  lemma DecodeType(kind: char, width: nat, address: nat, data: seq<Byte>)
    requires TypeWidth(kind, width) && address < Pow2(8 * width) && width + |data| + 1 < 256
    ensures Decode(Typed(kind, RecordBytes(address, width, data))) == Record(kind, address, |data|, data)
  {
    DecodeTyped(kind, RecordBytes(address, width, data));
    RecordParts(address, width, data);
    RecordFields(kind, width, address, data);
    BigEndianValue(address, width);
  }

  lemma RecordFields(kind: char, width: nat, address: nat, data: seq<Byte>)
    requires TypeWidth(kind, width) && width + |data| + 1 < 256
    ensures var rest := RecordBytes(address, width, data)[1..];
            Fields(kind, |rest|, Text(rest)) == Record(kind, Value(rest[..width]), |data|, rest[width..|rest| - 1])
  {
    var bytes := RecordBytes(address, width, data);
    RecordSum(address, width, data);
    assert Sum(bytes) == bytes[0] + Sum(bytes[1..]);
    FieldsOf(kind, bytes[1..], |bytes| - 1);
  }

  /** A line of an S19 file: one byte for address 0x1000. */
  lemma OneByteLine()
    ensures Decode("S1041000AB40") == Record('1', 0x1000, 1, [0xAB])
  {
    var bytes: seq<Byte> := [4, 0x10, 0, 0xAB, 0x40];
    OneByteRecord(bytes);
    assert Pow2(16) == 0x1_0000 by { assert Pow2(8) == 256; Pow2Sum(8, 8); }
    DecodeType('1', 2, 0x1000, [0xAB]);
    OneByteText(bytes);
  }

  lemma OneByteRecord(bytes: seq<Byte>)
    requires bytes == [4, 0x10, 0, 0xAB, 0x40]
    ensures RecordBytes(0x1000, 2, [0xAB]) == bytes
  {
    assert BigEndian(0x1000, 2) == [0x10, 0] by {
      assert BigEndian(0x10, 1) == BigEndian(0, 0) + [0x10] == [0x10];
    }
    var head: seq<Byte> := [4, 0x10, 0, 0xAB];
    assert [4] + BigEndian(0x1000, 2) + [0xAB] == head;
    assert head[1..] == [0x10, 0, 0xAB] && head[1..][1..] == [0, 0xAB] && head[1..][1..][1..] == [0xAB];
    assert Sum([0xAB]) == 0xAB by { assert [0xAB][1..] == []; }
    assert Sum(head) == 0xBF;
  }

  lemma OneByteText(bytes: seq<Byte>)
    requires bytes == [4, 0x10, 0, 0xAB, 0x40]
    ensures Typed('1', bytes) == "S1041000AB40"
  {
    assert Text([0x40]) == "40" by { assert [0x40][1..] == []; }
    assert bytes[1..][1..][1..] == [0xAB, 0x40];
    assert [0xAB, 0x40][1..] == [0x40] && Text([0xAB, 0x40]) == "AB40";
    assert bytes[1..][1..] == [0, 0xAB, 0x40] && [0, 0xAB, 0x40][1..] == [0xAB, 0x40];
    assert Text([0, 0xAB, 0x40]) == "00AB40";
    assert Text(bytes[1..]) == "1000AB40";
    assert Text(bytes) == "041000AB40";
  }

  // ---------------------------------------------------------------- files

  datatype Entry = Entry(kind: char, width: nat, address: nat, data: seq<Byte>)

  predicate EntryOk(r: Entry) {
    TypeWidth(r.kind, r.width) && r.address < Pow2(8 * r.width) && r.width + |r.data| + 1 < 256
  }

  /** A data record whose bytes do not wrap around the end of memory. */
  predicate DataEntry(r: Entry, offset: nat) {
    r.kind in "123" && EntryOk(r) && r.data != [] && Place(r, offset) + |r.data| <= WORD
  }

  predicate EndEntry(r: Entry) { r.kind in "789" && EntryOk(r) }

  /** Where its first byte goes. */
  function Place(r: Entry, offset: nat): nat { Wrap(r.address + offset) }

  function EntryText(r: Entry): string
    requires EntryOk(r)
  {
    Typed(r.kind, RecordBytes(r.address, r.width, r.data))
  }

  predicate AllData(rs: seq<Entry>, offset: nat) { forall i | 0 <= i < |rs| :: DataEntry(rs[i], offset) }

  function FileText(rs: seq<Entry>, end: Entry, offset: nat, eol: string): string
    requires AllData(rs, offset) && EndEntry(end)
  {
    if rs == [] then EntryText(end) + eol
    else assert DataEntry(rs[0], offset); EntryText(rs[0]) + eol + FileText(rs[1..], end, offset, eol)
  }

  function DecodedEntry(r: Entry): Decoded { Record(r.kind, r.address, |r.data|, r.data) }

  function DecodedAll(rs: seq<Entry>, end: Entry): (ds: seq<Decoded>)
    ensures forall i | 0 <= i < |ds| :: CountOk(ds[i])
  {
    if rs == [] then [DecodedEntry(end)] else [DecodedEntry(rs[0])] + DecodedAll(rs[1..], end)
  }

  lemma EntryLine(r: Entry, eol: string, rest: string)
    requires EntryOk(r) && LineEnd(eol)
    ensures Records(EntryText(r) + eol + rest) == [DecodedEntry(r)] + Records(rest)
  {
    var bytes := RecordBytes(r.address, r.width, r.data);
    DecodeType(r.kind, r.width, r.address, r.data);
    TextIsClean(bytes);
    RecordsLine(EntryText(r), DecodedEntry(r), eol, rest);
  }

  lemma {:induction false} FileRecords(rs: seq<Entry>, end: Entry, offset: nat, eol: string)
    requires AllData(rs, offset) && EndEntry(end) && LineEnd(eol)
    ensures Records(FileText(rs, end, offset, eol)) == DecodedAll(rs, end)
  {
    if rs == [] {
      EntryLine(end, eol, "");
      assert EntryText(end) + eol + "" == EntryText(end) + eol;
      assert Records("") == [];
    } else {
      assert DataEntry(rs[0], offset);
      EntryLine(rs[0], eol, FileText(rs[1..], end, offset, eol));
      FileRecords(rs[1..], end, offset, eol);
    }
  }

  /** The byte at `x` once the records are loaded: that of the last record which covers it. */
  function ByteAfter(rs: seq<Entry>, offset: nat, x: nat, before: Byte): Byte
    requires AllData(rs, offset)
    decreases rs
  {
    if rs == [] then before
    else
      var b := Place(rs[0], offset);
      ByteAfter(rs[1..], offset, x, if b <= x < b + |rs[0].data| then rs[0].data[x - b] else before)
  }

  /** `lo` and `hi` are the least and greatest of the addresses stored to and of the two given. */
  ghost predicate Bounds(rs: seq<Entry>, offset: nat, first: nat, last: nat, lo: nat, hi: nat) {
    && lo <= first && last <= hi
    && (forall i | 0 <= i < |rs| :: lo <= Place(rs[i], offset) && Place(rs[i], offset) + |rs[i].data| - 1 <= hi)
    && (lo == first || exists i | 0 <= i < |rs| :: lo == Place(rs[i], offset))
    && (hi == last || exists i | 0 <= i < |rs| :: hi == Place(rs[i], offset) + |rs[i].data| - 1)
  }

  lemma BoundsStep(rs: seq<Entry>, offset: nat, first: nat, last: nat, lo: nat, hi: nat)
    requires rs != [] && rs[0].data != []
    requires var b := Place(rs[0], offset);
             Bounds(rs[1..], offset, Lower(b, first), Upper(b + |rs[0].data| - 1, last), lo, hi)
    ensures Bounds(rs, offset, first, last, lo, hi)
  {
    forall i | 0 < i < |rs| ensures rs[i] == rs[1..][i - 1] {
    }
  }

  function StoredAll(m: Memory, rs: seq<Entry>, offset: nat): Memory
    decreases rs
  {
    if rs == [] then m else StoredAll(Put(m, Place(rs[0], offset), rs[0].data), rs[1..], offset)
  }

  lemma {:induction false} StoredByte(m: Memory, rs: seq<Entry>, offset: nat, x: nat)
    requires AllData(rs, offset)
    ensures Peek(StoredAll(m, rs, offset), x) == ByteAfter(rs, offset, x, Peek(m, x))
    decreases rs
  {
    if rs != [] {
      assert DataEntry(rs[0], offset);
      PutPeek(m, Place(rs[0], offset), rs[0].data, x);
      StoredByte(Put(m, Place(rs[0], offset), rs[0].data), rs[1..], offset, x);
    }
  }

  /** The bounds as they are kept. */
  function BoundsOf(rs: seq<Entry>, offset: nat, first: nat, last: nat): (nat, nat)
    requires AllData(rs, offset)
    decreases rs
  {
    if rs == [] then (first, last)
    else
      assert DataEntry(rs[0], offset);
      var b := Place(rs[0], offset);
      BoundsOf(rs[1..], offset, Lower(b, first), Upper(b + |rs[0].data| - 1, last))
  }

  lemma {:induction false} BoundsAre(rs: seq<Entry>, offset: nat, first: nat, last: nat)
    requires AllData(rs, offset) && first < WORD && last < WORD
    ensures var (lo, hi) := BoundsOf(rs, offset, first, last);
            lo < WORD && hi < WORD && Bounds(rs, offset, first, last, lo, hi)
    decreases rs
  {
    if rs != [] {
      assert DataEntry(rs[0], offset);
      var b := Place(rs[0], offset);
      BoundsAre(rs[1..], offset, Lower(b, first), Upper(b + |rs[0].data| - 1, last));
      var (lo, hi) := BoundsOf(rs, offset, first, last);
      BoundsStep(rs, offset, first, last, lo, hi);
    }
  }

  lemma {:induction false} FileStored(m: Memory, offset: nat, rs: seq<Entry>, end: Entry, first: nat, last: nat)
    requires AllData(rs, offset) && EndEntry(end) && first < WORD && last < WORD
    ensures var (lo, hi) := BoundsOf(rs, offset, first, last);
            && lo < WORD && hi < WORD
            && Load(m, offset, DecodedAll(rs, end), first, last)
               == (StoredAll(m, rs, offset), Done(end.address, lo, hi, Size(lo, hi)))
    decreases rs
  {
    if rs != [] {
      var m1, first', last' := FirstStored(m, offset, rs, end, first, last);
      FileStored(m1, offset, rs[1..], end, first', last');
    } else {
      EndHandled(m, offset, end, first, last);
    }
  }

  lemma EndHandled(m: Memory, offset: nat, end: Entry, first: nat, last: nat)
    requires EndEntry(end) && first < WORD && last < WORD
    ensures Load(m, offset, [DecodedEntry(end)], first, last) == (m, Done(end.address, first, last, Size(first, last)))
  {
  }

  lemma FirstStored(m: Memory, offset: nat, rs: seq<Entry>, end: Entry, first: nat, last: nat)
    returns (m1: Memory, first': nat, last': nat)
    requires AllData(rs, offset) && rs != [] && first < WORD && last < WORD
    ensures first' < WORD && last' < WORD && AllData(rs[1..], offset)
    ensures StoredAll(m, rs, offset) == StoredAll(m1, rs[1..], offset)
    ensures BoundsOf(rs, offset, first, last) == BoundsOf(rs[1..], offset, first', last')
    ensures Load(m, offset, DecodedAll(rs, end), first, last) == Load(m1, offset, DecodedAll(rs[1..], end), first', last')
  {
    var r, b := rs[0], Place(rs[0], offset);
    assert DataEntry(r, offset);
    m1, first', last' := Put(m, b, r.data), Lower(b, first), Upper(b + |r.data| - 1, last);
    HandleData(m, offset, first, last, r);
    assert DecodedAll(rs, end)[1..] == DecodedAll(rs[1..], end);
  }

  lemma HandleData(m: Memory, offset: nat, first: nat, last: nat, r: Entry)
    requires DataEntry(r, offset) && first < WORD && last < WORD
    ensures var b := Place(r, offset);
            Handle(m, offset, first, last, DecodedEntry(r))
            == Go(Put(m, b, r.data), Lower(b, first), Upper(b + |r.data| - 1, last))
  {
    LastAddressInside(Place(r, offset), |r.data|);
  }

  /** A file of data records of any of the three types and an end record: every byte is that of the last record which
      covers it, all others stay, and the end record's address, the bounds and the size are reported. */
  lemma FileLoads(m: Memory, offset: nat, rs: seq<Entry>, end: Entry, eol: string)
    returns (m': Memory, lo: nat, hi: nat)
    requires AllData(rs, offset) && EndEntry(end) && LineEnd(eol)
    ensures lo < WORD && hi < WORD && Bounds(rs, offset, WORD - 1, 0, lo, hi)
    ensures Load(m, offset, Records(FileText(rs, end, offset, eol)), WORD - 1, 0)
      == (m', Done(end.address, lo, hi, Size(lo, hi)))
    ensures forall x: nat :: Peek(m', x) == ByteAfter(rs, offset, x, Peek(m, x))
  {
    FileRecords(rs, end, offset, eol);
    FileStored(m, offset, rs, end, WORD - 1, 0);
    BoundsAre(rs, offset, WORD - 1, 0);
    lo, hi := BoundsOf(rs, offset, WORD - 1, 0).0, BoundsOf(rs, offset, WORD - 1, 0).1;
    m' := StoredAll(m, rs, offset);
    forall x: nat ensures Peek(m', x) == ByteAfter(rs, offset, x, Peek(m, x)) {
      StoredByte(m, rs, offset, x);
    }
  }

  /** Header and count records store nothing. */
  lemma RemarksAreSkipped(m: Memory, offset: nat, first: nat, last: nat, kind: char, address: nat, data: seq<Byte>)
    requires kind in "05" && first < WORD && last < WORD && |data| < 256
    ensures Handle(m, offset, first, last, Record(kind, address, |data|, data)) == Go(m, first, last)
  {
  }

  /** An interrupt character ends the download in the middle of a line. */
  lemma {:induction false} InterruptStops(text: string, c: char, rest: string, room: nat)
    requires Clean(text) && |text| < room && c in ['\0', '\U{0003}']
    ensures ReadRecord(text + [c] + rest, room) == Stop
    decreases text
  {
    if text != "" {
      assert (text + [c] + rest)[1..] == text[1..] + [c] + rest;
      InterruptStops(text[1..], c, rest, room - 1);
    }
  }

  // --------------------------------------------------------------- characters

  /** Small and capital digits are read alike. */
  lemma DigitsAlike(d: nat)
    requires d < 16
    ensures Hex1(HexDigit(d, 'a')) == Hex1(HexDigit(d, 'A')) == d
  {
  }

  /** The types 4 and 6 do not exist. */
  lemma KnownTypes(kind: char)
    ensures Known(kind) <==> kind in "01235789"
  {
  }

  /** What stands before the first 'S' of a line is not looked at. */
  lemma {:induction false} JunkIsSkipped(junk: string, t: string)
    requires 'S' !in junk
    ensures Decode(junk + ("S" + t)) == Decode("S" + t)
  {
    if junk == "" {
      assert junk + ("S" + t) == "S" + t;
    } else {
      assert (junk + ("S" + t))[1..] == junk[1..] + ("S" + t);
      JunkIsSkipped(junk[1..], t);
    }
  }

  /** A record that is damaged or of an unknown type ends the download; what is stored already stays. */
  lemma DamageAborts(m: Memory, offset: nat, ds: seq<Decoded>, first: nat, last: nat)
    requires ds != [] && ds[0] in [BadType, NoRecord, BadChecksum] && first < WORD && last < WORD
    requires forall i | 0 <= i < |ds| :: CountOk(ds[i])
    ensures Load(m, offset, ds, first, last) == (m, Outcome.Aborted)
  {
  }

  /** A line is cut after 516 characters. */
  lemma {:induction false} LongLineIsCut(text: string, rest: string, room: nat)
    requires Clean(text) && |text| == room
    ensures ReadRecord(text + rest, room) == Line(text, rest)
    decreases room
  {
    if room == 0 {
      assert text + rest == rest;
    } else {
      assert (text + rest)[1..] == text[1..] + rest && text == [text[0]] + text[1..];
      LongLineIsCut(text[1..], rest, room - 1);
    }
  }

  lemma LongestLine(text: string, rest: string)
    requires Clean(text) && |text| == 516
    ensures ReadRecord(text + rest, MAX_LINE) == Line(text, rest)
  {
    LongLineIsCut(text, rest, 516);
  }
}
