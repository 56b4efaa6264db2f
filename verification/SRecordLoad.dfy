/** Dumping memory as S-records and loading S-records into memory. */
module SRecordLoad {
  import opened Machine
  import opened SRecord

  const PER_RECORD: nat := 16
  const MAX_LINE: nat := 516

  type Memory = map<nat, Byte>

  function Peek(m: Memory, a: nat): Byte { if a in m then m[a] else 0 }

  /** The bytes of `n` addresses. */
  function Region(m: Memory, a: nat, n: nat): (r: seq<Byte>)
    ensures |r| == n
  {
    if n == 0 then [] else Region(m, a, n - 1) + [Peek(m, Wrap(a + n - 1))]
  }

  /** memcpy */
  function Put(m: Memory, a: nat, data: seq<Byte>): Memory
    decreases data
  {
    if data == [] then m else Put(m[a := data[0]], Wrap(a + 1), data[1..])
  }

  // ------------------------------------------------------------ the dump

  datatype Chunk = Chunk(address: nat, data: seq<Byte>)

  predicate ChunkOk(c: Chunk) { c.address < WORD && 0 < |c.data| <= PER_RECORD }

  predicate ChunksOk(cs: seq<Chunk>) { forall i | 0 <= i < |cs| :: ChunkOk(cs[i]) }

  /** The records of a dump: up to sixteen bytes each. */
  function Chunks(m: Memory, a: nat, n: nat): (cs: seq<Chunk>)
    requires a < WORD
    ensures ChunksOk(cs)
    decreases n
  {
    if n == 0 then []
    else
      var k := Piece(n);
      [Chunk(a, Region(m, a, k))] + Chunks(m, Wrap(a + k), n - k)
  }

  function Piece(n: nat): nat { if n < PER_RECORD then n else PER_RECORD }

  lemma ChunksStep(m: Memory, a: nat, n: nat)
    requires a < WORD && n > 0
    ensures Chunks(m, a, n) != [] && Chunks(m, a, n)[0] == Chunk(a, Region(m, a, Piece(n)))
    ensures Chunks(m, a, n)[1..] == Chunks(m, Wrap(a + Piece(n)), n - Piece(n))
    ensures n <= PER_RECORD ==> Chunks(m, a, n)[1..] == []
  {
  }

  function Lines(cs: seq<Chunk>, eol: string): string
    requires ChunksOk(cs)
  {
    if cs == [] then "" else DataRecord(cs[0].address, cs[0].data) + eol + Lines(cs[1..], eol)
  }

  /** The first and the last record of every dump. */
  function Header(): string { Typed('0', [3, 0, 0, 0xFC]) }

  function Trailer(): string { Typed('7', [5, 0, 0, 0, 0, 0xFA]) }

  function Dump(m: Memory, a: nat, n: nat, eol: string): string
    requires a < WORD
  {
    Header() + eol + (Lines(Chunks(m, a, n), eol) + (Trailer() + eol))
  }

  function AllData(cs: seq<Chunk>): seq<Byte> {
    if cs == [] then [] else cs[0].data + AllData(cs[1..])
  }

  lemma {:induction false} RegionAt(m: Memory, a: nat, n: nat, i: nat)
    requires i < n
    ensures Region(m, a, n)[i] == Peek(m, Wrap(a + i))
  {
    if i < n - 1 { RegionAt(m, a, n - 1, i); }
  }

  /** The records tile the region in order: whole records at multiples of sixteen, then the
      rest, and together they hold its bytes. */
  lemma {:induction false} RecordsTile(m: Memory, a: nat, n: nat)
    requires a + n <= WORD && a < WORD
    ensures AllData(Chunks(m, a, n)) == Region(m, a, n)
    ensures forall i | 0 <= i < |Chunks(m, a, n)| :: Chunks(m, a, n)[i].address == a + 16 * i
    ensures forall i | 0 <= i < |Chunks(m, a, n)| - 1 :: |Chunks(m, a, n)[i].data| == 16
    decreases n
  {
    RecordsInOrder(m, a, n);
    RecordsComplete(m, a, n);
  }

  lemma {:induction false} RecordsComplete(m: Memory, a: nat, n: nat)
    requires a + n <= WORD && a < WORD
    ensures AllData(Chunks(m, a, n)) == Region(m, a, n)
    decreases n
  {
    if n > 0 {
      var k := Piece(n);
      ChunksStep(m, a, n);
      RegionSplit(m, a, k, n - k);
      if n > k { RecordsComplete(m, a + k, n - k); }
    }
  }

  lemma {:induction false} RecordsInOrder(m: Memory, a: nat, n: nat)
    requires a + n <= WORD && a < WORD
    ensures forall i | 0 <= i < |Chunks(m, a, n)| :: Chunks(m, a, n)[i].address == a + 16 * i
    ensures forall i | 0 <= i < |Chunks(m, a, n)| - 1 :: |Chunks(m, a, n)[i].data| == 16
    decreases n
  {
    if n > 0 {
      var k := Piece(n);
      ChunksStep(m, a, n);
      if n > k {
        RecordsInOrder(m, a + k, n - k);
        var cs := Chunks(m, a, n);
        assert forall i | 0 < i < |cs| :: cs[i] == cs[1..][i - 1];
      }
    }
  }

  lemma {:induction false} RegionSplit(m: Memory, a: nat, k: nat, n: nat)
    requires a + k + n <= WORD
    ensures Region(m, a, k + n) == Region(m, a, k) + Region(m, a + k, n)
  {
    if n > 0 { RegionSplit(m, a, k, n - 1); }
  }

  // ----------------------------------------------------------- the loader

  datatype Read = Line(text: string, rest: string) | Stop

  predicate IsEol(c: char) { c == '\n' || c == '\r' }

  predicate IsStop(c: char) { c == '\0' || c == '\U{0003}' }

  /** One line of at most `room` characters; an exhausted input counts as an interrupt. */
  function ReadRecord(input: string, room: nat): (r: Read)
    ensures r.Line? && room > 0 ==> |r.rest| < |input|
    decreases room
  {
    if room == 0 then Line("", input)
    else if input == "" || IsStop(input[0]) then Stop
    else if IsEol(input[0]) then Line("", input[1..])
    else match ReadRecord(input[1..], room - 1)
      case Stop => Stop
      case Line(text, rest) => Line([input[0]] + text, rest)
  }

  datatype Outcome = Aborted | Done(entry: nat, first: nat, last: nat, size: nat)

  /** `last - first + 1` as an unsigned long. */
  function Size(first: nat, last: nat): nat
    requires first < WORD && last < WORD
  {
    Wrap(last + WORD - first + 1)
  }

  /** `a + count - 1` as an unsigned long. */
  function LastAddress(a: nat, count: int): nat
    requires a < WORD && -256 < count
  {
    Wrap(a + (WORD + count) - 1)
  }

  function Lower(a: nat, b: nat): nat { if a < b then a else b }

  function Upper(a: nat, b: nat): nat { if a > b then a else b }

  /** What one record does to a download in progress. */
  datatype Turn = Go(memory: Memory, first: nat, last: nat) | Finish(outcome: Outcome)

  predicate CountOk(d: Decoded) { d.Record? ==> -256 < d.count }

  function Handle(m: Memory, offset: nat, first: nat, last: nat, d: Decoded): (t: Turn)
    requires first < WORD && last < WORD && CountOk(d)
    ensures t.Go? ==> t.first < WORD && t.last < WORD
  {
    match d
    case BadType | NoRecord | BadChecksum => Finish(Aborted)
    case Empty => Go(m, first, last)
    case Record(kind, address, count, data) =>
      if IsData(kind) then
        var a := Wrap(address + offset);
        var e := LastAddress(a, count);
        Go(Put(m, a, data), Lower(a, first), Upper(e, last))
      else if IsEnd(kind) then Finish(Done(address, first, last, Size(first, last)))
      else Go(m, first, last)
  }

  /** A whole download, record by record; it is aborted when the records run out. */
  function Load(m: Memory, offset: nat, ds: seq<Decoded>, first: nat, last: nat): (Memory, Outcome)
    requires first < WORD && last < WORD && forall i | 0 <= i < |ds| :: CountOk(ds[i])
    decreases ds
  {
    if ds == [] then (m, Aborted)
    else match Handle(m, offset, first, last, ds[0])
      case Finish(outcome) => (m, outcome)
      case Go(m', first', last') => Load(m', offset, ds[1..], first', last')
  }

  lemma DecodedCount(text: string)
    ensures CountOk(Decode(text))
  {
  }

  /** The records of an input, up to an interrupt; lines without an 'S' hold none. */
  function Records(input: string): (ds: seq<Decoded>)
    ensures forall i | 0 <= i < |ds| :: CountOk(ds[i])
    decreases |input|
  {
    match ReadRecord(input, MAX_LINE)
    case Stop => []
    case Line(text, rest) =>
      DecodedCount(text);
      (if Decode(text).Empty? then [] else [Decode(text)]) + Records(rest)
  }

  // --------------------------------------------------- lines and the loader

  predicate Clean(text: string) { forall i | 0 <= i < |text| :: !IsEol(text[i]) && !IsStop(text[i]) }

  lemma {:induction false} ReadLine(text: string, e: char, rest: string, room: nat)
    requires Clean(text) && |text| < room && IsEol(e)
    ensures ReadRecord(text + [e] + rest, room) == Line(text, rest)
    decreases room
  {
    var s := text + [e] + rest;
    if text == "" {
      assert s[1..] == rest;
    } else {
      assert s[1..] == text[1..] + [e] + rest;
      ReadLine(text[1..], e, rest, room - 1);
      assert text == [text[0]] + text[1..];
    }
  }

  lemma {:induction false} TextIsClean(bytes: seq<Byte>)
    ensures Clean(Text(bytes))
    decreases bytes
  {
    if bytes != [] { TextIsClean(bytes[1..]); }
  }

  /** Line ends as sent by the dump, or with a carriage return put in by the console. */
  predicate LineEnd(eol: string) { eol == "\n" || eol == "\r\n" }

  /** A line holds one record, whichever way it ends. */
  lemma {:induction false} RecordsLine(text: string, d: Decoded, eol: string, rest: string)
    requires Clean(text) && |text| < MAX_LINE && Decode(text) == d && !d.Empty? && LineEnd(eol)
    ensures Records(text + eol + rest) == [d] + Records(rest)
  {
    if eol == "\n" {
      ReadLine(text, '\n', rest, MAX_LINE);
    } else {
      var s := "\n" + rest;
      assert text + eol + rest == text + ['\r'] + s;
      ReadLine(text, '\r', s, MAX_LINE);
      EmptyLine(rest);
    }
  }

  lemma {:induction false} EmptyLine(rest: string)
    ensures Records("\n" + rest) == Records(rest)
  {
  }

  // ----------------------------------------------------- loading data records

  function PutAll(m: Memory, offset: nat, cs: seq<Chunk>): Memory
    requires ChunksOk(cs)
    decreases cs
  {
    if cs == [] then m else PutAll(Put(m, Wrap(cs[0].address + offset), cs[0].data), offset, cs[1..])
  }

  function FirstOf(offset: nat, cs: seq<Chunk>, first: nat): (r: nat)
    requires ChunksOk(cs) && first < WORD
    ensures r < WORD
    decreases cs
  {
    if cs == [] then first
    else
      var a := Wrap(cs[0].address + offset);
      FirstOf(offset, cs[1..], Lower(a, first))
  }

  function LastOf(offset: nat, cs: seq<Chunk>, last: nat): (r: nat)
    requires ChunksOk(cs) && last < WORD
    ensures r < WORD
    decreases cs
  {
    if cs == [] then last
    else
      var e := LastAddress(Wrap(cs[0].address + offset), |cs[0].data|);
      LastOf(offset, cs[1..], Upper(e, last))
  }

  lemma RecordIsClean(c: Chunk)
    requires ChunkOk(c)
    ensures Clean(DataRecord(c.address, c.data)) && |DataRecord(c.address, c.data)| < MAX_LINE
  {
    TextIsClean(Body(c.address, c.data));
  }

  function DataOf(c: Chunk): Decoded { Record('3', c.address, |c.data|, c.data) }

  function DataOfAll(cs: seq<Chunk>): (ds: seq<Decoded>)
    ensures forall i | 0 <= i < |ds| :: CountOk(ds[i])
  {
    if cs == [] then [] else [DataOf(cs[0])] + DataOfAll(cs[1..])
  }

  lemma {:induction false} RecordsChunk(c: Chunk, eol: string, rest: string)
    requires ChunkOk(c) && LineEnd(eol)
    ensures Records(DataRecord(c.address, c.data) + eol + rest) == [DataOf(c)] + Records(rest)
  {
    RecordIsClean(c);
    DecodeRecord(c.address, c.data);
    RecordsLine(DataRecord(c.address, c.data), DataOf(c), eol, rest);
  }

  lemma {:induction false} LinesStep(cs: seq<Chunk>, eol: string, tail: string)
    requires cs != [] && ChunksOk(cs)
    ensures Lines(cs, eol) + tail == DataRecord(cs[0].address, cs[0].data) + eol + (Lines(cs[1..], eol) + tail)
  {
  }

  lemma Prepend<T>(x: T, xs: seq<T>, ys: seq<T>)
    ensures [x] + (xs + ys) == ([x] + xs) + ys
  {
  }

  /** The data lines of a dump hold its chunks. */
  lemma {:induction false} RecordsOfLines(cs: seq<Chunk>, eol: string, tail: string)
    requires ChunksOk(cs) && LineEnd(eol)
    ensures Records(Lines(cs, eol) + tail) == DataOfAll(cs) + Records(tail)
    decreases cs
  {
    if cs == [] {
      assert Lines(cs, eol) + tail == tail;
    } else {
      LinesStep(cs, eol, tail);
      RecordsChunk(cs[0], eol, Lines(cs[1..], eol) + tail);
      RecordsOfLines(cs[1..], eol, tail);
      Prepend(DataOf(cs[0]), DataOfAll(cs[1..]), Records(tail));
    }
  }

  lemma {:induction false} HandleChunk(m: Memory, offset: nat, first: nat, last: nat, c: Chunk)
    requires ChunkOk(c) && first < WORD && last < WORD
    ensures var a := Wrap(c.address + offset);
      Handle(m, offset, first, last, DataOf(c))
      == Go(Put(m, a, c.data), Lower(a, first), Upper(LastAddress(a, |c.data|), last))
  {
  }

  lemma {:induction false} LoadChunks(m: Memory, offset: nat, cs: seq<Chunk>, d: Decoded, first: nat, last: nat)
    requires ChunksOk(cs) && first < WORD && last < WORD && CountOk(d)
    ensures Load(m, offset, DataOfAll(cs) + [d], first, last)
      == Load(PutAll(m, offset, cs), offset, [d], FirstOf(offset, cs, first), LastOf(offset, cs, last))
    decreases cs
  {
    var ds := DataOfAll(cs) + [d];
    if cs == [] {
      assert ds == [d];
    } else {
      var c := cs[0];
      assert ds[0] == DataOf(c) && ds[1..] == DataOfAll(cs[1..]) + [d];
      HandleChunk(m, offset, first, last, c);
      var a := Wrap(c.address + offset);
      var e := LastAddress(a, |c.data|);
      LoadChunks(Put(m, a, c.data), offset, cs[1..], d, Lower(a, first), Upper(e, last));
    }
  }

  lemma {:induction false} PutPeek(m: Memory, a: nat, data: seq<Byte>, x: nat)
    requires a + |data| <= WORD
    ensures Peek(Put(m, a, data), x) == if a <= x < a + |data| then data[x - a] else Peek(m, x)
    decreases data
  {
    if |data| > 1 {
      PutPeek(m[a := data[0]], a + 1, data[1..], x);
    } else if |data| == 1 {
      assert data[1..] == [];
    }
  }

  /** The records of a region, loaded with an offset, copy the region and change nothing else. */
  lemma {:induction false} RegionCopied(src: Memory, m: Memory, a: nat, n: nat, offset: nat, b: nat, x: nat)
    requires a < WORD && a + n <= WORD && b == Wrap(a + offset) && b + n <= WORD
    ensures Peek(PutAll(m, offset, Chunks(src, a, n)), x)
      == if b <= x < b + n then Peek(src, a + (x - b)) else Peek(m, x)
    decreases n
  {
    if n > 0 {
      var k := Piece(n);
      ChunksStep(src, a, n);
      FirstCopied(src, m, a, k, b, x);
      if n > k {
        ShiftStep(a, k, offset);
        RegionCopied(src, Put(m, b, Region(src, a, k)), a + k, n - k, offset, b + k, x);
      }
    }
  }

  lemma FirstCopied(src: Memory, m: Memory, a: nat, k: nat, b: nat, x: nat)
    requires a < WORD && a + k <= WORD && b + k <= WORD
    ensures Peek(Put(m, b, Region(src, a, k)), x) == if b <= x < b + k then Peek(src, a + (x - b)) else Peek(m, x)
  {
    PutPeek(m, b, Region(src, a, k), x);
    if b <= x < b + k { RegionAt(src, a, k, x - b); }
  }

  lemma ShiftStep(a: nat, k: nat, offset: nat)
    requires Wrap(a + offset) + k < WORD
    ensures Wrap(a + k + offset) == Wrap(a + offset) + k
  {
  }

  /** The first and last address of the download. */
  lemma {:induction false} LowestAddress(src: Memory, a: nat, n: nat, offset: nat, b: nat, first: nat)
    requires a < WORD && a + n <= WORD && 0 < n && b == Wrap(a + offset) && b + n <= WORD && first < WORD
    ensures FirstOf(offset, Chunks(src, a, n), first) == Lower(b, first)
    decreases n
  {
    var k := Piece(n);
    ChunksStep(src, a, n);
    if n > k {
      ShiftStep(a, k, offset);
      LowestAddress(src, a + k, n - k, offset, b + k, Lower(b, first));
    }
  }

  lemma UpperChain(x: nat, y: nat, last: nat)
    requires x <= y
    ensures Upper(y, Upper(x, last)) == Upper(y, last)
  {
  }

  lemma {:induction false} HighestAddress(src: Memory, a: nat, n: nat, offset: nat, b: nat, last: nat)
    requires Shifted(a, n, offset, b) && last < WORD
    ensures LastOf(offset, Chunks(src, a, n), last) == Upper(b + n - 1, last)
    decreases n
  {
    var k := Piece(n);
    var last' := LastOfFirst(src, a, n, offset, b, last);
    if n > k {
      HighestAddress(src, a + k, n - k, offset, b + k, last');
    }
  }

  /** The `n` bytes at `a` go to `b`, without wrapping. */
  predicate Shifted(a: nat, n: nat, offset: nat, b: nat) {
    a < WORD && a + n <= WORD && 0 < n && b == Wrap(a + offset) && b + n <= WORD
  }

  lemma LastOfFirst(src: Memory, a: nat, n: nat, offset: nat, b: nat, last: nat)
    returns (last': nat)
    requires Shifted(a, n, offset, b) && last < WORD
    ensures last' < WORD && Upper(b + n - 1, last') == Upper(b + n - 1, last)
    ensures var k, r := Piece(n), LastOf(offset, Chunks(src, a, n), last);
            if n > k then Shifted(a + k, n - k, offset, b + k) && r == LastOf(offset, Chunks(src, a + k, n - k), last')
            else r == Upper(b + n - 1, last)
  {
    var k := Piece(n);
    last' := Upper(b + k - 1, last);
    ChunksStep(src, a, n);
    LastAddressInside(b, k);
    UpperChain(b + k - 1, b + n - 1, last);
    if n > k { ShiftStep(a, k, offset); }
  }

  lemma LastAddressInside(b: nat, k: nat)
    requires 0 < k && b + k <= WORD
    ensures LastAddress(b, k) == b + k - 1
  {
  }

  // ------------------------------------------------------- dump, then load

  lemma {:induction false} TextCons(b: Byte, rest: seq<Byte>, t: string)
    requires Text(rest) == t
    ensures Text([b] + rest) == Pair(b) + t
  {
  }

  lemma {:induction false} SumCons(b: Byte, rest: seq<Byte>)
    ensures Sum([b] + rest) == b + Sum(rest)
  {
  }

  lemma HeaderText()
    ensures Header() == "S0030000FC"
  {
  }

  lemma TrailerTail()
    ensures Text([0, 0, 0xFA]) == "0000FA"
  {
    TextCons(0xFA, [], "");
    TextCons(0, [0xFA], "FA");
    TextCons(0, [0, 0xFA], "00FA");
    assert [0xFA] + [] == [0xFA] && [0] + [0xFA] == [0, 0xFA] && [0] + [0, 0xFA] == [0, 0, 0xFA];
  }

  lemma TrailerText()
    ensures Trailer() == "S70500000000FA"
  {
    TrailerTail();
    TextCons(0, [0, 0, 0xFA], "0000FA");
    TextCons(0, [0, 0, 0, 0xFA], "000000FA");
    TextCons(5, [0, 0, 0, 0, 0xFA], "00000000FA");
    assert [0] + [0, 0, 0xFA] == [0, 0, 0, 0xFA] && [0] + [0, 0, 0, 0xFA] == [0, 0, 0, 0, 0xFA];
    assert [5] + [0, 0, 0, 0, 0xFA] == [5, 0, 0, 0, 0, 0xFA];
  }

  lemma TypedClean(kind: char, bytes: seq<Byte>)
    requires Known(kind) && |bytes| < 200
    ensures Clean(Typed(kind, bytes)) && |Typed(kind, bytes)| < MAX_LINE
  {
    TextIsClean(bytes);
  }

  lemma HeaderSum()
    ensures Sum([0, 0, 0xFC]) == 0xFC
  {
  }

  lemma DecodeNoData(bytes: seq<Byte>)
    requires |bytes| == 4 && bytes[0] == 3 && (3 + Sum(bytes[1..])) % 256 == 255
    ensures Decode(Typed('0', bytes)) == Record('0', Value(bytes[1..3]), 0, [])
  {
    var rest := bytes[1..];
    DecodeTyped('0', bytes);
    FieldsOf('0', rest, 3);
    assert rest[..2] == bytes[1..3];
  }

  lemma HeaderIsSkipped()
    ensures Decode(Header()) == HEADER_RECORD
  {
    var bytes: seq<Byte> := [3, 0, 0, 0xFC];
    HeaderSum();
    assert bytes[1..] == [0, 0, 0xFC] && bytes[1..3] == [0, 0];
    DecodeNoData(bytes);
  }

  lemma TrailerBody()
    ensures Body(0, []) == [5, 0, 0, 0, 0, 0xFA]
  {
    SumCons(0, []);
    SumCons(0, [0]);
    SumCons(0, [0, 0]);
    SumCons(0, [0, 0, 0]);
    SumCons(5, [0, 0, 0, 0]);
    assert [0] + [] == [0] && [0] + [0] == [0, 0] && [0] + [0, 0] == [0, 0, 0] && [0] + [0, 0, 0] == [0, 0, 0, 0];
    assert [5] + AddressBytes(0) + [] == [5] + [0, 0, 0, 0];
  }

  lemma TrailerEnds()
    ensures Decode(Trailer()) == END_RECORD
  {
    TrailerBody();
    DecodeBody('7', 0, []);
  }

  const HEADER_RECORD: Decoded := Record('0', Value([0, 0]), 0, [])
  const END_RECORD: Decoded := Record('7', 0, 0, [])

  lemma {:induction false} RecordsOfDump(m: Memory, a: nat, n: nat, eol: string)
    requires a < WORD && LineEnd(eol)
    ensures Records(Dump(m, a, n, eol)) == [HEADER_RECORD] + (DataOfAll(Chunks(m, a, n)) + [END_RECORD])
  {
    var cs, tail := Chunks(m, a, n), Trailer() + eol;
    HeaderIsSkipped();
    TypedClean('0', [3, 0, 0, 0xFC]);
    RecordsLine(Header(), HEADER_RECORD, eol, Lines(cs, eol) + tail);
    RecordsOfLines(cs, eol, tail);
    RecordsOfTrailer(eol);
  }

  lemma {:induction false} RecordsOfTrailer(eol: string)
    requires LineEnd(eol)
    ensures Records(Trailer() + eol) == [END_RECORD]
  {
    TrailerEnds();
    TypedClean('7', [5, 0, 0, 0, 0, 0xFA]);
    RecordsLine(Trailer(), END_RECORD, eol, "");
    assert Trailer() + eol + "" == Trailer() + eol;
    assert Records("") == [];
  }

  lemma {:induction false} LoadEnds(m: Memory, offset: nat, first: nat, last: nat)
    requires first < WORD && last < WORD
    ensures Load(m, offset, [END_RECORD], first, last) == (m, Done(0, first, last, Size(first, last)))
  {
  }

  lemma {:induction false} LoadHeader(m: Memory, offset: nat, ds: seq<Decoded>, first: nat, last: nat)
    requires first < WORD && last < WORD && forall i | 0 <= i < |ds| :: CountOk(ds[i])
    ensures Load(m, offset, [HEADER_RECORD] + ds, first, last) == Load(m, offset, ds, first, last)
  {
  }

  lemma {:induction false} LoadDump(src: Memory, m: Memory, a: nat, n: nat, offset: nat, eol: string)
    requires a < WORD && LineEnd(eol)
    ensures var cs := Chunks(src, a, n);
      var first, last := FirstOf(offset, cs, WORD - 1), LastOf(offset, cs, 0);
      Load(m, offset, Records(Dump(src, a, n, eol)), WORD - 1, 0)
      == (PutAll(m, offset, cs), Done(0, first, last, Size(first, last)))
  {
    var cs := Chunks(src, a, n);
    var ds := DataOfAll(cs) + [END_RECORD];
    RecordsOfDump(src, a, n, eol);
    LoadHeader(m, offset, ds, WORD - 1, 0);
    LoadChunks(m, offset, cs, END_RECORD, WORD - 1, 0);
    LoadEnds(PutAll(m, offset, cs), offset, FirstOf(offset, cs, WORD - 1), LastOf(offset, cs, 0));
  }

  lemma {:induction false} DumpBounds(src: Memory, a: nat, n: nat, offset: nat)
    requires a < WORD && n < WORD && a + n <= WORD && Wrap(a + offset) + n <= WORD
    ensures var cs, b := Chunks(src, a, n), Wrap(a + offset);
      var first, last := FirstOf(offset, cs, WORD - 1), LastOf(offset, cs, 0);
      Done(0, first, last, Size(first, last)) == if n > 0 then Done(0, b, b + n - 1, n) else Done(0, WORD - 1, 0, 2)
  {
    if n > 0 {
      LowestAddress(src, a, n, offset, Wrap(a + offset), WORD - 1);
      HighestAddress(src, a, n, offset, Wrap(a + offset), 0);
      BoundsGiveSize(Wrap(a + offset), n);
    }
  }

  lemma BoundsGiveSize(b: nat, n: nat)
    requires 0 < n && b + n <= WORD && n < WORD
    ensures Lower(b, WORD - 1) == b && Upper(b + n - 1, 0) == b + n - 1 && Size(b, b + n - 1) == n
  {
  }

  /** `m'` is `m` with the `n` bytes at `a` in `src` copied to `b`. */
  ghost predicate Copied(src: Memory, a: nat, m: Memory, m': Memory, b: nat, n: nat) {
    forall x: nat :: Peek(m', x) == if b <= x < b + n then Peek(src, a + (x - b)) else Peek(m, x)
  }

  lemma {:induction false} AllCopied(src: Memory, m: Memory, a: nat, n: nat, offset: nat)
    requires a < WORD && a + n <= WORD && Wrap(a + offset) + n <= WORD
    ensures Copied(src, a, m, PutAll(m, offset, Chunks(src, a, n)), Wrap(a + offset), n)
  {
    var b, m' := Wrap(a + offset), PutAll(m, offset, Chunks(src, a, n));
    forall x: nat ensures Peek(m', x) == if b <= x < b + n then Peek(src, a + (x - b)) else Peek(m, x) {
      RegionCopied(src, m, a, n, offset, b, x);
    }
  }

  /** Loading a dump restores the region at its (shifted) place, changes nothing else and
      reports the region's bounds and size; for an empty region it reports the size 2. */
  lemma DumpThenLoad(src: Memory, m: Memory, a: nat, n: nat, offset: nat, eol: string)
    requires a < WORD && n < WORD && a + n <= WORD && Wrap(a + offset) + n <= WORD && LineEnd(eol)
    ensures var b := Wrap(a + offset);
      var r := Load(m, offset, Records(Dump(src, a, n, eol)), WORD - 1, 0);
      && Copied(src, a, m, r.0, b, n)
      && r.1 == if n > 0 then Done(0, b, b + n - 1, n) else Done(0, WORD - 1, 0, 2)
  {
    LoadDump(src, m, a, n, offset, eol);
    DumpBounds(src, a, n, offset);
    AllCopied(src, m, a, n, offset);
  }
}
