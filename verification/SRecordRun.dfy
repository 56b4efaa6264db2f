/** save_serial, srec_decode and load_serial as they run. */
module SRecordRun {
  import opened Machine
  import opened SRecord
  import opened SRecordLoad

  // -------------------------------------------------------------- decoding

  lemma BytesUnfold(s: string, n: nat)
    requires n > 0
    ensures Hex2(s) < 0 ==> Bytes(s, n).None?
    ensures Hex2(s) >= 0 ==> (Bytes(s, n).None? <==> Bytes(s[2..], n - 1).None?)
    ensures Hex2(s) >= 0 && Bytes(s, n).Some? ==> Bytes(s, n).value == [Hex2(s) as Byte] + Bytes(s[2..], n - 1).value
  {
  }

  lemma {:induction false} BytesSnoc(s: string, k: nat)
    ensures Bytes(s, k).Some? ==> |s| >= 2 * k
    ensures Bytes(s, k + 1) ==
      if Bytes(s, k).None? || Hex2(s[2 * k..]) < 0 then None
      else Some(Bytes(s, k).value + [Hex2(s[2 * k..]) as Byte])
    decreases k
  {
    BytesUnfold(s, k + 1);
    if k == 0 {
      assert s[0..] == s;
      if Hex2(s) >= 0 {
        var b := Hex2(s) as Byte;
        assert Bytes(s[2..], 0) == Some([]) && [b] + [] == [] + [b];
      }
    } else {
      BytesUnfold(s, k);
      if Hex2(s) >= 0 {
        BytesSnoc(s[2..], k - 1);
        assert |s| >= 2 * k ==> s[2..][2 * (k - 1)..] == s[2 * k..];
        if Bytes(s, k + 1).Some? {
          var h, pre, b := Hex2(s) as Byte, Bytes(s[2..], k - 1).value, Hex2(s[2 * k..]) as Byte;
          assert [h] + (pre + [b]) == ([h] + pre) + [b];
        }
      }
    }
  }

  lemma {:induction false} BytesStopped(s: string, k: nat, n: nat)
    requires k <= n && Bytes(s, k).None?
    ensures Bytes(s, n).None?
    decreases n - k
  {
    if k < n {
      BytesSnoc(s, k);
      BytesStopped(s, k + 1, n);
    }
  }

  lemma {:induction false} SumStep(length: nat, pre: seq<Byte>, b: Byte)
    ensures ((length + Sum(pre)) % 256 + b) % 256 == (length + Sum(pre + [b])) % 256
  {
    SumConcat(pre, [b]);
    SumCons(b, []);
    assert [b] + [] == [b];
  }

  /** The text begins with `bytes`, and `sum` is the running sum over them. */
  ghost predicate HasRead(s: string, bytes: seq<Byte>, sum: nat, length: nat) {
    Bytes(s, |bytes|) == Some(bytes) && sum == (length + Sum(bytes)) % 256
  }

  /** Reads one more byte of a record: adds it to the bytes so far and to the checksum. */
  method TakeByte(s: string, pre: seq<Byte>, sum: nat, ghost n: nat, ghost length: nat)
    returns (ok: bool, b: Byte, sum': nat)
    requires |pre| < n && HasRead(s, pre, sum, length)
    ensures !ok ==> Bytes(s, n).None?
    ensures ok ==> HasRead(s, pre + [b], sum', length)
  {
    BytesSnoc(s, |pre|);
    var v := Hex2(s[2 * |pre|..]);
    ok, b, sum' := v >= 0, if v >= 0 then v else 0, sum;
    if ok {
      sum' := (sum + b) % 256;
      SumStep(length, pre, b);
    } else {
      BytesStopped(s, |pre| + 1, n);
    }
  }

  /** Reads bytes up to number `upto`; `address` is the value of those of an address field. */
  method TakeBytes(s: string, pre: seq<Byte>, sum: nat, upto: nat, ghost n: nat, ghost length: nat)
    returns (ok: bool, bytes: seq<Byte>, sum': nat, address: nat)
    requires |pre| <= upto <= n && HasRead(s, pre, sum, length)
    ensures !ok ==> Bytes(s, n).None?
    ensures ok ==> |bytes| == upto && HasRead(s, bytes, sum', length) && pre <= bytes
    ensures ok && pre == [] ==> address == Value(bytes)
  {
    ok, bytes, sum', address := true, pre, sum, 0;
    while |bytes| < upto
      invariant |pre| <= |bytes| <= upto && HasRead(s, bytes, sum', length) && pre <= bytes
      invariant pre == [] ==> address == Value(bytes)
    {
      var b;
      ok, b, sum' := TakeByte(s, bytes, sum', n, length);
      if !ok { return; }
      ValueStep(bytes, b);
      address := 256 * address + b as nat;
      bytes := bytes + [b];
    }
  }

  method ReadFields(kind: char, length: nat, s: string) returns (d: Decoded)
    requires Known(kind)
    ensures d == Fields(kind, length, s)
  {
    var a, count := AddressLength(kind), DataCount(kind, length);
    ghost var n := a + NonNegative(count) + 1;
    assert Bytes(s, 0) == Some([]);
    var ok, front, sum, address := TakeBytes(s, [], length % 256, a, n, length);
    if !ok { return NoRecord; }
    var bytes, ignored;
    ok, bytes, sum, ignored := TakeBytes(s, front, sum, a + NonNegative(count), n, length);
    if !ok { return NoRecord; }
    var v, sum';
    ok, v, sum' := TakeByte(s, bytes, sum, n, length);
    if !ok { return NoRecord; }
    ghost var all := bytes + [v];
    assert all[..a] == front && all[a..a + NonNegative(count)] == bytes[a..];
    ChecksumTest(length, bytes, v);
    d := if v != 255 - sum then BadChecksum else Record(kind, address, count, bytes[a..]);
  }

  /** Comparing with the complement is asking for the sum 0xFF. */
  lemma {:induction false} ChecksumTest(length: nat, bytes: seq<Byte>, v: Byte)
    ensures v == 255 - (length + Sum(bytes)) % 256 <==> (length + Sum(bytes + [v])) % 256 == 255
  {
    SumConcat(bytes, [v]);
    SumCons(v, []);
    assert [v] + [] == [v];
  }

  method SrecDecode(line: string) returns (d: Decoded)
    ensures d == Decode(line)
  {
    var i := 0;
    assert line[0..] == line;
    while i < |line| && line[i] != 'S'
      invariant i <= |line| && AfterS(line) == AfterS(line[i..])
    {
      assert line[i..][1..] == line[i + 1..];
      i := i + 1;
    }
    if i < |line| {
      assert line[i..][1..] == line[i + 1..];
      i := i + 1;
    }
    ghost var t := AfterS(line);
    assert t == line[i..];
    if i == |line| { return Empty; }
    var kind := line[i];
    var length := Hex2(line[i + 1..]);
    assert line[i + 1..] == t[1..];
    if length < 0 { return NoRecord; }
    if !Known(kind) { return BadType; }
    assert line[i + 3..] == t[3..];
    d := ReadFields(kind, length, line[i + 3..]);
  }

  // --------------------------------------------------------- the checksum

  /** Adds the length's and the address's bytes to the sum of the data, and complements. */
  method RecordChecksum(sum: nat, length: nat, address: nat) returns (checksum: Byte)
    requires length < 256 && address < WORD
    ensures checksum == Checksum(sum + length + Sum(AddressBytes(address)))
  {
    var total := sum + length % 256;
    total := total + (length / 256) % 256;
    total := total + address % 256;
    total := total + (address / 0x100) % 256;
    total := total + (address / 0x1_0000) % 256;
    total := total + (address / 0x100_0000) % 256;
    AddressSum(address);
    assert total == sum + length + Sum(AddressBytes(address));
    checksum := 255 - total % 256;
  }

  lemma AddressSum(a: nat)
    requires a < WORD
    ensures Sum(AddressBytes(a))
      == a / 0x100_0000 + (a / 0x1_0000) % 256 + (a / 0x100) % 256 + a % 256
  {
    var b := AddressBytes(a);
    SumCons(b[3], []);
    SumCons(b[2], [b[3]]);
    SumCons(b[1], [b[2], b[3]]);
    SumCons(b[0], [b[1], b[2], b[3]]);
    assert [b[3]] + [] == [b[3]] && [b[2]] + [b[3]] == [b[2], b[3]];
    assert [b[1]] + [b[2], b[3]] == [b[1], b[2], b[3]] && [b[0]] + [b[1], b[2], b[3]] == b;
  }

  lemma {:induction false} BodyText(length: Byte, address: seq<Byte>, data: seq<Byte>, check: Byte)
    ensures Text([length] + address + data + [check]) == Pair(length) + Text(address) + Text(data) + Pair(check)
  {
    TextConcat([length] + address + data, [check]);
    TextConcat([length] + address, data);
    TextConcat([length], address);
    TextCons(length, [], "");
    TextCons(check, [], "");
    assert [length] + [] == [length] && [check] + [] == [check];
    assert Pair(length) + "" == Pair(length) && Pair(check) + "" == Pair(check);
  }

  lemma {:induction false} HeadSum(length: Byte, address: seq<Byte>, data: seq<Byte>)
    ensures Sum([length] + address + data) == Sum(data) + length + Sum(address)
  {
    SumConcat([length] + address, data);
    SumCons(length, address);
  }

  /** What sprintf prints for a record. */
  function Printed(length: Byte, a: nat, text: string, check: Byte): string
    requires a < WORD
  {
    "S3" + (Pair(length) + Text(AddressBytes(a)) + text + Pair(check))
  }

  /** The printed fields make up the record. */
  lemma {:induction false} RecordText(a: nat, data: seq<Byte>, length: Byte, check: Byte)
    requires a < WORD && |data| <= 250 && length == |data| + 5
    requires check == Checksum(Sum(data) + length + Sum(AddressBytes(a)))
    ensures DataRecord(a, data) == Printed(length, a, Text(data), check)
  {
    HeadSum(length, AddressBytes(a), data);
    BodyText(length, AddressBytes(a), data, check);
  }

  /** Where a dump is: `n` bytes from address `a` on are not written, of which `reclen` are
      collected. */
  datatype Progress = Progress(a: nat, n: nat, reclen: nat, sum: nat, text: string)

  ghost predicate SaveOk(p: Progress, m: Memory) {
    && p.a < WORD && p.reclen < PER_RECORD && p.reclen <= p.n && (p.n == p.reclen ==> p.n == 0)
    && Collected(m, p.a, p.reclen, p.sum, p.text)
  }

  // -------------------------------------------------------------- the board

  /** Memory and the console. The operator interrupts after record number `interrupt`. */
  class Board {
    var memory: Memory
    var input: string
    var output: string
    var written: nat
    const interrupt: nat

    constructor (memory: Memory, input: string, interrupt: nat)
      ensures this.memory == memory && this.input == input && this.interrupt == interrupt
      ensures output == "" && written == 0
    {
      this.memory, this.input, this.interrupt := memory, input, interrupt;
      output, written := "", 0;
    }

    method WriteRecord(text: string) returns (stop: bool)
      modifies this`output, this`written
      ensures output == old(output) + text && written == old(written) + 1
      ensures stop == (old(written) == interrupt)
    {
      var i := 0;
      while i < |text|
        modifies this`output
        invariant i <= |text| && output == old(output) + text[..i]
      {
        output := output + [text[i]];
        i := i + 1;
      }
      assert text[..|text|] == text;
      stop := written == interrupt;
      written := written + 1;
    }

    /** Writes one data record, whose data was collected as `text` with the sum `sum`. */
    method WriteData(address: nat, reclen: nat, sum: nat, text: string, ghost line: string) returns (stop: bool)
      requires address < WORD && reclen <= PER_RECORD && Collected(memory, address, reclen, sum, text)
      requires line == DataRecord(address, Region(memory, address, reclen)) + "\n"
      modifies this`output, this`written
      ensures output == old(output) + line
      ensures written == old(written) + 1 && stop == (old(written) == interrupt)
    {
      ghost var data := Region(memory, address, reclen);
      var length := 4 + reclen + 1;
      var check := RecordChecksum(sum, length, address);
      RecordText(address, data, length, check);
      stop := WriteRecord(Printed(length, address, text, check) + "\n");
    }

    /** Collects one more byte. */
    method Collect(a: nat, reclen: nat, sum: nat, text: string) returns (sum': nat, text': string)
      requires Collected(memory, a, reclen, sum, text)
      ensures Collected(memory, a, reclen + 1, sum', text')
    {
      CollectByte(memory, a, reclen);
      var c := Peek(memory, Wrap(a + reclen));
      sum' := sum + c;
      text' := text + Pair(c);
    }

    /** Writes the record for the `reclen` bytes collected. */
    method Flush(p: Progress, ghost trailer: string) returns (stop: bool, next: nat)
      requires p.a < WORD && 0 < p.reclen == Piece(p.n) && Collected(memory, p.a, p.reclen, p.sum, p.text)
      modifies this`output, this`written
      ensures next < WORD
      ensures old(output) + Pending(memory, p.a, p.n, trailer) == output + Pending(memory, next, p.n - p.reclen, trailer)
      ensures written == old(written) + 1 && stop == (old(written) == interrupt)
    {
      next := Wrap(p.a + p.reclen);
      ghost var line := PendingStep(memory, p.a, p.n, p.reclen, next, trailer, output);
      stop := WriteData(p.a, p.reclen, p.sum, p.text, line);
    }

    /** Ends a turn: writes a record when one is full or nothing is left. */
    method FlushIfDue(p: Progress, ghost trailer: string) returns (stop: bool, p': Progress)
      requires p.a < WORD && p.reclen <= PER_RECORD && p.reclen <= p.n && Collected(memory, p.a, p.reclen, p.sum, p.text)
      modifies this`output, this`written
      ensures SaveOk(p', memory) && p'.n - p'.reclen == p.n - p.reclen
      ensures old(output) + Pending(memory, p.a, p.n, trailer) == output + Pending(memory, p'.a, p'.n, trailer)
      ensures old(written) <= written && (stop <==> old(written) <= interrupt < written)
    {
      stop, p' := false, p;
      if p.reclen == PER_RECORD || p.reclen == p.n {
        if p.reclen > 0 {
          var next;
          stop, next := Flush(p, trailer);
          p' := Progress(next, p.n - p.reclen, 0, 0, "");
          NothingCollected(memory, next);
        }
      }
    }

    /** The data records of a dump. */
    method SaveData(address: nat, count: nat, ghost trailer: string) returns (stop: bool, ghost rest: string)
      requires address < WORD
      modifies this`output, this`written
      ensures old(output) + Pending(memory, address, count, trailer) == output + rest && (!stop ==> rest == trailer)
      ensures old(written) <= written && (stop <==> old(written) <= interrupt < written)
    {
      var p := Progress(address, count, 0, 0, "");
      NothingCollected(memory, address);
      rest := Pending(memory, address, count, trailer);
      ghost var goal := output + rest;
      stop := false;
      while true
        invariant SaveOk(p, memory) && rest == Pending(memory, p.a, p.n, trailer) && goal == output + rest
        invariant old(written) <= written && !(old(written) <= interrupt < written)
        decreases p.n - p.reclen
      {
        if p.reclen < p.n {
          var sum, text := Collect(p.a, p.reclen, p.sum, p.text);
          p := p.(reclen := p.reclen + 1, sum := sum, text := text);
        }
        stop, p := FlushIfDue(p, trailer);
        rest := Pending(memory, p.a, p.n, trailer);
        if stop { return; }
        if p.reclen == p.n { break; }
      }
      NothingPending(memory, p.a, trailer);
    }

    /** Dumps `count` bytes from `address` on. An interrupted dump is the beginning of the
        whole one. */
    method SaveSerial(address: nat, count: nat) returns (ok: bool)
      requires address < WORD && count < WORD
      modifies this`output, this`written
      ensures exists rest :: old(output) + Dump(memory, address, count, "\n") == output + rest && (ok ==> rest == "")
      ensures ok <==> !(old(written) <= interrupt < written)
    {
      var trailer := "S70500000000FA" + "\n";
      DumpStart(memory, address, count, output);
      var stop := WriteRecord("S0030000FC" + "\n");
      if stop { return false; }
      ghost var rest;
      stop, rest := SaveData(address, count, trailer);
      if stop { return false; }
      stop := WriteRecord(trailer);
      assert old(output) + Dump(memory, address, count, "\n") == output + "";
      ok := !stop;
    }

    // --------------------------------------------------------------- loading

    /** read_record: one line, or None for an interrupt. */
    method ReadLine() returns (r: Option<string>)
      modifies this`input
      ensures match ReadRecord(old(input), MAX_LINE)
        case Stop => r.None?
        case Line(text, rest) => r == Some(text) && input == rest
      ensures r.Some? ==> |input| < |old(input)|
    {
      var text, room: nat := "", MAX_LINE;
      while room > 0
        modifies this`input
        invariant room <= MAX_LINE && |input| <= |old(input)| && (room < MAX_LINE ==> |input| < |old(input)|)
        invariant ReadRecord(old(input), MAX_LINE) == Prefixed(text, ReadRecord(input, room))
        decreases room
      {
        if input == "" { return None; }
        var c := input[0];
        PrefixStep(text, input, room);
        input := input[1..];
        if IsEol(c) {
          return Some(text);
        } else if IsStop(c) {
          return None;
        }
        text := text + [c];
        room := room - 1;
      }
      assert text + "" == text;
      return Some(text);
    }

    /** What one record does: memory is changed in place, the bounds are widened, and an end
        record or a bad one yields the outcome. */
    method Act(offset: nat, first: nat, last: nat, d: Decoded) returns (outcome: Option<Outcome>, first': nat, last': nat)
      requires first < WORD && last < WORD && CountOk(d)
      modifies this`memory
      ensures Handle(old(memory), offset, first, last, d)
        == if outcome.Some? then Finish(outcome.value) else Go(memory, first', last')
      ensures outcome.Some? ==> memory == old(memory)
    {
      outcome, first', last' := None, first, last;
      match d
      case BadType | NoRecord | BadChecksum => outcome := Some(Aborted);
      case Empty =>
      case Record(kind, address, count, data) =>
        if IsData(kind) {
          var a := Wrap(address + offset);
          memory := Put(memory, a, data);
          if a < first { first' := a; }
          if LastAddress(a, count) > last { last' := LastAddress(a, count); }
        } else if IsEnd(kind) {
          outcome := Some(Done(address, first, last, Size(first, last)));
        }
    }

    /** load_serial: the records of the input, up to an end record, a bad one or an interrupt. */
    method LoadSerial(offset: nat) returns (outcome: Outcome)
      modifies this`input, this`memory
      ensures (memory, outcome) == Load(old(memory), offset, Records(old(input)), WORD - 1, 0)
    {
      var first: nat, last: nat := WORD - 1, 0;
      ghost var goal := Load(memory, offset, Records(input), first, last);
      while true
        invariant first < WORD && last < WORD
        invariant goal == Load(memory, offset, Records(input), first, last)
        decreases |input|
      {
        LoadStep(memory, offset, input, first, last);
        var line := ReadLine();
        if line.None? { return Aborted; }
        DecodedCount(line.value);
        var d := SrecDecode(line.value);
        var end;
        end, first, last := Act(offset, first, last, d);
        if end.Some? { return end.value; }
      }
    }
  }

  function Prefixed(text: string, r: Read): Read {
    match r
    case Stop => Stop
    case Line(t, rest) => Line(text + t, rest)
  }

  lemma PrefixStep(text: string, input: string, room: nat)
    requires room > 0 && input != ""
    ensures IsEol(input[0]) && !IsStop(input[0]) ==> Prefixed(text, ReadRecord(input, room)) == Line(text, input[1..])
    ensures IsStop(input[0]) ==> Prefixed(text, ReadRecord(input, room)) == Stop
    ensures !IsEol(input[0]) && !IsStop(input[0]) ==>
      Prefixed(text, ReadRecord(input, room)) == Prefixed(text + [input[0]], ReadRecord(input[1..], room - 1))
  {
  }

  /** What a turn leads to. */
  function Afterwards(m: Memory, offset: nat, t: Turn, rest: string): (Memory, Outcome)
    requires t.Go? ==> t.first < WORD && t.last < WORD
  {
    match t
    case Finish(outcome) => (m, outcome)
    case Go(m', first, last) => Load(m', offset, Records(rest), first, last)
  }

  /** One turn of the download. */
  lemma {:induction false} LoadStep(m: Memory, offset: nat, input: string, first: nat, last: nat)
    requires first < WORD && last < WORD
    ensures ReadRecord(input, MAX_LINE).Stop? ==> Load(m, offset, Records(input), first, last) == (m, Aborted)
    ensures ReadRecord(input, MAX_LINE).Line? ==>
      var r := ReadRecord(input, MAX_LINE);
      CountOk(Decode(r.text)) && Load(m, offset, Records(input), first, last)
        == Afterwards(m, offset, Handle(m, offset, first, last, Decode(r.text)), r.rest)
  {
    var r := ReadRecord(input, MAX_LINE);
    if r.Line? {
      DecodedCount(r.text);
      var d := Decode(r.text);
      if d.Empty? {
        assert [] + Records(r.rest) == Records(r.rest);
      } else {
        assert Records(input) == [d] + Records(r.rest);
        assert ([d] + Records(r.rest))[1..] == Records(r.rest);
      }
    }
  }

  /** The sum and the hexadecimal text of the first `k` bytes at `a`. */
  ghost predicate Collected(m: Memory, a: nat, k: nat, sum: nat, text: string) {
    sum == Sum(Region(m, a, k)) && text == Text(Region(m, a, k))
  }

  lemma CollectByte(m: Memory, a: nat, k: nat)
    ensures Sum(Region(m, a, k + 1)) == Sum(Region(m, a, k)) + Peek(m, Wrap(a + k))
    ensures Text(Region(m, a, k + 1)) == Text(Region(m, a, k)) + Pair(Peek(m, Wrap(a + k)))
  {
    var c := Peek(m, Wrap(a + k));
    SumConcat(Region(m, a, k), [c]);
    TextConcat(Region(m, a, k), [c]);
    SumCons(c, []);
    TextCons(c, [], "");
    assert [c] + [] == [c] && Pair(c) + "" == Pair(c);
  }

  /** What a dump still has to write. */
  ghost function Pending(m: Memory, a: nat, n: nat, trailer: string): string
    requires a < WORD
  {
    Lines(Chunks(m, a, n), "\n") + trailer
  }

  lemma NothingCollected(m: Memory, a: nat)
    ensures Collected(m, a, 0, 0, "")
  {
  }

  lemma NothingPending(m: Memory, a: nat, trailer: string)
    requires a < WORD
    ensures Pending(m, a, 0, trailer) == trailer
  {
  }

  /** A dump is its first line and what is pending after it. */
  lemma DumpStart(m: Memory, a: nat, n: nat, output: string)
    requires a < WORD
    ensures output + Dump(m, a, n, "\n")
      == (output + ("S0030000FC" + "\n")) + Pending(m, a, n, "S70500000000FA" + "\n")
  {
    HeaderText();
    TrailerText();
    var header, rest := Header() + "\n", Pending(m, a, n, Trailer() + "\n");
    assert output + (header + rest) == (output + header) + rest;
  }

  /** The line of the next record, and what is pending behind it. */
  lemma {:induction false} PendingStep(m: Memory, a: nat, n: nat, k: nat, next: nat, trailer: string, output: string)
    returns (line: string)
    requires a < WORD && n > 0 && k == Piece(n) && next == Wrap(a + k)
    ensures line == DataRecord(a, Region(m, a, k)) + "\n"
    ensures output + Pending(m, a, n, trailer) == (output + line) + Pending(m, next, n - k, trailer)
  {
    ChunksStep(m, a, n);
    var r, rest := DataRecord(a, Region(m, a, k)), Lines(Chunks(m, next, n - k), "\n");
    line := r + "\n";
    assert Lines(Chunks(m, a, n), "\n") == r + "\n" + rest;
    Regroup(output, r, "\n", rest, trailer);
  }

  lemma Regroup(a: string, b: string, c: string, d: string, e: string)
    ensures a + ((b + c + d) + e) == (a + (b + c)) + (d + e)
  {
  }
}
