/** Motorola S-records: the text of a record and the decoder. */
module SRecord {
  import opened Machine

  // ----------------------------------------------------------- hexadecimal

  /** %X. */
  function Digit(d: nat): (c: char)
    requires d < 16
    ensures Hex1(c) == d
    ensures '0' <= c <= 'F'
  {
    HexDigit(d, 'A')
  }

  /** The value of a digit; -1 for any other character. */
  function Hex1(c: char): (v: int)
    ensures -1 <= v < 16
  {
    if '0' <= c <= '9' then c as int - 48
    else if 'a' <= c <= 'f' then c as int - 87
    else if 'A' <= c <= 'F' then c as int - 55
    else -1
  }

  /** The byte two digits at the start of `s` stand for; -1 if they are not there. */
  function Hex2(s: string): (v: int)
    ensures -1 <= v < 256 && (v >= 0 ==> |s| >= 2)
  {
    if |s| < 2 || Hex1(s[0]) < 0 || Hex1(s[1]) < 0 then -1 else 16 * Hex1(s[0]) + Hex1(s[1])
  }

  function Pair(b: Byte): string { [Digit(b / 16), Digit(b % 16)] }

  function Text(bytes: seq<Byte>): (s: string)
    ensures |s| == 2 * |bytes|
  {
    if bytes == [] then "" else Pair(bytes[0]) + Text(bytes[1..])
  }

  /** The first `n` bytes of a text. */
  function Bytes(s: string, n: nat): (r: Option<seq<Byte>>)
    ensures r.Some? ==> |r.value| == n
    decreases n
  {
    if n == 0 then Some([])
    else if Hex2(s) < 0 then None
    else match Bytes(s[2..], n - 1)
      case None => None
      case Some(rest) => Some([Hex2(s) as Byte] + rest)
  }

  lemma {:induction false} PairFirst(b: Byte, rest: string, bytes: seq<Byte>)
    requires Bytes(rest, |bytes|) == Some(bytes)
    ensures Bytes(Pair(b) + rest, |bytes| + 1) == Some([b] + bytes)
  {
  }

  lemma {:induction false} TextStep(bytes: seq<Byte>, rest: string)
    requires bytes != []
    ensures Text(bytes) + rest == Pair(bytes[0]) + (Text(bytes[1..]) + rest)
  {
  }

  lemma {:induction false} BytesOfText(bytes: seq<Byte>, rest: string)
    ensures Bytes(Text(bytes) + rest, |bytes|) == Some(bytes)
    decreases bytes
  {
    if bytes != [] {
      var tail := bytes[1..];
      BytesOfText(tail, rest);
      PairFirst(bytes[0], Text(tail) + rest, tail);
      TextStep(bytes, rest);
      assert bytes == [bytes[0]] + tail;
    }
  }

  lemma {:induction false} TextConcat(a: seq<Byte>, b: seq<Byte>)
    ensures Text(a + b) == Text(a) + Text(b)
    decreases a
  {
    if a == [] {
      assert a + b == b;
    } else {
      assert (a + b)[1..] == a[1..] + b;
      TextConcat(a[1..], b);
    }
  }

  function Sum(bytes: seq<Byte>): nat {
    if bytes == [] then 0 else bytes[0] + Sum(bytes[1..])
  }

  lemma {:induction false} SumConcat(a: seq<Byte>, b: seq<Byte>)
    ensures Sum(a + b) == Sum(a) + Sum(b)
    decreases a
  {
    if a == [] {
      assert a + b == b;
    } else {
      assert (a + b)[1..] == a[1..] + b;
      SumConcat(a[1..], b);
    }
  }

  /** The number a big-endian address field stands for. */
  function Value(bytes: seq<Byte>): nat {
    if bytes == [] then 0 else 256 * Value(bytes[..|bytes| - 1]) + bytes[|bytes| - 1]
  }

  /** A 32-bit address as four bytes, high byte first. */
  function AddressBytes(a: nat): seq<Byte>
    requires a < WORD
  {
    [(a / 0x100_0000) as Byte, (a / 0x1_0000) % 256, (a / 0x100) % 256, a % 256]
  }

  lemma {:induction false} ValueStep(bytes: seq<Byte>, b: Byte)
    ensures Value(bytes + [b]) == 256 * Value(bytes) + b
  {
  }

  lemma FourBytes(a: nat)
    requires a < WORD
    ensures a == 256 * (256 * (256 * (a / 0x100_0000) + (a / 0x1_0000) % 256) + (a / 0x100) % 256) + a % 256
  {
    assert a / 0x100 == 256 * (a / 0x1_0000) + (a / 0x100) % 256;
    assert a / 0x1_0000 == 256 * (a / 0x100_0000) + (a / 0x1_0000) % 256;
  }

  lemma AddressValue(a: nat)
    requires a < WORD
    ensures Value(AddressBytes(a)) == a
  {
    var b := AddressBytes(a);
    FourBytes(a);
    ValueStep([], b[0]);
    ValueStep([b[0]], b[1]);
    ValueStep([b[0], b[1]], b[2]);
    ValueStep([b[0], b[1], b[2]], b[3]);
    assert [] + [b[0]] == [b[0]];
    assert [b[0]] + [b[1]] == [b[0], b[1]];
    assert [b[0], b[1]] + [b[2]] == [b[0], b[1], b[2]];
    assert [b[0], b[1], b[2]] + [b[3]] == b;
  }

  // ------------------------------------------------------------- decoding

  datatype Decoded =
    | Record(kind: char, address: nat, count: int, data: seq<Byte>)
    | Empty
    | BadType
    | NoRecord
    | BadChecksum

  /** What follows the first 'S'. */
  function AfterS(s: string): string {
    if s == "" then "" else if s[0] == 'S' then s[1..] else AfterS(s[1..])
  }

  predicate Known(kind: char) { '0' <= kind <= '9' && kind != '4' && kind != '6' }

  predicate IsData(kind: char) { '1' <= kind <= '3' }

  predicate IsEnd(kind: char) { '7' <= kind <= '9' }

  function AddressLength(kind: char): nat {
    if kind == '3' || kind == '7' then 4 else if kind == '2' || kind == '8' then 3 else 2
  }

  /** Data bytes by the length field; negative when that is too small. */
  function DataCount(kind: char, length: nat): int {
    if kind == '5' then 0 else length as int - 1 - AddressLength(kind)
  }

  function NonNegative(n: int): nat { if n < 0 then 0 else n }

  function Decode(s: string): Decoded {
    var t := AfterS(s);
    if t == "" then Empty
    else if Hex2(t[1..]) < 0 then NoRecord
    else if !Known(t[0]) then BadType
    else Fields(t[0], Hex2(t[1..]), t[3..])
  }

  function Fields(kind: char, length: nat, s: string): Decoded {
    var a, count := AddressLength(kind), DataCount(kind, length);
    match Bytes(s, a + NonNegative(count) + 1)
    case None => NoRecord
    case Some(bytes) =>
      if (length + Sum(bytes)) % 256 != 255 then BadChecksum
      else Record(kind, Value(bytes[..a]), count, bytes[a..a + NonNegative(count)])
  }

  // ------------------------------------------------------- records written

  function Checksum(sum: nat): Byte { 255 - sum % 256 }

  /** Everything an S3 record says after its type. */
  function Body(address: nat, data: seq<Byte>): seq<Byte>
    requires address < WORD && |data| <= 250
  {
    var head := [(|data| + 5) as Byte] + AddressBytes(address) + data;
    head + [Checksum(Sum(head))]
  }

  /** The text of a record: 'S', its type, its bytes. */
  function Typed(kind: char, bytes: seq<Byte>): string {
    ['S', kind] + Text(bytes)
  }

  function DataRecord(address: nat, data: seq<Byte>): string
    requires address < WORD && |data| <= 250
  {
    Typed('3', Body(address, data))
  }

  /** Length, address, data and checksum add up to 0xFF. */
  lemma BodySum(address: nat, data: seq<Byte>)
    requires address < WORD && |data| <= 250
    ensures Sum(Body(address, data)) % 256 == 255
  {
    var head := [(|data| + 5) as Byte] + AddressBytes(address) + data;
    SumConcat(head, [Checksum(Sum(head))]);
    assert [Checksum(Sum(head))][1..] == [];
  }

  /** The fields of a record, given its bytes after the length. */
  lemma {:induction false} FieldsOf(kind: char, bytes: seq<Byte>, length: nat)
    requires length == |bytes| && kind != '5' && |bytes| >= AddressLength(kind) + 1
    ensures Fields(kind, length, Text(bytes)) ==
      if (length + Sum(bytes)) % 256 != 255 then BadChecksum
      else var a := AddressLength(kind);
        Record(kind, Value(bytes[..a]), |bytes| - 1 - a, bytes[a..|bytes| - 1])
  {
    BytesPrefix(bytes, |bytes|);
    assert bytes[..|bytes|] == bytes;
    FieldsFrom(kind, bytes, Text(bytes));
  }

  /** The fields are those of the bytes that the text stands for. */
  lemma FieldsFrom(kind: char, bytes: seq<Byte>, s: string)
    requires kind != '5' && |bytes| >= AddressLength(kind) + 1 && Bytes(s, |bytes|) == Some(bytes)
    ensures Fields(kind, |bytes|, s) ==
      if (|bytes| + Sum(bytes)) % 256 != 255 then BadChecksum
      else var a := AddressLength(kind);
        Record(kind, Value(bytes[..a]), |bytes| - 1 - a, bytes[a..|bytes| - 1])
  {
  }

  lemma {:induction false} SkipS(t: string)
    ensures AfterS("S" + t) == t
  {
  }

  lemma {:induction false} FirstByte(bytes: seq<Byte>)
    requires bytes != []
    ensures Hex2(Text(bytes)) == bytes[0]
  {
  }

  lemma TypedParts(kind: char, pair: string, more: string)
    requires |pair| == 2
    ensures ['S', kind] + (pair + more) == "S" + ([kind] + (pair + more))
    ensures ([kind] + (pair + more))[1..] == pair + more && ([kind] + (pair + more))[3..] == more
  {
  }

  lemma DecodeTyped(kind: char, bytes: seq<Byte>)
    requires bytes != []
    ensures Decode(Typed(kind, bytes)) ==
            if Known(kind) then Fields(kind, bytes[0], Text(bytes[1..])) else BadType
  {
    var t := [kind] + Text(bytes);
    SkipS(t);
    TypedParts(kind, Pair(bytes[0]), Text(bytes[1..]));
    FirstByte(bytes);
  }

  lemma BodyFields(address: nat, data: seq<Byte>)
    requires address < WORD && |data| <= 250
    ensures Body(address, data)[1..][..4] == AddressBytes(address)
    ensures Body(address, data)[1..][4..|data| + 4] == data
  {
  }

  /** A record with a four-byte address decodes to its address and data. */
  lemma DecodeBody(kind: char, address: nat, data: seq<Byte>)
    requires address < WORD && |data| <= 250 && (kind == '3' || kind == '7')
    ensures Decode(Typed(kind, Body(address, data))) == Record(kind, address, |data|, data)
  {
    DecodeTyped(kind, Body(address, data));
    BodyFieldsOf(kind, address, data);
    BodyFields(address, data);
    AddressValue(address);
  }

  /** A written record decodes to its address and data. */
  lemma DecodeRecord(address: nat, data: seq<Byte>)
    requires address < WORD && |data| <= 250
    ensures Decode(DataRecord(address, data)) == Record('3', address, |data|, data)
  {
    DecodeBody('3', address, data);
  }

  // -------------------------------------------------------- damaged digits

  /** The byte with one of its two digits replaced. */
  function Redigit(b: Byte, low: bool, d: nat): Byte
    requires d < 16
  {
    if low then b - b % 16 + d else 16 * d + b % 16
  }

  lemma DamagedPair(b: Byte, j: nat, c: char, t: string)
    requires j < 2
    ensures Hex2((Pair(b) + t)[j := c]) == if Hex1(c) < 0 then -1 else Redigit(b, j == 1, Hex1(c))
  {
  }

  lemma {:induction false} DamagedFirst(bytes: seq<Byte>, j: nat, c: char)
    requires bytes != [] && j < 2
    ensures Bytes(Text(bytes)[j := c], |bytes|) ==
      if Hex1(c) < 0 then None else Some(bytes[0 := Redigit(bytes[0], j == 1, Hex1(c))])
  {
    var s, rest := Text(bytes)[j := c], bytes[1..];
    DamagedPair(bytes[0], j, c, Text(rest));
    assert s[2..] == Text(rest) + "";
    BytesOfText(rest, "");
    if Hex1(c) >= 0 {
      var b := Redigit(bytes[0], j == 1, Hex1(c));
      assert bytes[0 := b] == [b] + rest;
    }
  }

  lemma {:induction false} DamagedBytes(bytes: seq<Byte>, j: nat, c: char)
    requires j < 2 * |bytes|
    ensures Bytes(Text(bytes)[j := c], |bytes|) ==
      if Hex1(c) < 0 then None
      else Some(bytes[j / 2 := Redigit(bytes[j / 2], j % 2 == 1, Hex1(c))])
    decreases bytes
  {
    if j < 2 {
      DamagedFirst(bytes, j, c);
    } else {
      DamagedBytes(bytes[1..], j - 2, c);
      DamagedLater(bytes, j, c);
      if Hex1(c) >= 0 {
        var b := Redigit(bytes[j / 2], j % 2 == 1, Hex1(c));
        assert bytes[j / 2 := b] == [bytes[0]] + bytes[1..][(j - 2) / 2 := b];
      }
    }
  }

  lemma {:induction false} DamagedLater(bytes: seq<Byte>, j: nat, c: char)
    requires 2 <= j < 2 * |bytes|
    ensures var r := Bytes(Text(bytes[1..])[j - 2 := c], |bytes| - 1);
            Bytes(Text(bytes)[j := c], |bytes|) == if r.None? then None else Some([bytes[0]] + r.value)
  {
    var s := Text(bytes)[j := c];
    assert s[2..] == Text(bytes[1..])[j - 2 := c];
    assert Hex2(s) == bytes[0];
  }

  lemma {:induction false} SumUpdated(bytes: seq<Byte>, k: nat, b: Byte)
    requires k < |bytes|
    ensures Sum(bytes[k := b]) == Sum(bytes) - bytes[k] + b
    decreases bytes
  {
    if k == 0 {
      assert bytes[k := b][1..] == bytes[1..];
    } else {
      assert bytes[k := b][1..] == bytes[1..][k - 1 := b];
      SumUpdated(bytes[1..], k - 1, b);
    }
  }

  lemma {:induction false} DigitAt(bytes: seq<Byte>, j: nat)
    requires j < 2 * |bytes|
    ensures Text(bytes)[j] == Digit(if j % 2 == 0 then bytes[j / 2] / 16 else bytes[j / 2] % 16)
    decreases bytes
  {
    if j >= 2 {
      DigitAt(bytes[1..], j - 2);
      assert Text(bytes)[j] == Text(bytes[1..])[j - 2];
    }
  }

  /** A replaced digit changes the byte, unless it is the same digit. */
  lemma RedigitDiffers(b: Byte, low: bool, d: nat)
    requires d < 16
    ensures Redigit(b, low, d) == b <==> d == if low then b % 16 else b / 16
  {
  }

  lemma SumOff(sum: nat, b: Byte, b': Byte)
    requires sum % 256 == 255 && b != b' && b <= sum
    ensures (sum - b + b') % 256 != 255
  {
  }

  /** A record's bytes with a wrong byte among them. */
  lemma {:induction false} WrongByte(bytes: seq<Byte>, k: nat, b: Byte, s: string)
    requires |bytes| >= 5 && k < |bytes| && (|bytes| + Sum(bytes)) % 256 == 255
    requires Bytes(s, |bytes|) == Some(bytes[k := b])
    ensures b != bytes[k] ==> Fields('3', |bytes|, s) == BadChecksum
    ensures b == bytes[k] ==> Fields('3', |bytes|, s) == Fields('3', |bytes|, Text(bytes))
  {
    FieldsFrom('3', bytes[k := b], s);
    if b != bytes[k] {
      WrongSum(bytes, k, b);
    } else {
      assert bytes[k := b] == bytes;
      FieldsOf('3', bytes, |bytes|);
    }
  }

  lemma WrongSum(bytes: seq<Byte>, k: nat, b: Byte)
    requires k < |bytes| && (|bytes| + Sum(bytes)) % 256 == 255 && b != bytes[k]
    ensures (|bytes| + Sum(bytes[k := b])) % 256 != 255
  {
    SumUpdated(bytes, k, b);
    SumUpdated(bytes, k, 0);
    SumOff(|bytes| + Sum(bytes), bytes[k], b);
  }

  lemma {:induction false} FieldsDamaged(bytes: seq<Byte>, j: nat, c: char)
    requires |bytes| >= 5 && j < 2 * |bytes| && (|bytes| + Sum(bytes)) % 256 == 255
    ensures Fields('3', |bytes|, Text(bytes)[j := c]) ==
      if Hex1(c) == Hex1(Text(bytes)[j]) then Fields('3', |bytes|, Text(bytes))
      else if Hex1(c) < 0 then NoRecord
      else BadChecksum
  {
    DamagedBytes(bytes, j, c);
    DigitAt(bytes, j);
    if Hex1(c) >= 0 {
      var k := j / 2;
      RedigitDiffers(bytes[k], j % 2 == 1, Hex1(c));
      WrongByte(bytes, k, Redigit(bytes[k], j % 2 == 1, Hex1(c)), Text(bytes)[j := c]);
    }
  }

  /** One changed character after the length field is noticed, exactly unless it stands for
      the same digit. */
  lemma OneDigitIsChecked(address: nat, data: seq<Byte>, i: nat, c: char)
    requires address < WORD && |data| <= 250 && 4 <= i < |DataRecord(address, data)|
    ensures Decode(DataRecord(address, data)[i := c]) ==
      if Hex1(c) == Hex1(DataRecord(address, data)[i]) then Decode(DataRecord(address, data))
      else if Hex1(c) < 0 then NoRecord
      else BadChecksum
  {
    var line, body := DataRecord(address, data), Body(address, data);
    var rest, j := body[1..], i - 4;
    DecodeDamaged(address, data, i, c);
    assert line[i] == Text(body)[i - 2] == Text(rest)[j];
    BodySum(address, data);
    assert Sum(body) == body[0] + Sum(rest);
    FieldsDamaged(rest, j, c);
    DecodeTyped('3', body);
  }

  /** The type is outside the checksum: a record with another type is read with that type, whatever it is; only
      unknown types are reported, and type 5, of which only two address bytes and a sum are read. */
  lemma TypeIsNotChecked(address: nat, data: seq<Byte>, c: char)
    requires address < WORD && |data| <= 250
    ensures var body, a := Body(address, data), AddressLength(c);
            var rest := body[1..];
            Decode(DataRecord(address, data)[1 := c]) ==
            if !Known(c) then BadType
            else if c != '5' then Record(c, Value(rest[..a]), |rest| - 1 - a, rest[a..|rest| - 1])
            else if (body[0] + Sum(rest[..3])) % 256 != 255 then BadChecksum
            else Record('5', Value(rest[..2]), 0, [])
  {
    var body := Body(address, data);
    TypeDigit(c, body);
    DecodeTyped(c, body);
    if c == '5' {
      CountFields(body[1..], body[0]);
    } else {
      BodyFieldsOf(c, address, data);
    }
  }

  lemma TypeDigit(c: char, body: seq<Byte>)
    ensures Typed('3', body)[1 := c] == Typed(c, body)
  {
  }

  lemma {:induction false} CountFields(rest: seq<Byte>, m: Byte)
    requires |rest| >= 3
    ensures Fields('5', m, Text(rest)) ==
            if (m + Sum(rest[..3])) % 256 != 255 then BadChecksum else Record('5', Value(rest[..2]), 0, [])
  {
    FieldsCut('5', rest, m);
  }

  /** Its bytes as a record of another type: the sum does not depend on the type. */
  lemma BodyFieldsOf(c: char, address: nat, data: seq<Byte>)
    requires address < WORD && |data| <= 250 && c != '5'
    ensures var rest, a := Body(address, data)[1..], AddressLength(c);
            Fields(c, |rest|, Text(rest)) == Record(c, Value(rest[..a]), |rest| - 1 - a, rest[a..|rest| - 1])
  {
    var body := Body(address, data);
    BodySum(address, data);
    assert Sum(body) == body[0] + Sum(body[1..]);
    FieldsOf(c, body[1..], |body| - 1);
  }

  /** So one damaged digit can turn a data record into a silent end of the download. */
  lemma DataBecomesEnd(address: nat, data: seq<Byte>)
    requires address < WORD && |data| <= 250
    ensures Decode(DataRecord(address, data)[1 := '7']) == Record('7', address, |data|, data)
  {
    TypeDigit('7', Body(address, data));
    DecodeBody('7', address, data);
  }

  lemma {:induction false} BytesPrefix(bytes: seq<Byte>, n: nat)
    ensures Bytes(Text(bytes), n) == if n <= |bytes| then Some(bytes[..n]) else None
    decreases n
  {
    if n > 0 && bytes != [] {
      var tail := bytes[1..];
      BytesPrefix(tail, n - 1);
      FirstByte(bytes);
      assert Text(bytes)[2..] == Text(tail);
      assert n <= |bytes| ==> bytes[..n] == [bytes[0]] + tail[..n - 1];
    }
  }

  /** The fields of a record read with any type and any length. */
  lemma {:induction false} FieldsCut(kind: char, rest: seq<Byte>, m: Byte)
    ensures var a, count := AddressLength(kind), DataCount(kind, m);
            var n := a + NonNegative(count) + 1;
            Fields(kind, m, Text(rest)) ==
            if n > |rest| then NoRecord
            else if (m + Sum(rest[..n])) % 256 != 255 then BadChecksum
            else Record(kind, Value(rest[..a]), count, rest[a..n - 1])
  {
    var a, count := AddressLength(kind), DataCount(kind, m);
    var n := a + NonNegative(count) + 1;
    BytesPrefix(rest, n);
    if n <= |rest| {
      assert rest[..n][..a] == rest[..a] && rest[..n][a..n - 1] == rest[a..n - 1];
    }
  }

  lemma {:induction false} DataFieldsCut(rest: seq<Byte>, m: Byte)
    requires |rest| >= 5
    ensures var n := if m < 5 then 5 else m;
            Fields('3', m, Text(rest)) ==
            if n > |rest| then NoRecord
            else if (m + Sum(rest[..n])) % 256 != 255 then BadChecksum
            else Record('3', Value(rest[..4]), m - 5, rest[4..n - 1])
  {
    FieldsCut('3', rest, m);
  }

  /** A wrong length `m` is reported when it is too large; when it is too small the record is cut short, and
      reported unless the sum of the shorter record happens to be right. */
  lemma LengthDamage(address: nat, data: seq<Byte>, m: Byte, rest: seq<Byte>)
    requires address < WORD && |data| <= 250 && m != |data| + 5 && rest == Body(address, data)[1..]
    ensures var n := if m < 5 then 5 else m;
            Decode(Typed('3', Body(address, data)[0 := m])) ==
            if n > |rest| then NoRecord
            else if (m + Sum(rest[..n])) % 256 != 255 then BadChecksum
            else Record('3', address, m - 5, data[..n - 5])
  {
    LengthRead(Body(address, data), m);
    DataFieldsCut(rest, m);
    BodySlices(address, data, if m < 5 then 5 else m);
  }

  lemma LengthRead(body: seq<Byte>, m: Byte)
    requires body != []
    ensures Decode(Typed('3', body[0 := m])) == Fields('3', m, Text(body[1..]))
  {
    assert body[0 := m][1..] == body[1..];
    DecodeTyped('3', body[0 := m]);
  }

  lemma BodySlices(address: nat, data: seq<Byte>, n: nat)
    requires address < WORD && |data| <= 250 && n >= 5
    ensures var rest := Body(address, data)[1..];
            Value(rest[..4]) == address && (n <= |rest| ==> |data| >= n - 5 && rest[4..n - 1] == data[..n - 5])
  {
    BodyFields(address, data);
    AddressValue(address);
    var rest := Body(address, data)[1..];
    if n <= |rest| {
      assert rest[4..n - 1] == rest[4..|data| + 4][..n - 5];
    }
  }

  lemma ShortSum()
    ensures Sum(Body(0, [250])[1..][..5]) == 250
  {
    var z: seq<Byte> := [0, 0, 0, 0];
    assert Body(0, [250])[1..][..5] == z + [250];
    SumConcat(z, [250]);
    assert z[1..] == [0, 0, 0] && z[1..][1..] == [0, 0] && z[1..][1..][1..] == [0] && z[1..][1..][1..][1..] == [];
    assert Sum([250]) == 250 by { assert [250][1..] == []; }
  }

  lemma LengthDigit(body: seq<Byte>)
    requires body != [] && body[0] == 6
    ensures Typed('3', body)[3 := '5'] == Typed('3', body[0 := 5])
  {
    var rest := body[1..];
    assert body[0 := 5][1..] == rest;
    assert Text(body) == Pair(6) + Text(rest) && Text(body[0 := 5]) == Pair(5) + Text(rest);
    assert Pair(6) == ['0', '6'] && Pair(5) == ['0', '5'];
  }

  /** That happens: the record of the byte 250 at address 0, with the length digit 6 read as 5, is taken for a
      record without data. */
  lemma LengthDigitCanPass()
    ensures Decode(DataRecord(0, [250])[3 := '5']) == Record('3', 0, 0, [])
  {
    var body := Body(0, [250]);
    ShortSum();
    LengthDigit(body);
    LengthRead(body, 5);
    DataFieldsCut(body[1..], 5);
    BodySlices(0, [250], 5);
  }

  lemma DecodeDamaged(address: nat, data: seq<Byte>, i: nat, c: char)
    requires address < WORD && |data| <= 250 && 4 <= i < |DataRecord(address, data)|
    ensures Decode(DataRecord(address, data)[i := c])
      == Fields('3', |data| + 5, Text(Body(address, data)[1..])[i - 4 := c])
  {
    var body := Body(address, data);
    var s := DataRecord(address, data)[i := c];
    var t := s[1..];
    assert t[0] == '3' && t[1..][..2] == Text(body)[..2];
    assert Hex2(t[1..]) == body[0];
    assert t[3..] == Text(body[1..])[i - 4 := c];
  }
}
