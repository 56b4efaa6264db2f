/** Kermit packets as bytes on the line: how the receiver reads one, how a sender
    forms one, and how the receiver builds its own replies. */
module KermitFrame {
  import opened Machine

  const SOH: Byte := 0x01
  const ETX: Byte := 0x03
  const CR: Byte := 0x0D
  const SPACE: Byte := 0x20
  const TYPE_S: Byte := 83
  const TYPE_D: Byte := 68
  const TYPE_B: Byte := 66
  const TYPE_Y: Byte := 89
  const TYPE_N: Byte := 78

  /** tochar and untochar: add or subtract a space, modulo 256. */
  function ToChar(x: Byte): Byte { if x < 224 then x + SPACE else x - 224 }
  function UnChar(c: Byte): Byte { if c >= SPACE then c - SPACE else c + 224 }

  /** The single-character block check of a byte sum, as it is sent. */
  function Check(sum: nat): Byte {
    ToChar((sum + sum / 64 % 4) % 64)
  }

  function Sum3(a: nat, b: nat, c: nat): nat { a + b + c }

  /** The length in the two characters of an extended header. */
  function Extended(hi: Byte, lo: Byte): nat {
    UnChar(hi) as int * 95 + UnChar(lo) as int
  }

  function Sum(s: seq<Byte>): nat {
    if s == [] then 0 else Sum(s[..|s| - 1]) + s[|s| - 1]
  }

  lemma {:induction false} SumAppend(a: seq<Byte>, b: seq<Byte>)
    ensures Sum(a + b) == Sum(a) + Sum(b)
  {
    if b == [] {
      assert a + b == a;
    } else {
      assert (a + b)[..|a + b| - 1] == a + b[..|b| - 1];
      SumAppend(a, b[..|b| - 1]);
    }
  }

  // ------------------------------------------------------------ the reader

  /** A packet as the receiver took it: `data` is what had come in when it ended,
      `ok` whether both checks and the end character were right. */
  datatype Packet = Packet(n: Byte, kind: Byte, data: seq<Byte>, ok: bool)

  /** Reading one packet, from the character after SOH. */
  datatype Reading =
    | Quiet                                   // the line stopped in the middle
    | BadHeader(rest: seq<Byte>)              // broken before the sequence number
    | Got(packet: Packet, rest: seq<Byte>)

  /** Prepend data that came in before. */
  function Prepend(c: Byte, r: Reading): Reading {
    if r.Got? then r.(packet := r.packet.(data := [c] + r.packet.data)) else r
  }

  predicate IsControl(c: Byte) { c < SPACE }

  /** Data, block check and end character, `left` counting data and check. */
  function ReadBody(n: Byte, kind: Byte, s: seq<Byte>, left: int, sum: nat): (r: Reading)
    ensures r.Got? ==> |r.rest| < |s|
    ensures !r.BadHeader?
    decreases |s|
  {
    if s == [] then Quiet
    else if IsControl(s[0]) then Got(Packet(n, kind, [], false), s[1..])
    else if left > 1 then Prepend(s[0], ReadBody(n, kind, s[1..], left - 1, sum + s[0]))
    else if s[0] != Check(sum) then Got(Packet(n, kind, [], false), s[1..])
    else if |s| == 1 then Quiet
    else Got(Packet(n, kind, [], s[1] == CR), s[2..])
  }

  /** The two length characters and the header check of an extended-length packet. */
  function ReadLong(n: Byte, kind: Byte, s: seq<Byte>, sum: nat): (r: Reading)
    ensures r.Got? ==> |r.rest| < |s|
    ensures !r.BadHeader?
  {
    if s == [] then Quiet
    else if IsControl(s[0]) then Got(Packet(n, kind, [], false), s[1..])
    else if |s| == 1 then Quiet
    else if IsControl(s[1]) then Got(Packet(n, kind, [], false), s[2..])
    else if |s| == 2 then Quiet
    else LongTail(n, kind, s, Check(Sum3(sum, s[0], s[1])), Extended(s[0], s[1]), Sum3(sum, s[0], s[1]) + s[2])
  }

  /** ... once its length is known and its header check is computed. */
  function LongTail(n: Byte, kind: Byte, s: seq<Byte>, check: Byte, length: int, sum: nat): (r: Reading)
    requires |s| >= 3
    ensures r.Got? ==> |r.rest| < |s|
    ensures !r.BadHeader?
  {
    if IsControl(s[2]) || s[2] != check then Got(Packet(n, kind, [], false), s[3..])
    else ReadBody(n, kind, s[3..], length, sum)
  }

  function ReadPacket(s: seq<Byte>): (r: Reading)
    ensures r.Got? || r.BadHeader? ==> |r.rest| < |s|
  {
    if s == [] then Quiet
    else if IsControl(s[0]) then BadHeader(s[1..])
    else if |s| == 1 then Quiet
    else if IsControl(s[1]) then BadHeader(s[2..])
    else if |s| == 2 then Quiet
    else if IsControl(s[2]) then Got(Packet(UnChar(s[1]), 0, [], false), s[3..])
    else if UnChar(s[0]) == 0 then ReadLong(UnChar(s[1]), s[2], s[3..], Sum3(s[0], s[1], s[2]))
    else ReadBody(UnChar(s[1]), s[2], s[3..], UnChar(s[0]) - 2, Sum3(s[0], s[1], s[2]))
  }

  /** A packet that was read completely is read the same way whatever follows. */
  lemma {:induction false} BodyIsLocal(n: Byte, kind: Byte, s: seq<Byte>, left: int, sum: nat, more: seq<Byte>)
    requires ReadBody(n, kind, s, left, sum).Got?
    ensures ReadBody(n, kind, s + more, left, sum)
         == ReadBody(n, kind, s, left, sum).(rest := ReadBody(n, kind, s, left, sum).rest + more)
    decreases |s|
  {
    assert (s + more)[0] == s[0] && (s + more)[1..] == s[1..] + more;
    if !IsControl(s[0]) && left > 1 {
      BodyIsLocal(n, kind, s[1..], left - 1, sum + s[0], more);
    } else if |s| > 1 {
      assert (s + more)[2..] == s[2..] + more;
    }
  }

  lemma ReadIsLocal(s: seq<Byte>, more: seq<Byte>)
    requires ReadPacket(s).Got?
    ensures ReadPacket(s + more) == ReadPacket(s).(rest := ReadPacket(s).rest + more)
  {
    assert forall i | 0 <= i <= |s| :: (s + more)[i..] == s[i..] + more;
    if IsControl(s[2]) {
    } else if UnChar(s[0]) != 0 {
      BodyIsLocal(UnChar(s[1]), s[2], s[3..], UnChar(s[0]) - 2, Sum3(s[0], s[1], s[2]), more);
    } else {
      LongIsLocal(UnChar(s[1]), s[2], s[3..], Sum3(s[0], s[1], s[2]), more);
    }
  }

  lemma HeaderIsLocal(s: seq<Byte>, more: seq<Byte>)
    requires ReadPacket(s).BadHeader?
    ensures ReadPacket(s + more) == BadHeader(ReadPacket(s).rest + more)
  {
    var t := s + more;
    assert t[1..] == s[1..] + more;
    if |s| > 1 { assert t[2..] == s[2..] + more; }
  }

  lemma LongIsLocal(n: Byte, kind: Byte, s: seq<Byte>, sum: nat, more: seq<Byte>)
    requires ReadLong(n, kind, s, sum).Got?
    ensures ReadLong(n, kind, s + more, sum)
         == ReadLong(n, kind, s, sum).(rest := ReadLong(n, kind, s, sum).rest + more)
  {
    var t := s + more;
    assert t[1..] == s[1..] + more;
    if |s| > 1 {
      assert t[2..] == s[2..] + more;
    }
    if |s| > 2 && !IsControl(s[0]) && !IsControl(s[1]) {
      LongTailIsLocal(n, kind, s, Check(Sum3(sum, s[0], s[1])), Extended(s[0], s[1]), Sum3(sum, s[0], s[1]) + s[2], more);
    }
  }

  lemma LongTailIsLocal(n: Byte, kind: Byte, s: seq<Byte>, check: Byte, length: int, sum: nat, more: seq<Byte>)
    requires |s| >= 3 && LongTail(n, kind, s, check, length, sum).Got?
    ensures LongTail(n, kind, s + more, check, length, sum)
         == LongTail(n, kind, s, check, length, sum).(rest := LongTail(n, kind, s, check, length, sum).rest + more)
  {
    assert (s + more)[3..] == s[3..] + more;
    if !IsControl(s[2]) && s[2] == check {
      BodyIsLocal(n, kind, s[3..], length, sum, more);
    }
  }

  /** A packet that is not complete ends at a control character, damaged. */
  lemma {:induction false} BodyEndsAtControl(n: Byte, kind: Byte, s: seq<Byte>, left: int, sum: nat, c: Byte, more: seq<Byte>)
    requires ReadBody(n, kind, s, left, sum).Quiet? && IsControl(c) && c != CR
    ensures var r := ReadBody(n, kind, s + ([c] + more), left, sum); r.Got? && !r.packet.ok && r.rest == more
    decreases |s|
  {
    var t := s + ([c] + more);
    if s == [] {
      assert t == [c] + more;
    } else {
      assert t[0] == s[0] && t[1..] == s[1..] + ([c] + more);
      if left > 1 {
        BodyEndsAtControl(n, kind, s[1..], left - 1, sum + s[0], c, more);
      } else {
        assert t[1] == c && t[2..] == more;
      }
    }
  }

  lemma LongEndsAtControl(n: Byte, kind: Byte, s: seq<Byte>, sum: nat, c: Byte, more: seq<Byte>)
    requires ReadLong(n, kind, s, sum).Quiet? && IsControl(c) && c != CR
    ensures var r := ReadLong(n, kind, s + ([c] + more), sum); r.Got? && !r.packet.ok && r.rest == more
  {
    var t := s + ([c] + more);
    assert t[|s|] == c && t[|s| + 1..] == more;
    if |s| > 2 {
      assert t[3..] == s[3..] + ([c] + more);
      BodyEndsAtControl(n, kind, s[3..], Extended(s[0], s[1]), Sum3(sum, s[0], s[1]) + s[2], c, more);
    }
  }

  lemma EndsAtControl(s: seq<Byte>, c: Byte, more: seq<Byte>)
    requires ReadPacket(s).Quiet? && IsControl(c) && c != CR
    ensures var r := ReadPacket(s + ([c] + more)); r == BadHeader(more) || (r.Got? && !r.packet.ok && r.rest == more)
  {
    var t := s + ([c] + more);
    assert t[|s|] == c && t[|s| + 1..] == more;
    if |s| > 2 {
      assert t[3..] == s[3..] + ([c] + more);
      if UnChar(s[0]) == 0 {
        LongEndsAtControl(UnChar(s[1]), s[2], s[3..], Sum3(s[0], s[1], s[2]), c, more);
      } else {
        BodyEndsAtControl(UnChar(s[1]), s[2], s[3..], UnChar(s[0]) - 2, Sum3(s[0], s[1], s[2]), c, more);
      }
    }
  }

  // ------------------------------------------------------------ the sender

  const MAX_SHORT: nat := 91
  const MAX_LONG: nat := 95 * 95 - 2

  ghost predicate Printable(s: seq<Byte>) {
    forall i | 0 <= i < |s| :: !IsControl(s[i])
  }

  /** A packet a sender may send: sequence number below 64, printable type and data. */
  ghost predicate Sendable(n: Byte, kind: Byte, data: seq<Byte>) {
    n < 64 && !IsControl(kind) && Printable(data) && |data| <= MAX_LONG
  }

  /** LEN, SEQ, TYPE, for short packets with the length of what follows LEN,
      for long ones with LEN zero, two length characters and a header check. */
  function Header(n: Byte, kind: Byte, size: nat): seq<Byte>
    requires size <= MAX_LONG
  {
    if size <= MAX_SHORT then [ToChar(size + 3), ToChar(n), kind]
    else
      var hi, lo := ToChar((size + 1) / 95), ToChar((size + 1) % 95);
      [ToChar(0), ToChar(n), kind, hi, lo, Check(Sum3(Sum3(ToChar(0), ToChar(n), kind), hi, lo))]
  }

  lemma HeaderPrintable(n: Byte, kind: Byte, size: nat)
    requires n < 64 && !IsControl(kind) && size <= MAX_LONG
    ensures Printable(Header(n, kind, size))
  {
  }

  function Encode(n: Byte, kind: Byte, data: seq<Byte>): seq<Byte>
    requires |data| <= MAX_LONG
  {
    var h := Header(n, kind, |data|) + data;
    [SOH] + h + [Check(Sum(h)), CR]
  }

  lemma {:induction false} SumHead(s: seq<Byte>)
    requires s != []
    ensures Sum(s) == s[0] + Sum(s[1..])
  {
    assert s == [s[0]] + s[1..];
    SumAppend([s[0]], s[1..]);
    assert Sum([s[0]]) == s[0] by { assert [s[0]][..0] == []; }
  }

  lemma {:induction false} ReadBodyOf(n: Byte, kind: Byte, data: seq<Byte>, sum: nat)
    requires Printable(data)
    ensures ReadBody(n, kind, data + [Check(sum + Sum(data)), CR], |data| + 1, sum)
         == Got(Packet(n, kind, data, true), [])
    decreases |data|
  {
    if data != [] {
      SumHead(data);
      ReadBodyOf(n, kind, data[1..], sum + data[0]);
      ReadOneMore(n, kind, data, [Check(sum + Sum(data)), CR], sum);
    }
  }

  lemma ReadOneMore(n: Byte, kind: Byte, data: seq<Byte>, tail: seq<Byte>, sum: nat)
    requires data != [] && !IsControl(data[0])
    ensures ReadBody(n, kind, data + tail, |data| + 1, sum)
      == Prepend(data[0], ReadBody(n, kind, data[1..] + tail, |data|, sum + data[0]))
  {
    assert (data + tail)[1..] == data[1..] + tail;
  }

  lemma Sum3Is(a: Byte, b: Byte, c: Byte)
    ensures Sum([a, b, c]) == Sum3(a, b, c)
  {
    assert [a, b, c][..2] == [a, b];
    assert Sum([a, b]) == Sum3(a, b, 0) by { assert [a, b][..1] == [a]; assert Sum([a]) == a; }
  }

  lemma {:induction false} ReadShortOf(n: Byte, kind: Byte, s: seq<Byte>, data: seq<Byte>, sum: nat)
    requires |s| >= 3 && Printable(data) && !IsControl(s[0]) && !IsControl(s[1]) && !IsControl(s[2])
    requires UnChar(s[0]) as int == |data| + 3 && UnChar(s[1]) == n && s[2] == kind && sum == Sum3(s[0], s[1], s[2])
    requires s[3..] == data + [Check(sum + Sum(data)), CR]
    ensures ReadPacket(s) == Got(Packet(n, kind, data, true), [])
  {
    ReadBodyOf(n, kind, data, sum);
    assert ReadPacket(s) == ReadBody(n, kind, s[3..], |data| + 1, sum);
  }

  lemma ReadShort(n: Byte, kind: Byte, data: seq<Byte>)
    requires Sendable(n, kind, data) && |data| <= MAX_SHORT
    ensures ReadPacket(Encode(n, kind, data)[1..]) == Got(Packet(n, kind, data, true), [])
  {
    var h := Header(n, kind, |data|);
    var s := Encode(n, kind, data)[1..];
    SumAppend(h, data);
    Sum3Is(h[0], h[1], h[2]);
    assert s[3..] == data + [Check(Sum(h) + Sum(data)), CR];
    assert s[0] == h[0] && s[1] == h[1] && s[2] == h[2];
    ReadShortOf(n, kind, s, data, Sum(h));
  }

  lemma {:induction false} ReadLongOf(n: Byte, kind: Byte, t: seq<Byte>, data: seq<Byte>, sum: nat, total: nat)
    requires |t| >= 3 && Printable(data) && !IsControl(t[0]) && !IsControl(t[1])
    requires t[2] == Check(Sum3(sum, t[0], t[1])) && total == Sum3(sum, t[0], t[1]) + t[2]
    requires Extended(t[0], t[1]) == |data| + 1
    requires t[3..] == data + [Check(total + Sum(data)), CR]
    ensures ReadLong(n, kind, t, sum) == Got(Packet(n, kind, data, true), [])
  {
    ReadBodyOf(n, kind, data, total);
    assert ReadLong(n, kind, t, sum) == ReadBody(n, kind, t[3..], Extended(t[0], t[1]), total);
  }

  lemma {:induction false} SumExtendedHeader(h: seq<Byte>)
    requires |h| == 6
    ensures Sum(h) == Sum3(Sum3(h[0], h[1], h[2]), h[3], h[4]) + h[5]
  {
    assert h == [h[0], h[1], h[2]] + [h[3], h[4], h[5]];
    SumAppend([h[0], h[1], h[2]], [h[3], h[4], h[5]]);
    Sum3Is(h[0], h[1], h[2]);
    Sum3Is(h[3], h[4], h[5]);
  }

  lemma ExtendedHeader(n: Byte, kind: Byte, size: nat)
    requires n < 64 && !IsControl(kind) && MAX_SHORT < size <= MAX_LONG
    ensures var h := Header(n, kind, size);
            && |h| == 6 && Printable(h) && UnChar(h[0]) == 0 && UnChar(h[1]) == n && h[2] == kind
            && Extended(h[3], h[4]) == size + 1 && h[5] == Check(Sum3(Sum3(h[0], h[1], h[2]), h[3], h[4]))
  {
  }

  lemma ReadExtended(n: Byte, kind: Byte, data: seq<Byte>)
    requires Sendable(n, kind, data) && |data| > MAX_SHORT
    ensures ReadPacket(Encode(n, kind, data)[1..]) == Got(Packet(n, kind, data, true), [])
  {
    var h := Header(n, kind, |data|);
    ExtendedHeader(n, kind, |data|);
    SumAppend(h, data);
    SumExtendedHeader(h);
    var s, t := Encode(n, kind, data)[1..], Encode(n, kind, data)[4..];
    assert s[..6] == h && s[3..] == t && t[..3] == h[3..];
    assert t[3..] == data + [Check(Sum(h) + Sum(data)), CR];
    ReadLongOf(n, kind, t, data, Sum3(h[0], h[1], h[2]), Sum(h));
  }

  /** The reader takes back exactly what a sender formed, short or long. */
  lemma ReadEncoded(n: Byte, kind: Byte, data: seq<Byte>)
    requires Sendable(n, kind, data)
    ensures ReadPacket(Encode(n, kind, data)[1..]) == Got(Packet(n, kind, data, true), [])
  {
    if |data| <= MAX_SHORT {
      ReadShort(n, kind, data);
    } else {
      ReadExtended(n, kind, data);
    }
  }

  /** With enough characters the reader ends, keeps the number and type, and leaves a suffix. */
  lemma {:induction false} BodyEnds(n: Byte, kind: Byte, s: seq<Byte>, left: int, sum: nat)
    requires |s| >= 2 && |s| >= left + 1
    ensures var r := ReadBody(n, kind, s, left, sum);
            r.Got? && r.packet.n == n && r.packet.kind == kind && r.rest == s[|s| - |r.rest|..]
    decreases |s|
  {
    if !IsControl(s[0]) && left > 1 {
      BodyEnds(n, kind, s[1..], left - 1, sum + s[0]);
    }
  }

  /** `copy` is a damaged copy of `sent`: as long, with its SOH, length and sequence characters. */
  predicate SameEnvelope(sent: seq<Byte>, copy: seq<Byte>) {
    && |copy| == |sent| >= 6 && copy[0] == sent[0] && copy[1] == sent[1] && copy[2] == sent[2]
    && (UnChar(sent[1]) == 0 ==> copy[4] == sent[4] && copy[5] == sent[5])
  }

  lemma DamagedShortEnds(n: Byte, kind: Byte, data: seq<Byte>, copy: seq<Byte>)
    requires Sendable(n, kind, data) && |data| <= MAX_SHORT && SameEnvelope(Encode(n, kind, data), copy)
    ensures var r := ReadPacket(copy[1..]);
            r.Got? && r.packet.n == n && r.packet.kind in [0, copy[3]] && r.rest == copy[|copy| - |r.rest|..]
  {
    var s := copy[1..];
    if !IsControl(s[2]) {
      BodyEnds(n, s[2], s[3..], |data| + 1, Sum3(s[0], s[1], s[2]));
    }
  }

  lemma DamagedLongEnds(n: Byte, kind: Byte, data: seq<Byte>, copy: seq<Byte>)
    requires Sendable(n, kind, data) && |data| > MAX_SHORT && SameEnvelope(Encode(n, kind, data), copy)
    ensures var r := ReadPacket(copy[1..]);
            r.Got? && r.packet.n == n && r.packet.kind in [0, copy[3]] && r.rest == copy[|copy| - |r.rest|..]
  {
    ExtendedHeader(n, kind, |data|);
    var h, s, t := Header(n, kind, |data|), copy[1..], copy[4..];
    assert forall i | 0 <= i < 6 :: Encode(n, kind, data)[i + 1] == h[i];
    assert s[3..] == t && t[0] == h[3] && t[1] == h[4];
    if !IsControl(s[2]) && !IsControl(t[2]) && t[2] == Check(Sum3(Sum3(s[0], s[1], s[2]), t[0], t[1])) {
      BodyEnds(n, s[2], t[3..], |data| + 1, Sum3(Sum3(s[0], s[1], s[2]), t[0], t[1]) + t[2]);
    }
  }

  /** Damage that spares the length and sequence characters: the reader ends inside the
      copy and knows its number. */
  lemma DamagedCopyEnds(n: Byte, kind: Byte, data: seq<Byte>, copy: seq<Byte>)
    requires Sendable(n, kind, data) && SameEnvelope(Encode(n, kind, data), copy)
    ensures var r := ReadPacket(copy[1..]);
            r.Got? && r.packet.n == n && r.packet.kind in [0, copy[3]] && r.rest == copy[|copy| - |r.rest|..]
  {
    if |data| <= MAX_SHORT {
      DamagedShortEnds(n, kind, data, copy);
    } else {
      DamagedLongEnds(n, kind, data, copy);
    }
  }
}
