/** What the block check is worth: a packet is accepted exactly when its check is right, and one
    flipped bit behind the length is always noticed. */
module KermitCheck {
  import opened Machine
  import opened KermitFrame

  // ----------------------------------------------------------- the check

  /** The two values differ in exactly one of the low eight bits. */
  predicate OneBit(a: int, b: int) {
    var d := if a < b then b - a else a - b;
    d in [1, 2, 4, 8, 16, 32, 64, 128]
  }

  /** The check of the protocol manual on the low eight bits of the sum: six bits, with the two above them added. */
  lemma CheckOfLowBits(q: nat, high: nat, low: nat)
    requires high < 4 && low < 64
    ensures Check(256 * q + 64 * high + low) == ToChar((low + high) % 64)
  {
    var sum := 256 * q + 64 * high + low;
    ModUnique(sum, 64, 4 * q + high, low);
    ModUnique(4 * q + high, 4, q, high);
    ModUnique(sum + high, 64, 4 * q + high + (low + high) / 64, (low + high) % 64);
  }

  /** It changes with every bit of the sum: `carry` is the carry out of the low six bits, and `over` the one out
      of the two above them. */
  lemma CheckChanges(sum: nat, d: nat)
    requires d in [1, 2, 4, 8, 16, 32, 64, 128]
    ensures Check(sum) != Check(sum + d)
  {
    var q, high, low := sum / 256, sum / 64 % 4, sum % 64;
    assert sum == 256 * q + 64 * high + low;
    var carry := if low + d % 64 >= 64 then 1 else 0;
    var over := if high + d / 64 + carry >= 4 then 1 else 0;
    var high', low' := high + d / 64 + carry - 4 * over, low + d % 64 - 64 * carry;
    assert sum + d == 256 * (q + over) + 64 * high' + low';
    CheckOfLowBits(q, high, low);
    CheckOfLowBits(q + over, high', low');
    SixBitsDiffer(high, low, high', low');
  }

  lemma SixBitsDiffer(high: nat, low: nat, high': nat, low': nat)
    requires high < 4 && low < 64 && high' < 4 && low' < 64
    requires (high' + low') - (high + low) !in [-64, 0, 64]
    ensures ToChar((low + high) % 64) != ToChar((low' + high') % 64)
  {
  }

  lemma OneBitChanges(a: nat, b: nat)
    requires OneBit(a, b)
    ensures Check(a) != Check(b)
  {
    if a < b { CheckChanges(a, b - a); } else { CheckChanges(b, a - b); }
  }

  // ------------------------------------------------- which packets are accepted

  predicate Accepted(r: Reading) { r.Got? && r.packet.ok }

  /** Data, check and end character are accepted exactly when the data is printable and the check is right. */
  lemma {:induction false} BodyAccepted(n: Byte, kind: Byte, s: seq<Byte>, left: nat, sum: nat)
    requires 1 <= left < |s|
    ensures Accepted(ReadBody(n, kind, s, left, sum)) <==>
            Printable(s[..left - 1]) && s[left - 1] == Check(sum + Sum(s[..left - 1])) && s[left] == CR
    decreases left
  {
    if left > 1 {
      SumHead(s[..left - 1]);
      assert s[..left - 1][1..] == s[1..][..left - 2];
      BodyAccepted(n, kind, s[1..], left - 1, sum + s[0]);
      PrintableFrom(s[..left - 1], 1);
    } else {
      assert s[..0] == [];
    }
  }

  lemma SumFrom(s: seq<Byte>, k: nat)
    requires k <= |s|
    ensures Sum(s) == Sum(s[..k]) + Sum(s[k..])
  {
    assert s == s[..k] + s[k..];
    SumAppend(s[..k], s[k..]);
  }

  /** A short packet from its length character on: the check counts all characters before it. */
  lemma ShortAccepted(s: seq<Byte>)
    requires s != [] && !IsControl(s[0]) && 3 <= UnChar(s[0]) && UnChar(s[0]) + 2 <= |s|
    ensures var len := UnChar(s[0]);
            Accepted(ReadPacket(s)) <==> Printable(s[..len]) && s[len] == Check(Sum(s[..len])) && s[len + 1] == CR
  {
    var len := UnChar(s[0]);
    var t := s[3..];
    SumFrom(s[..len], 3);
    Sum3Is(s[0], s[1], s[2]);
    assert s[..len][..3] == [s[0], s[1], s[2]] && s[..len][3..] == t[..len - 3];
    PrintableFrom(s[..len], 3);
    BodyAccepted(UnChar(s[1]), s[2], t, len - 2, Sum3(s[0], s[1], s[2]));
  }

  lemma PrintableFrom(s: seq<Byte>, k: nat)
    requires k <= |s|
    ensures Printable(s) <==> (forall i | 0 <= i < k :: !IsControl(s[i])) && Printable(s[k..])
  {
    forall i | k <= i < |s| ensures s[i] == s[k..][i - k] {
    }
  }

  /** The header of an extended packet. */
  predicate HeaderRight(s: seq<Byte>)
    requires |s| >= 6
  {
    && !IsControl(s[1]) && !IsControl(s[2]) && !IsControl(s[3]) && !IsControl(s[4])
    && s[5] == Check(Sum(s[..5]))
  }

  lemma SumOfFive(s: seq<Byte>)
    requires |s| >= 5
    ensures Sum(s[..5]) == Sum3(Sum3(s[0], s[1], s[2]), s[3], s[4])
  {
    SumFrom(s[..5], 3);
    assert s[..5][..3] == [s[0], s[1], s[2]] && s[..5][3..] == [s[3], s[4]];
    Sum3Is(s[0], s[1], s[2]);
    Sum3Is(s[3], s[4], 0);
    assert [s[3], s[4], 0][..2] == [s[3], s[4]];
  }

  /** An extended packet: the header check counts the five characters before it, the block check all before that. */
  lemma LongAccepted(s: seq<Byte>, end: nat)
    requires |s| >= 6 && s[0] == SPACE && end == 5 + Extended(s[3], s[4])
    ensures !HeaderRight(s) ==> !Accepted(ReadPacket(s))
    ensures HeaderRight(s) && 6 <= end && end + 1 < |s| ==>
              (Accepted(ReadPacket(s)) <==> Printable(s[6..end]) && s[end] == Check(Sum(s[..end])) && s[end + 1] == CR)
  {
    LongRead(s);
    if HeaderRight(s) && 6 <= end && end + 1 < |s| {
      SumOfLong(s, end);
      assert s[6..][..end - 6] == s[6..end];
      BodyAccepted(UnChar(s[1]), s[2], s[6..], end - 5, Sum(s[..5]) + s[5]);
    }
  }

  lemma LongRead(s: seq<Byte>)
    requires |s| >= 6 && s[0] == SPACE
    ensures !HeaderRight(s) ==> !Accepted(ReadPacket(s))
    ensures HeaderRight(s) ==>
              ReadPacket(s) == ReadBody(UnChar(s[1]), s[2], s[6..], Extended(s[3], s[4]), Sum(s[..5]) + s[5])
  {
    SumOfFive(s);
    LongEnters(s);
    LongBody(UnChar(s[1]), s[2], s[3..], Sum3(s[0], s[1], s[2]), s[3], s[4], s[5], s[6..], Sum(s[..5]));
  }

  lemma LongEnters(s: seq<Byte>)
    requires |s| >= 6 && s[0] == SPACE
    ensures if IsControl(s[1]) || IsControl(s[2]) then !Accepted(ReadPacket(s))
            else ReadPacket(s) == ReadLong(UnChar(s[1]), s[2], s[3..], Sum3(s[0], s[1], s[2]))
    ensures s[3..][0] == s[3] && s[3..][1] == s[4] && s[3..][2] == s[5] && s[3..][3..] == s[6..]
  {
  }

  lemma LongBody(n: Byte, kind: Byte, t: seq<Byte>, sum: nat, hi: Byte, lo: Byte, check: Byte, rest: seq<Byte>, total: nat)
    requires |t| >= 3 && t[0] == hi && t[1] == lo && t[2] == check && t[3..] == rest && total == Sum3(sum, hi, lo)
    ensures if !IsControl(hi) && !IsControl(lo) && check == Check(total)
            then ReadLong(n, kind, t, sum) == ReadBody(n, kind, rest, Extended(hi, lo), total + check)
            else !Accepted(ReadLong(n, kind, t, sum))
  {
  }

  lemma SumOfLong(s: seq<Byte>, end: nat)
    requires 6 <= end <= |s|
    ensures Sum(s[..end]) == Sum(s[..5]) + s[5] + Sum(s[6..end])
  {
    SumFrom(s[..end], 5);
    SumHead(s[5..end]);
    assert s[..end][..5] == s[..5] && s[..end][5..] == s[5..end] && s[5..end][1..] == s[6..end];
  }

  // ---------------------------------------------------------- one flipped bit

  lemma {:induction false} SumUpdate(s: seq<Byte>, i: nat, b: Byte)
    requires i < |s|
    ensures Sum(s[i := b]) == Sum(s) - s[i] + b
  {
    SumFrom(s, i);
    SumHead(s[i..]);
    SumFrom(s[i := b], i);
    SumHead(s[i := b][i..]);
    assert s[i := b][..i] == s[..i] && s[i := b][i..][1..] == s[i..][1..];
  }

  lemma FlipChanges(s: seq<Byte>, end: nat, i: nat, b: Byte)
    requires i < end <= |s| && OneBit(s[i], b)
    ensures Check(Sum(s[i := b][..end])) != Check(Sum(s[..end]))
  {
    SumUpdate(s[..end], i, b);
    assert s[i := b][..end] == s[..end][i := b];
    OneBitChanges(Sum(s[..end]), Sum(s[..end][i := b]));
  }

  lemma ShortFlip(n: Byte, kind: Byte, data: seq<Byte>, i: nat, b: Byte)
    requires Sendable(n, kind, data) && |data| <= MAX_SHORT
    requires var s := Encode(n, kind, data)[1..]; 1 <= i < |s| && OneBit(s[i], b)
    ensures !Accepted(ReadPacket(Encode(n, kind, data)[1..][i := b]))
  {
    var s, len := Encode(n, kind, data)[1..], |data| + 3;
    ReadEncoded(n, kind, data);
    assert s[0] == Header(n, kind, |data|)[0];
    ShortAccepted(s);
    ShortAccepted(s[i := b]);
    if i < len { FlipChanges(s, len, i, b); }
  }

  lemma LongFlip(n: Byte, kind: Byte, data: seq<Byte>, i: nat, b: Byte)
    requires Sendable(n, kind, data) && |data| > MAX_SHORT
    requires var s := Encode(n, kind, data)[1..]; 1 <= i < |s| && OneBit(s[i], b)
    ensures !Accepted(ReadPacket(Encode(n, kind, data)[1..][i := b]))
  {
    var s := Encode(n, kind, data)[1..];
    LongIs(n, kind, data);
    if i < 6 {
      HeaderFlip(s, i, b);
    } else {
      TailFlip(s, |data| + 6, i, b);
    }
  }

  lemma LongIs(n: Byte, kind: Byte, data: seq<Byte>)
    requires Sendable(n, kind, data) && |data| > MAX_SHORT
    ensures var s := Encode(n, kind, data)[1..];
            && |s| == |data| + 8 && s[0] == SPACE && 5 + Extended(s[3], s[4]) == |data| + 6 && Accepted(ReadPacket(s))
  {
    var s, h := Encode(n, kind, data)[1..], Header(n, kind, |data|);
    ReadEncoded(n, kind, data);
    ExtendedHeader(n, kind, |data|);
    assert s[0] == h[0] && s[3] == h[3] && s[4] == h[4];
  }

  lemma HeaderFlip(s: seq<Byte>, i: nat, b: Byte)
    requires |s| >= 6 && s[0] == SPACE && Accepted(ReadPacket(s)) && 1 <= i < 6 && OneBit(s[i], b)
    ensures !Accepted(ReadPacket(s[i := b]))
  {
    LongRead(s);
    LongRead(s[i := b]);
    if i < 5 {
      FlipChanges(s, 5, i, b);
    } else {
      assert s[i := b][..5] == s[..5];
    }
  }

  lemma TailFlip(s: seq<Byte>, end: nat, i: nat, b: Byte)
    requires |s| == end + 2 >= 8 && s[0] == SPACE && end == 5 + Extended(s[3], s[4]) && Accepted(ReadPacket(s))
    requires 6 <= i < |s| && OneBit(s[i], b)
    ensures !Accepted(ReadPacket(s[i := b]))
  {
    LongAccepted(s, end);
    LongAccepted(s[i := b], end);
    if i < end {
      FlipChanges(s, end, i, b);
    } else {
      assert s[i := b][..end] == s[..end];
    }
  }

  /** One flipped bit anywhere behind the length character, in short and extended packets: not accepted. */
  lemma OneBitIsRefused(n: Byte, kind: Byte, data: seq<Byte>, i: nat, b: Byte)
    requires Sendable(n, kind, data) && 2 <= i < |Encode(n, kind, data)| && OneBit(Encode(n, kind, data)[i], b)
    ensures !Accepted(ReadPacket(Encode(n, kind, data)[i := b][1..]))
  {
    var e := Encode(n, kind, data);
    assert e[i := b][1..] == e[1..][i - 1 := b];
    if |data| <= MAX_SHORT {
      ShortFlip(n, kind, data, i - 1, b);
    } else {
      LongFlip(n, kind, data, i - 1, b);
    }
  }

  // ---------------------------------------------------------- packets by the byte

  /** The break packet number 1: the sum 134 has the check 8, sent as '('. */
  lemma BreakPacket()
    ensures Encode(1, TYPE_B, []) == [1, 35, 33, 66, 40, 13]
    ensures ReadPacket([35, 33, 66, 40, 13]) == Got(Packet(1, 66, [], true), [])
  {
    var h: seq<Byte> := [35, 33, 66];
    assert Header(1, TYPE_B, 0) == h;
    Sum3Is(35, 33, 66);
    assert h + [] == h;
    ReadEncoded(1, TYPE_B, []);
    assert Encode(1, TYPE_B, [])[1..] == [35, 33, 66, 40, 13];
  }

  /** Control characters have the three bits of 0xE0 clear, and a length digit stands for 95 of the next one. */
  lemma CharactersAre(c: Byte)
    ensures IsControl(c) <==> c / 32 == 0
    ensures Extended(33, 32) == 95 && Extended(32, 33) == 1
  {
  }
}
