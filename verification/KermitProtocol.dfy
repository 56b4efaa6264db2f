/** What the Kermit receiver does with the packets it reads, and why a file arrives
    exactly once although data is stored before its check is known. */
module KermitProtocol {
  import opened Machine
  import opened KermitFrame

  // --------------------------------------------------------------- quoting

  /** ktrans: the character that was quoted. */
  function KTrans(c: Byte): Byte {
    if c / 32 % 4 == 2 then c - 64
    else if c % 128 == 63 then c + 64
    else c
  }

  predicate LegalQuote(q: Byte) { 33 <= q <= 62 || 96 <= q <= 126 }

  /** Control quoting as the protocol manual prescribes it for one data byte. */
  function QuoteByte(q: Byte, b: Byte): seq<Byte> {
    var low := b % 128;
    if low < 32 || low == 127 then [q, if b / 64 % 2 == 0 then b + 64 else b - 64]
    else if low == q then [q, b]
    else [b]
  }

  function Quote(q: Byte, file: seq<Byte>): seq<Byte> {
    if file == [] then [] else Quote(q, file[..|file| - 1]) + QuoteByte(q, file[|file| - 1])
  }

  /** Stored bytes and the pending-escape flag. */
  datatype Sink = Sink(out: seq<Byte>, escape: bool)

  function FeedByte(q: Byte, k: Sink, c: Byte): Sink {
    if k.escape then Sink(k.out + [KTrans(c)], false)
    else if c == q then k.(escape := true)
    else Sink(k.out + [c], false)
  }

  function Feed(q: Byte, k: Sink, data: seq<Byte>): Sink {
    if data == [] then k else FeedByte(q, Feed(q, k, data[..|data| - 1]), data[|data| - 1])
  }

  lemma {:induction false} FeedAppend(q: Byte, k: Sink, a: seq<Byte>, b: seq<Byte>)
    ensures Feed(q, k, a + b) == Feed(q, Feed(q, k, a), b)
  {
    if b == [] {
      assert a + b == a;
    } else {
      assert (a + b)[..|a + b| - 1] == a + b[..|b| - 1];
      FeedAppend(q, k, a, b[..|b| - 1]);
    }
  }

  lemma Unquoted(q: Byte, b: Byte)
    requires LegalQuote(q) && |QuoteByte(q, b)| == 2
    ensures KTrans(QuoteByte(q, b)[1]) == b
  {
  }

  lemma {:induction false} FeedQuotedByte(q: Byte, k: Sink, b: Byte)
    requires LegalQuote(q) && !k.escape
    ensures Feed(q, k, QuoteByte(q, b)) == Sink(k.out + [b], false)
    ensures Printable(QuoteByte(q, b))
  {
    var d := QuoteByte(q, b);
    assert d[..|d| - 1] == if |d| == 2 then [d[0]] else [];
    if |d| == 2 {
      assert Feed(q, k, [d[0]]) == FeedByte(q, k, d[0]) by { assert [d[0]][..0] == []; }
      Unquoted(q, b);
    }
  }

  /** Unquoting inverts quoting, for every byte string and every legal quote character. */
  lemma {:induction false} FeedQuoted(q: Byte, k: Sink, file: seq<Byte>)
    requires LegalQuote(q) && !k.escape
    ensures Feed(q, k, Quote(q, file)) == Sink(k.out + file, false)
    ensures Printable(Quote(q, file))
  {
    QuotePrintable(q, file);
    FeedQuote(q, k, file);
  }

  lemma {:induction false} QuotePrintable(q: Byte, file: seq<Byte>)
    requires LegalQuote(q)
    ensures Printable(Quote(q, file))
  {
    if file != [] {
      QuotePrintable(q, file[..|file| - 1]);
      FeedQuotedByte(q, Sink([], false), file[|file| - 1]);
    }
  }

  lemma {:induction false} FeedQuote(q: Byte, k: Sink, file: seq<Byte>)
    requires LegalQuote(q) && !k.escape
    ensures Feed(q, k, Quote(q, file)) == Sink(k.out + file, false)
  {
    if file == [] {
      assert k.out + file == k.out;
    } else {
      var front, b := file[..|file| - 1], file[|file| - 1];
      FeedQuote(q, k, front);
      FeedOne(q, k, Sink(k.out + front, false), Quote(q, front), b);
      assert k.out + front + [b] == k.out + file;
    }
  }

  lemma {:induction false} FeedOne(q: Byte, k: Sink, mid: Sink, quoted: seq<Byte>, b: Byte)
    requires LegalQuote(q) && !mid.escape && Feed(q, k, quoted) == mid
    ensures Feed(q, k, quoted + QuoteByte(q, b)) == Sink(mid.out + [b], false)
  {
    FeedAppend(q, k, quoted, QuoteByte(q, b));
    FeedQuotedByte(q, mid, b);
  }

  // ----------------------------------------------------------- the receiver

  /** What the sender asked for in its send-init packet. */
  datatype Peer = Peer(eol: Byte, padCount: Byte, padChar: Byte, quote: Byte)

  const K_ESCAPE: Byte := 0x23
  const DEFAULT_PEER: Peer := Peer(CR, 0, 0, K_ESCAPE)

  /** How many parameters are looked at: the buffer holds 20 and its last ones are ignored. */
  function ParmCount(parms: seq<Byte>): nat {
    if |parms| >= 19 then 18 else |parms|
  }

  function PeerOf(parms: seq<Byte>): Peer {
    var count := ParmCount(parms);
    Peer(if count >= 5 then UnChar(parms[4]) else CR,
         if count >= 3 then UnChar(parms[2]) else 0,
         if count >= 4 then KTrans(parms[3]) else 0,
         if count >= 6 then parms[5] else K_ESCAPE)
  }

  const OFFER: seq<Byte> := [126, 33, 32, 64, 45, 35, 78, 49, 78]
  const OFFER_LONG: seq<Byte> := [34, 32, 126, 126]

  /** The parameters sent back: one for each one received, the capabilities as a block. */
  function ReplyParms(count: nat): seq<Byte> {
    if count < 10 then OFFER[..if count < 9 then count else 9] else OFFER + OFFER_LONG
  }

  function Pad(peer: Peer): seq<Byte> { seq(peer.padCount, _ => peer.padChar) }

  /** The characters of one reply on the line. */
  function Reply(peer: Peer, n: Byte, kind: Byte, data: seq<Byte>): seq<Byte>
    requires |data| <= MAX_SHORT
  {
    var h := Header(n, kind, |data|) + data;
    Pad(peer) + ([SOH] + h + [Check(Sum(h))] + if peer.eol == 0 then [] else [peer.eol])
  }

  datatype State = State(sink: Sink, saved: Sink, lastN: int, n: Byte, peer: Peer, sent: seq<Byte>)

  const START: State := State(Sink([], false), Sink([], false), -1, 0, DEFAULT_PEER, [])

  /** A new sequence number checkpoints the download, the same one rolls it back. */
  function Begin(st: State, n: Byte): State {
    if n == st.lastN then st.(n := n, sink := st.saved)
    else st.(n := n, lastN := n, saved := st.sink)
  }

  function Store(st: State, p: Packet): State {
    if p.kind == TYPE_D then st.(sink := Feed(st.peer.quote, st.sink, p.data)) else st
  }

  function Nack(st: State): State {
    st.(sink := st.saved, sent := st.sent + Reply(st.peer, st.n, TYPE_N, []))
  }

  function Finish(st: State, p: Packet): State {
    if !p.ok then Nack(st)
    else if p.kind == TYPE_S then
      var peer := PeerOf(p.data);
      st.(peer := peer, sent := st.sent + Reply(peer, st.n, TYPE_Y, ReplyParms(ParmCount(p.data))))
    else st.(sent := st.sent + Reply(st.peer, st.n, TYPE_Y, []))
  }

  function Handle(st: State, p: Packet): State {
    Finish(Store(Begin(st, p.n), p), p)
  }

  datatype Outcome = Done(count: nat) | Aborted | Blocked

  /** The receiver on a whole input: the outcome and, when it is done, the final state. */
  function Run(st: State, s: seq<Byte>): (Outcome, State)
    decreases |s|
  {
    if s == [] then (Blocked, st)
    else if s[0] == ETX then (Aborted, st)
    else if s[0] != SOH then Run(st, s[1..])
    else
      match ReadPacket(s[1..])
      case Quiet => (Blocked, st)
      case BadHeader(rest) => Run(Nack(st), rest)
      case Got(p, rest) =>
        var st' := Handle(st, p);
        if p.ok && p.kind == TYPE_B then (Done(|st'.sink.out|), st') else Run(st', rest)
  }

  // -------------------------------------------------------------- replies

  lemma ReplyParmsPrintable(count: nat)
    ensures Printable(ReplyParms(count)) && |ReplyParms(count)| <= 13
  {
  }

  /** The receiver's own framing accepts every reply it sends to a peer that ends lines with CR. */
  lemma ReplyIsReadable(peer: Peer, n: Byte, kind: Byte, count: nat)
    requires n < 64 && kind in [TYPE_Y, TYPE_N] && peer.eol == CR
    ensures ReplyParms(count) == [] || kind == TYPE_Y ==>
              var r := Reply(peer, n, kind, ReplyParms(count));
              && r == Pad(peer) + Encode(n, kind, ReplyParms(count))
              && ReadPacket(r[peer.padCount + 1..]) == Got(Packet(n, kind, ReplyParms(count), true), [])
  {
    ReplyParmsPrintable(count);
    var data := ReplyParms(count);
    ReadEncoded(n, kind, data);
    var h := Header(n, kind, |data|) + data;
    assert [SOH] + h + [Check(Sum(h))] + [CR] == [SOH] + h + [Check(Sum(h)), CR];
    assert Reply(peer, n, kind, data)[peer.padCount + 1..] == Encode(n, kind, data)[1..];
  }

  /** Every packet that is read to an end is answered once: with its own number, and as type 'Y' exactly when it was
      accepted and 'N' otherwise; a send-init packet with parameters. */
  lemma AnswersItsPacket(st: State, t: Packet)
    requires t.n < 64 && (if t.ok && t.kind == 83 then PeerOf(t.data) else st.peer).eol == 13
    ensures var st' := Handle(st, t);
            var parms := if t.ok && t.kind == 83 then ReplyParms(ParmCount(t.data)) else [];
            && st'.sent == st.sent + Pad(st'.peer) + Encode(t.n, if t.ok then 89 else 78, parms)
            && ReadPacket(Encode(t.n, if t.ok then 89 else 78, parms)[1..])
               == Got(Packet(t.n, if t.ok then 89 else 78, parms, true), [])
  {
    var st' := Handle(st, t);
    var parms := if t.ok && t.kind == TYPE_S then ReplyParms(ParmCount(t.data)) else [];
    ReplyParmsPrintable(ParmCount(t.data));
    var kind: Byte := if t.ok then TYPE_Y else TYPE_N;
    ReplyIs(st'.peer, t.n, kind, parms);
    ReadEncoded(t.n, kind, parms);
    assert st.sent + Pad(st'.peer) + Encode(t.n, kind, parms) == st.sent + (Pad(st'.peer) + Encode(t.n, kind, parms));
  }

  lemma ReplyIs(peer: Peer, n: Byte, kind: Byte, data: seq<Byte>)
    requires peer.eol == CR && |data| <= 13
    ensures Reply(peer, n, kind, data) == Pad(peer) + Encode(n, kind, data)
  {
    var h := Header(n, kind, |data|) + data;
    assert [SOH] + h + [Check(Sum(h))] + [CR] == [SOH] + h + [Check(Sum(h)), CR];
  }

  // ------------------------------------------------------ the send-init packet

  /** A control character made printable, as the manual's ctl function does it. */
  function Ctl(c: Byte): Byte
    requires c < 32
  {
    c + 64
  }

  /** The parameters of a send-init packet, in the manual's order: MAXL, TIME, NPAD, PADC, EOL, QCTL. */
  function SendInit(maxl: Byte, time: Byte, peer: Peer): seq<Byte>
    requires maxl < 95 && time < 95 && peer.padCount < 95 && peer.padChar < 32 && peer.eol < 95
  {
    [maxl + 32, time + 32, peer.padCount + 32, Ctl(peer.padChar), peer.eol + 32, peer.quote]
  }

  /** The receiver takes what the sender asks for, and for what was not sent CR, no padding and '#'. */
  lemma TakesWhatIsAsked(maxl: Byte, time: Byte, peer: Peer, k: nat, more: seq<Byte>)
    requires maxl < 95 && time < 95 && peer.padCount < 95 && peer.padChar < 32 && peer.eol < 95
    ensures PeerOf(SendInit(maxl, time, peer) + more) == peer
    ensures k <= 6 ==>
              PeerOf(SendInit(maxl, time, peer)[..k]) ==
              Peer(if k < 5 then 13 else peer.eol, if k < 3 then 0 else peer.padCount,
                   if k < 4 then 0 else peer.padChar, if k < 6 then 35 else peer.quote)
  {
    PadIsTaken(peer.padChar);
  }

  lemma PadIsTaken(c: Byte)
    requires c < 32
    ensures KTrans(Ctl(c)) == c
  {
  }

  /** What it offers itself: 94 characters, one second, no padding, CR, '#', no prefixes and the one-character check;
      and, if asked, packets of up to 94 * 95 + 94 characters. */
  lemma OwnOffer(count: nat)
    ensures |ReplyParms(count)| == if count < 10 then count else 13
    ensures count >= 6 ==> PeerOf(ReplyParms(count)) == Peer(13, 0, 0, 35)
    ensures count >= 9 ==> ReplyParms(count)[0] == 94 + 32 && ReplyParms(count)[1] == 1 + 32
    ensures count >= 9 ==> ReplyParms(count)[6] == ReplyParms(count)[8] == 'N' as int && ReplyParms(count)[7] == '1' as int
    ensures count >= 10 ==> UnChar(ReplyParms(count)[9]) / 2 % 2 == 1 && Extended(ReplyParms(count)[11], ReplyParms(count)[12]) == 94 * 95 + 94
  {
  }
}
