/** Whole Kermit transfers over a line that damages and repeats packets: what the receiver makes of any stretch of
    the line, when the packet behind it is taken exactly once, and why a file then arrives. */
module KermitDelivery {
  import opened Machine
  import opened KermitFrame
  import opened KermitProtocol
  import KermitCheck

  // ------------------------------------------------------ a stretch of the line

  /** Where the receiver is while a packet is awaited, compared with the download `k` before that packet. Fresh: no
      packet has come in since the one before, with the number `last`. Tried: the number of the last packet, whether
      the download and its checkpoint are still `k`, and the quote character if it was changed. */
  datatype Place =
    | Fresh(last: int)
    | Tried(lastN: Byte, sinkKept: bool, savedKept: bool, quote: Option<Byte>)

  /** A packet with the number `m` begins: a new number makes a checkpoint, the same one goes back to it. */
  function Begun(v: Place, m: Byte): (w: Place)
    requires v.Fresh? ==> m != v.last
    ensures w.Tried?
  {
    if v.Fresh? then Tried(m, true, true, None)
    else if m == v.lastN then v.(sinkKept := v.savedKept)
    else v.(lastN := m, savedKept := v.sinkKept)
  }

  function GivenUp(v: Place): Place
    requires v.Tried?
  {
    v.(sinkKept := v.savedKept)
  }

  function Taken(b: Place, t: Packet): (w: Place)
    requires b.Tried?
    ensures w.Tried?
  {
    var w := if t.kind == TYPE_D && t.data != [] then b.(sinkKept := false) else b;
    if !t.ok then GivenUp(w)
    else if t.kind == TYPE_S then w.(quote := Some(PeerOf(t.data).quote))
    else w
  }

  function Handled(v: Place, t: Packet): (w: Place)
    requires v.Fresh? ==> t.n != v.last
    ensures w.Tried?
  {
    Taken(Begun(v, t.n), t)
  }

  /** How a stretch of the line leaves the receiver: between packets, in the middle of one, interrupted by ETX, or at
      the end of the transfer. TakenBack: a header was given up, or the number of the packet before came again, while
      the checkpoint was still the one of that packet. */
  datatype Fate = Between(place: Place) | Within(place: Place) | Interrupted | Ended(place: Place) | TakenBack

  function Scan(v: Place, s: seq<Byte>): (f: Fate)
    ensures f.Ended? ==> f.place.Tried?
    ensures f.Between? && f.place.Fresh? ==> f.place == v
    ensures v.Tried? ==> !f.TakenBack?
    decreases |s|
  {
    if s == [] then Between(v)
    else if s[0] == ETX then Interrupted
    else if s[0] != SOH then Scan(v, s[1..])
    else
      match ReadPacket(s[1..])
      case Quiet => Within(v)
      case BadHeader(rest) => if v.Fresh? then TakenBack else Scan(GivenUp(v), rest)
      case Got(t, rest) =>
        if v == Fresh(t.n) then TakenBack
        else if t.ok && t.kind == TYPE_B then Ended(Handled(v, t))
        else Scan(Handled(v, t), rest)
  }

  /** Stored bytes, with a pending escape as half a byte more. */
  function Rank(k: Sink): nat { 2 * |k.out| + if k.escape then 1 else 0 }

  /** Data only ever adds to the download. */
  lemma {:induction false} FeedGrows(q: Byte, k: Sink, data: seq<Byte>)
    ensures Rank(Feed(q, k, data)) >= Rank(k) + |data|
  {
    if data != [] { FeedGrows(q, k, data[..|data| - 1]); }
  }

  ghost predicate Kept(kept: bool, a: Sink, k: Sink) {
    if kept then a == k else Rank(a) > Rank(k)
  }

  /** The receiver is at `v`. */
  ghost predicate IsAt(st: State, v: Place, k: Sink, quote: Byte) {
    match v
    case Fresh(last) => st.lastN == last && st.sink == k && st.peer.quote == quote
    case Tried(lastN, sinkKept, savedKept, q) =>
      && st.lastN == lastN && Kept(sinkKept, st.sink, k) && Kept(savedKept, st.saved, k)
      && st.peer.quote == if q.Some? then q.value else quote
  }

  lemma HandledStep(st: State, v: Place, t: Packet, k: Sink, quote: Byte)
    requires IsAt(st, v, k, quote) && (v.Fresh? ==> t.n != v.last)
    ensures IsAt(Handle(st, t), Handled(v, t), k, quote)
  {
    BegunStep(st, v, t.n, k, quote);
    TakenStep(Begin(st, t.n), Begun(v, t.n), t, k, quote);
  }

  lemma BegunStep(st: State, v: Place, m: Byte, k: Sink, quote: Byte)
    requires IsAt(st, v, k, quote) && (v.Fresh? ==> m != v.last)
    ensures IsAt(Begin(st, m), Begun(v, m), k, quote)
  {
  }

  lemma TakenStep(b: State, v: Place, t: Packet, k: Sink, quote: Byte)
    requires IsAt(b, v, k, quote) && v.Tried?
    ensures IsAt(Finish(Store(b, t), t), Taken(v, t), k, quote)
  {
    FeedGrows(b.peer.quote, b.sink, t.data);
    if t.data == [] { assert Feed(b.peer.quote, b.sink, t.data) == b.sink; }
  }

  /** `tail` is a packet of which only a part has come in. */
  predicate Partial(tail: seq<Byte>) { tail != [] && tail[0] == SOH && ReadPacket(tail[1..]).Quiet? }

  /** From `st` on, the stretch `s` leads to `st'`, with the packet `tail` begun if the stretch ends within one. */
  ghost predicate Leads(
      st: State, f: Fate, s: seq<Byte>, k: Sink, quote: Byte, more: seq<Byte>, st': State, tail: seq<Byte>) {
    match f
    case Between(w) => IsAt(st', w, k, quote) && Run(st, s + more) == Run(st', more)
    case Within(w) => IsAt(st', w, k, quote) && Partial(tail) && Run(st, s + more) == Run(st', tail + more)
    case Interrupted => Run(st, s + more).0 == Aborted
    case Ended(w) => IsAt(st', w, k, quote) && Run(st, s + more) == (Done(|st'.sink.out|), st')
    case TakenBack => true
  }

  /** The scan says what the receiver does on every stretch, whatever follows. */
  lemma {:induction false} RunScan(st: State, v: Place, s: seq<Byte>, k: Sink, quote: Byte, more: seq<Byte>)
    returns (st': State, tail: seq<Byte>)
    requires IsAt(st, v, k, quote)
    ensures Leads(st, Scan(v, s), s, k, quote, more, st', tail)
    decreases |s|, 1
  {
    st', tail := st, s;
    if s == [] {
      assert s + more == more;
      return;
    }
    assert (s + more)[0] == s[0] && (s + more)[1..] == s[1..] + more;
    if s[0] == SOH {
      st', tail := RunPacketScan(st, v, s, k, quote, more);
    } else if s[0] != ETX {
      st', tail := RunScan(st, v, s[1..], k, quote, more);
    }
  }

  lemma {:induction false} RunPacketScan(st: State, v: Place, s: seq<Byte>, k: Sink, quote: Byte, more: seq<Byte>)
    returns (st': State, tail: seq<Byte>)
    requires IsAt(st, v, k, quote) && s != [] && s[0] == SOH
    ensures Leads(st, Scan(v, s), s, k, quote, more, st', tail)
    decreases |s|, 0
  {
    st', tail := st, s;
    var r := ReadPacket(s[1..]);
    if r.BadHeader? && v.Tried? {
      RunFragment(st, s, more);
      st', tail := RunScan(Nack(st), GivenUp(v), r.rest, k, quote, more);
    } else if r.Got? && (v.Fresh? ==> r.packet.n != v.last) {
      RunPacket(st, s, more);
      HandledStep(st, v, r.packet, k, quote);
      st' := Handle(st, r.packet);
      if !(r.packet.ok && r.packet.kind == TYPE_B) {
        st', tail := RunScan(st', Handled(v, r.packet), r.rest, k, quote, more);
      }
    }
  }

  /** A packet that is read to an end is handled, and the receiver goes on behind it. */
  lemma {:induction false} RunPacket(st: State, s: seq<Byte>, more: seq<Byte>)
    requires s != [] && s[0] == SOH && ReadPacket(s[1..]).Got?
    ensures var p := ReadPacket(s[1..]).packet;
            Run(st, s + more) ==
            if p.ok && p.kind == TYPE_B then (Done(|Handle(st, p).sink.out|), Handle(st, p))
            else Run(Handle(st, p), ReadPacket(s[1..]).rest + more)
  {
    assert (s + more)[0] == SOH && (s + more)[1..] == s[1..] + more;
    ReadIsLocal(s[1..], more);
  }

  /** A packet given up in its header costs a negative acknowledge and the way back to the checkpoint. */
  lemma {:induction false} RunFragment(st: State, s: seq<Byte>, more: seq<Byte>)
    requires s != [] && s[0] == SOH && ReadPacket(s[1..]).BadHeader?
    ensures Run(st, s + more) == Run(Nack(st), ReadPacket(s[1..]).rest + more)
  {
    assert (s + more)[0] == SOH && (s + more)[1..] == s[1..] + more;
    HeaderIsLocal(s[1..], more);
  }

  // ------------------------------------------------------- the packet behind it

  /** A packet as the sender means it. */
  datatype Intended = Intended(n: Byte, kind: Byte, data: seq<Byte>)

  ghost predicate Sent(p: Intended) { Sendable(p.n, p.kind, p.data) }

  ghost function Intact(p: Intended): seq<Byte>
    requires Sent(p)
  {
    Encode(p.n, p.kind, p.data)
  }

  /** What each packet means when it is taken exactly once. */
  function Once(k: Sink, quote: Byte, p: Intended): (Sink, Byte) {
    if p.kind == TYPE_D then (Feed(quote, k, p.data), quote)
    else if p.kind == TYPE_S then (k, PeerOf(p.data).quote)
    else (k, quote)
  }

  /** The download that a packet with number `n` would be added to. */
  function Base(st: State, n: Byte): Sink { if st.lastN == n then st.saved else st.sink }

  /** ... is the one before the packet. */
  predicate Awaits(v: Place, n: Byte) {
    if v.Fresh? then v.last != n else if v.lastN == n then v.savedKept else v.sinkKept
  }

  lemma BaseExactly(st: State, n: Byte, v: Place, k: Sink, quote: Byte)
    requires IsAt(st, v, k, quote) && (v.Fresh? ==> v.last != n)
    ensures Base(st, n) == k <==> Awaits(v, n)
  {
  }

  /** An intact packet between packets is taken, once. */
  lemma RunIntact(st: State, p: Intended, more: seq<Byte>) returns (st': State)
    requires Sent(p)
    ensures (st'.sink, st'.peer.quote) == Once(Base(st, p.n), st.peer.quote, p) && st'.lastN == p.n
    ensures Run(st, Intact(p) + more) == if p.kind == TYPE_B then (Done(|Base(st, p.n).out|), st') else Run(st', more)
  {
    st' := Handle(st, Packet(p.n, p.kind, p.data, true));
    ReadEncoded(p.n, p.kind, p.data);
    RunPacket(st, Intact(p), more);
    assert [] + more == more;
  }

  /** The unread characters of a packet of which the receiver has read a part. */
  lemma InsideIsNoise(p: Intended)
    requires Sent(p)
    ensures Intact(p)[0] == SOH && Noise(Intact(p)[1..])
  {
    HeaderPrintable(p.n, p.kind, |p.data|);
    var h := Header(p.n, p.kind, |p.data|) + p.data;
    assert Intact(p)[1..] == h + [Check(Sum(h)), CR];
  }

  /** Line noise: nothing that starts a packet or aborts. */
  ghost predicate Noise(s: seq<Byte>) {
    forall i | 0 <= i < |s| :: s[i] != SOH && s[i] != ETX
  }

  lemma {:induction false} ScanNoise(v: Place, s: seq<Byte>)
    requires Noise(s)
    ensures Scan(v, s) == Between(v)
  {
    if s != [] { ScanNoise(v, s[1..]); }
  }

  /** The SOH of an intact packet ends a partial one, damaged. */
  lemma ReadSwallowed(tail: seq<Byte>, q: seq<Byte>, more: seq<Byte>)
    requires Partial(tail) && q != [] && q[0] == SOH
    ensures var r, rest := ReadPacket((tail + (q + more))[1..]), q[1..] + more;
            r == BadHeader(rest) || (r.Got? && !r.packet.ok && r.rest == rest)
  {
    EndsAtControl(tail[1..], SOH, q[1..] + more);
    assert (tail + (q + more))[1..] == tail[1..] + ([SOH] + (q[1..] + more));
  }

  /** Behind a packet that is not complete, an intact one only ends that packet, damaged: nothing of it is stored. */
  lemma {:induction false} Swallowed(v: Place, s: seq<Byte>, p: Intended) returns (u: Place)
    requires Sent(p) && Scan(v, s).Within? && Scan(v, s).place.Tried?
    ensures var w := Scan(v, s).place;
            && Scan(v, s + Intact(p)) == Between(u) && u.Tried? && u.quote == w.quote
            && u.sinkKept == u.savedKept && (u.savedKept == w.savedKept || u.savedKept == w.sinkKept)
    decreases |s|
  {
    var t := s + Intact(p);
    assert t[0] == s[0] && t[1..] == s[1..] + Intact(p);
    if s[0] != SOH {
      u := Swallowed(v, s[1..], p);
    } else if ReadPacket(s[1..]).Quiet? {
      u := SwallowedHere(v, s, p);
    } else if ReadPacket(s[1..]).BadHeader? {
      HeaderIsLocal(s[1..], Intact(p));
      u := Swallowed(GivenUp(v), ReadPacket(s[1..]).rest, p);
    } else {
      ReadIsLocal(s[1..], Intact(p));
      u := Swallowed(Handled(v, ReadPacket(s[1..]).packet), ReadPacket(s[1..]).rest, p);
    }
  }

  lemma SwallowedHere(v: Place, s: seq<Byte>, p: Intended) returns (u: Place)
    requires Sent(p) && v.Tried? && s != [] && s[0] == SOH && ReadPacket(s[1..]).Quiet?
    ensures && Scan(v, s + Intact(p)) == Between(u) && u.Tried? && u.quote == v.quote
            && u.sinkKept == u.savedKept && (u.savedKept == v.savedKept || u.savedKept == v.sinkKept)
  {
    var inside := Intact(p)[1..];
    InsideIsNoise(p);
    ReadSwallowed(s, Intact(p), []);
    assert s + (Intact(p) + []) == s + Intact(p) && inside + [] == inside;
    var r := ReadPacket((s + Intact(p))[1..]);
    u := if r.BadHeader? then GivenUp(v) else Handled(v, r.packet);
    if r.Got? { DamagedAt(v, r.packet); }
    ScanNoise(u, inside);
  }

  lemma DamagedAt(v: Place, t: Packet)
    requires v.Tried? && !t.ok
    ensures var u := Handled(v, t);
            u.quote == v.quote && u.sinkKept == u.savedKept && (u.savedKept == v.savedKept || u.savedKept == v.sinkKept)
  {
  }

  /** So does the receiver: the state before the partial packet, rolled back. */
  lemma RunSwallowed(st: State, tail: seq<Byte>, p: Intended, more: seq<Byte>) returns (st': State)
    requires Sent(p) && Partial(tail)
    ensures Run(st, tail + (Intact(p) + more)) == Run(st', more)
    ensures st'.sink == st'.saved && (st'.sink == st.sink || st'.sink == st.saved) && st'.peer == st.peer
  {
    var inside := Intact(p)[1..];
    InsideIsNoise(p);
    ReadSwallowed(tail, Intact(p), more);
    var r := ReadPacket((tail + (Intact(p) + more))[1..]);
    st' := if r.BadHeader? then Nack(st) else Handle(st, r.packet);
    RunSkipsNoise(st', inside, more);
  }

  lemma {:induction false} RunSkipsNoise(st: State, noise: seq<Byte>, s: seq<Byte>)
    requires Noise(noise)
    ensures Run(st, noise + s) == Run(st, s)
  {
    if noise == [] {
      assert noise + s == s;
    } else {
      assert (noise + s)[0] == noise[0] && (noise + s)[1..] == noise[1..] + s;
      RunSkipsNoise(st, noise[1..], s);
    }
  }

  /** Any stretch of the line `s`, and then an intact packet. `at` is where the stretch leads, `st'` where the packet
      leads. Between packets, the packet is taken once, and added to the download before it exactly if the scan says
      so; within a packet, nothing of it is stored; ETX and an accepted break packet end the transfer. */
  lemma StretchExactly(
      st: State, p: Intended, v: Place, s: seq<Byte>, k: Sink, quote: Byte, more: seq<Byte>)
      returns (at: State, st': State)
    requires Sent(p) && IsAt(st, v, k, quote) && (v.Fresh? ==> v.last != p.n)
    ensures var r := Run(st, s + (Intact(p) + more));
            match Scan(v, s)
            case Between(w) =>
              && IsAt(at, w, k, quote) && (Base(at, p.n) == k <==> Awaits(w, p.n))
              && (st'.sink, st'.peer.quote) == Once(Base(at, p.n), at.peer.quote, p) && st'.lastN == p.n
              && r == if p.kind == TYPE_B then (Done(|Base(at, p.n).out|), st') else Run(st', more)
            case Within(w) =>
              && IsAt(at, w, k, quote) && r == Run(st', more)
              && st'.sink == st'.saved && (st'.sink == at.sink || st'.sink == at.saved) && st'.peer == at.peer
            case Interrupted => r.0 == Aborted
            case Ended(w) => r == (Done(|st'.sink.out|), st') && (st'.sink == k <==> w.sinkKept)
            case TakenBack => true
  {
    var tail;
    at, tail := RunScan(st, v, s, k, quote, Intact(p) + more);
    st' := at;
    if Scan(v, s).Between? {
      BaseExactly(at, p.n, Scan(v, s).place, k, quote);
      st' := RunIntact(at, p, more);
    } else if Scan(v, s).Within? {
      st' := RunSwallowed(at, tail, p, more);
    }
  }

  /** Stretches compose. */
  lemma {:induction false} ScanOn(v: Place, s: seq<Byte>, more: seq<Byte>)
    requires Scan(v, s).Between?
    ensures Scan(v, s + more) == Scan(Scan(v, s).place, more)
    decreases |s|
  {
    var t := s + more;
    if s == [] {
      assert t == more;
      return;
    }
    assert t[0] == s[0] && t[1..] == s[1..] + more;
    if s[0] != SOH {
      ScanOn(v, s[1..], more);
    } else if ReadPacket(s[1..]).BadHeader? {
      HeaderIsLocal(s[1..], more);
      ScanOn(GivenUp(v), ReadPacket(s[1..]).rest, more);
    } else {
      ReadIsLocal(s[1..], more);
      ScanOn(Handled(v, ReadPacket(s[1..]).packet), ReadPacket(s[1..]).rest, more);
    }
  }

  /** What TakenBack means: the receiver is back at the checkpoint of the packet before, whose data is lost unless
      `t` is an intact copy of it. */
  lemma {:induction false} TakesBack(st: State, s: seq<Byte>, more: seq<Byte>)
    returns (st': State, t: Option<Packet>, rest: seq<Byte>)
    requires Scan(Fresh(st.lastN), s).TakenBack?
    ensures if t.None? then st' == Nack(st) else t.value.n == st.lastN && st' == Handle(st, t.value)
    ensures st'.saved == st.saved && (t.None? || !t.value.ok ==> st'.sink == st.saved)
    ensures Run(st, s + more) == Run(st', rest + more) || (t.Some? && t.value.ok && t.value.kind == TYPE_B)
    decreases |s|
  {
    assert (s + more)[0] == s[0] && (s + more)[1..] == s[1..] + more;
    var r := ReadPacket(s[1..]);
    if s[0] != SOH {
      st', t, rest := TakesBack(st, s[1..], more);
    } else if r.BadHeader? {
      RunFragment(st, s, more);
      st', t, rest := Nack(st), None, r.rest;
    } else {
      RunPacket(st, s, more);
      st', t, rest := Handle(st, r.packet), Some(r.packet), r.rest;
    }
  }

  // ------------------------------------------------------------ whole transfers

  /** All that is on the line up to an intact packet, and the packet. */
  datatype Delivery = Delivery(early: seq<Byte>, packet: Intended)

  /** The stretch before the packet leaves the receiver between packets, with the download and the quote character as
      before the packet; or the packet is a break that was taken early. `last` is the number of the packet before. */
  ghost predicate ValidDelivery(last: int, d: Delivery) {
    && Sent(d.packet) && last != d.packet.n
    && match Scan(Fresh(last), d.early)
       case Between(w) => Awaits(w, d.packet.n) && (w.Fresh? || w.quote == None || d.packet.kind == TYPE_S)
       case Ended(w) => d.packet.kind == TYPE_B && w.sinkKept
       case Within(_) => false
       case Interrupted => false
       case TakenBack => false
  }

  /** A transfer after the packet number `last`: neighbouring packets have different numbers, and the last one alone
      is a break. */
  ghost predicate Transfer(last: int, ds: seq<Delivery>)
    decreases |ds|
  {
    && ds != [] && ValidDelivery(last, ds[0]) && (ds[0].packet.kind == TYPE_B <==> |ds| == 1)
    && (|ds| > 1 ==> Transfer(ds[0].packet.n, ds[1..]))
  }

  ghost function Line(last: int, ds: seq<Delivery>): seq<Byte>
    requires Transfer(last, ds)
    decreases |ds|
  {
    ds[0].early + (Intact(ds[0].packet) + if |ds| == 1 then [] else Line(ds[0].packet.n, ds[1..]))
  }

  ghost function OnceEach(k: Sink, quote: Byte, ds: seq<Delivery>): Sink
    decreases |ds|
  {
    if ds == [] then k
    else
      var (k', quote') := Once(k, quote, ds[0].packet);
      OnceEach(k', quote', ds[1..])
  }

  /** Whatever was on the line before it, a packet has its effect once. */
  lemma RunDelivery(st: State, d: Delivery, k: Sink, quote: Byte, more: seq<Byte>) returns (st': State)
    requires ValidDelivery(st.lastN, d) && st.sink == k && st.peer.quote == quote
    ensures d.packet.kind != TYPE_B ==> st'.lastN == d.packet.n && (st'.sink, st'.peer.quote) == Once(k, quote, d.packet)
    ensures d.packet.kind == TYPE_B ==> st'.sink == k
    ensures Run(st, d.early + (Intact(d.packet) + more)) ==
            if d.packet.kind == TYPE_B then (Done(|k.out|), st') else Run(st', more)
  {
    var at;
    at, st' := StretchExactly(st, d.packet, Fresh(st.lastN), d.early, k, quote, more);
  }

  /** Exactly-once delivery: whatever was on the line before the packets, the receiver ends with what
      every packet means when it is taken once, in order, and returns its length. */
  lemma {:induction false} ExactlyOnce(st: State, ds: seq<Delivery>, k: Sink, quote: Byte)
    requires Transfer(st.lastN, ds) && st.sink == k && st.peer.quote == quote
    ensures var r := Run(st, Line(st.lastN, ds));
            r.0 == Done(|OnceEach(k, quote, ds).out|) && r.1.sink == OnceEach(k, quote, ds)
    decreases |ds|
  {
    var d := ds[0];
    var more := if |ds| == 1 then [] else Line(d.packet.n, ds[1..]);
    var st' := RunDelivery(st, d, k, quote, more);
    var (k', quote') := Once(k, quote, d.packet);
    if |ds| > 1 {
      ExactlyOnce(st', ds[1..], k', quote');
    }
  }

  // ------------------------------------------------------------- damaged copies

  /** A copy with intact length and sequence characters takes nothing back, and how it is read to its end decides
      with which place the rest of it is scanned. */
  lemma {:induction false} DamagedCopy(last: int, p: Intended, copy: seq<Byte>)
    requires Sent(p) && SameEnvelope(Intact(p), copy) && last != p.n
    ensures var r := ReadPacket(copy[1..]);
            && r.Got? && r.packet.n == p.n && r.packet.kind in [0, copy[3]] && !Scan(Fresh(last), copy).TakenBack?
            && Scan(Fresh(last), copy) ==
               if r.packet.ok && r.packet.kind == TYPE_B then Ended(Handled(Fresh(last), r.packet))
               else Scan(Handled(Fresh(last), r.packet), r.rest)
  {
    DamagedCopyEnds(p.n, p.kind, p.data, copy);
  }

  /** If the type is intact too and the rest is noise, the packet may follow. */
  lemma DamagedCopyIsEarly(last: int, p: Intended, copy: seq<Byte>)
    requires Sent(p) && SameEnvelope(Intact(p), copy) && copy[3] == p.kind && last != p.n
    requires var r := ReadPacket(copy[1..]); r.Got? ==> Noise(r.rest)
    ensures ValidDelivery(last, Delivery(copy, p))
  {
    DamagedCopy(last, p, copy);
    var r := ReadPacket(copy[1..]);
    ScanNoise(Handled(Fresh(last), r.packet), r.rest);
  }

  /** Even the sequence character may be damaged, as long as the damage is noticed and does not give the number of
      the packet before. */
  lemma DamagedNumberIsEarly(last: int, p: Intended, copy: seq<Byte>)
    requires Sent(p) && last != p.n && copy != [] && copy[0] == SOH
    requires var r := ReadPacket(copy[1..]); r.Got? && !r.packet.ok && r.packet.n != last && Noise(r.rest)
    ensures ValidDelivery(last, Delivery(copy, p))
  {
    var r := ReadPacket(copy[1..]);
    ScanNoise(Handled(Fresh(last), r.packet), r.rest);
  }

  /** A packet that was swallowed arrives when it is sent once more. */
  lemma {:induction false} SwallowedArrives(last: int, p: Intended, s: seq<Byte>)
    requires Sent(p) && last != p.n && Scan(Fresh(last), s).Within?
    requires var w := Scan(Fresh(last), s).place; w.Tried? && w.sinkKept && w.savedKept && w.quote == None
    ensures ValidDelivery(last, Delivery(s + Intact(p), p))
  {
    var u := Swallowed(Fresh(last), s, p);
  }

  /** A copy of the data packet number 1 with the data [a, b], damaged behind its type character. */
  function Copy(x: Byte, y: Byte, z: Byte): seq<Byte> { [SOH, 37, 33, TYPE_D, 0, x, y, z] }

  lemma CopyIsDamaged(a: Byte, b: Byte, x: Byte, y: Byte, z: Byte)
    ensures SameEnvelope(Encode(1, TYPE_D, [a, b]), Copy(x, y, z))
  {
    var e := Encode(1, TYPE_D, [a, b]);
    assert Header(1, TYPE_D, |[a, b]|) == [37, 33, TYPE_D];
    assert |e| == 8 && e[0] == SOH && e[1] == 37 && e[2] == 33;
  }

  lemma ReadCopy(s: seq<Byte>, rest: seq<Byte>)
    requires |s| > 3 && s[0] == 37 && s[1] == 33 && s[2] == TYPE_D && IsControl(s[3]) && s[4..] == rest
    ensures ReadPacket(s) == Got(Packet(1, TYPE_D, [], false), rest)
  {
    assert s[3..][0] == s[3] && s[3..][1..] == rest;
  }

  /** The scan comes to its last three characters with the download kept. */
  lemma ScanCopy(last: int, x: Byte, y: Byte, z: Byte)
    requires last != 1
    ensures Scan(Fresh(last), Copy(x, y, z)) == Scan(Tried(1, true, true, None), [x, y, z])
  {
    var s := Copy(x, y, z);
    ReadCopy(s[1..], [x, y, z]);
    assert s[0] == SOH;
  }

  /** The receiver gives it up at its first damaged character. */
  lemma RunCopy(st: State, x: Byte, y: Byte, z: Byte, more: seq<Byte>)
    ensures Run(st, Copy(x, y, z) + more) == Run(AfterCopy(st), [x, y, z] + more)
  {
    var s := Copy(x, y, z);
    ReadCopy(s[1..], [x, y, z]);
    RunPacket(st, s, more);
  }

  function AfterCopy(st: State): State { Handle(st, Packet(1, TYPE_D, [], false)) }

  /** The rest of such a copy can interrupt the transfer, ... */
  lemma EtxDamage(st: State, y: Byte, more: seq<Byte>)
    ensures Run(st, Copy(ETX, y, CR) + more).0 == Aborted
    ensures st.lastN != 1 ==> Scan(Fresh(st.lastN), Copy(ETX, y, CR)) == Interrupted
  {
    RunCopy(st, ETX, y, CR, more);
    if st.lastN != 1 { ScanCopy(st.lastN, ETX, y, CR); }
  }

  /** ... swallow the next packet, ... */
  lemma SohDamage(st: State, x: Byte, y: Byte, p: Intended, more: seq<Byte>)
    requires !IsControl(x) && !IsControl(y) && Sent(p)
    ensures Run(st, Copy(x, y, SOH) + (Intact(p) + more)) == Run(Nack(AfterCopy(st)), more)
    ensures st.lastN != 1 ==> Scan(Fresh(st.lastN), Copy(x, y, SOH)) == Within(Tried(1, true, true, None))
  {
    var next := Intact(p) + more;
    RunCopy(st, x, y, SOH, next);
    assert [x, y, SOH] + next == [x, y] + ([SOH] + next);
    RunSkipsNoise(AfterCopy(st), [x, y], [SOH] + next);
    SohTwice(AfterCopy(st), p, more);
    if st.lastN != 1 { ScanSohLast(st.lastN, x, y); }
  }

  /** A SOH in front of a packet: the packet is given up at its own SOH, and the rest of it is noise. */
  lemma SohTwice(st: State, p: Intended, more: seq<Byte>)
    requires Sent(p)
    ensures Run(st, [SOH] + (Intact(p) + more)) == Run(Nack(st), more)
  {
    var next, inside := Intact(p) + more, Intact(p)[1..];
    InsideIsNoise(p);
    assert ([SOH] + next)[1..] == next && next[0] == SOH && next[1..] == inside + more;
    RunSkipsNoise(Nack(st), inside, more);
  }

  lemma ScanSohLast(last: int, x: Byte, y: Byte)
    requires last != 1 && !IsControl(x) && !IsControl(y)
    ensures Scan(Fresh(last), Copy(x, y, SOH)) == Within(Tried(1, true, true, None))
  {
    var v := Tried(1, true, true, None);
    ScanCopy(last, x, y, SOH);
    ScanNoise(v, [x, y]);
    ScanOn(v, [x, y], [SOH]);
    assert [x, y] + [SOH] == [x, y, SOH];
    assert ReadPacket([SOH][1..]) == Quiet by { assert [SOH][1..] == []; }
  }

  /** ... or do neither, with a SOH in it. */
  lemma SohInside(st: State, y: Byte, more: seq<Byte>)
    requires !IsControl(y)
    ensures Run(st, Copy(SOH, y, CR) + more) == Run(Nack(AfterCopy(st)), more)
    ensures st.lastN != 1 ==> Scan(Fresh(st.lastN), Copy(SOH, y, CR)) == Between(Tried(1, true, true, None))
  {
    var s: seq<Byte> := [SOH, y, CR];
    RunCopy(st, SOH, y, CR, more);
    ReadGivenUp(s[1..]);
    RunFragment(AfterCopy(st), s, more);
    assert [] + more == more;
    if st.lastN != 1 { ScanCopy(st.lastN, SOH, y, CR); }
  }

  lemma ReadGivenUp(s: seq<Byte>)
    requires |s| == 2 && !IsControl(s[0]) && IsControl(s[1])
    ensures ReadPacket(s) == BadHeader([])
  {
    assert s[2..] == [];
  }

  /** A header given up before the first attempt at the next packet takes back the packet before, whose
      data was stored and acknowledged. */
  lemma {:induction false} FragmentTakesBack(st: State, p: Intended, c: Byte, more: seq<Byte>)
    requires Sent(p) && p.kind == TYPE_D && st.lastN != p.n && IsControl(c)
    ensures var st' := Handle(st, Packet(p.n, p.kind, p.data, true));
            && st'.sink == Feed(st.peer.quote, st.sink, p.data)
            && Run(st, Intact(p) + ([SOH, c] + more)) == Run(Nack(st'), more) && Nack(st').sink == st.sink
  {
    var s := [SOH, c] + more;
    var st' := RunIntact(st, p, s);
    assert s[1..] == [c] + more && ([c] + more)[1..] == more;
    ReadEncoded(p.n, p.kind, p.data);
    RunPacket(st, Intact(p), s);
    assert [] + s == s;
  }

  /** A damaged packet with another number between two copies of a packet has the data stored twice. */
  lemma NumberDamageDoubles(st: State, p: Intended, c: Byte, more: seq<Byte>) returns (st': State)
    requires Sent(p) && p.kind == TYPE_D && st.lastN != p.n && !IsControl(c) && UnChar(c) != p.n
    ensures Run(st, Intact(p) + ([SOH, 35, c, 0] + (Intact(p) + more))) == Run(st', more)
    ensures st'.sink == Feed(st.peer.quote, Feed(st.peer.quote, st.sink, p.data), p.data)
  {
    var bad: seq<Byte> := [SOH, 35, c, 0];
    var st1 := RunIntact(st, p, bad + (Intact(p) + more));
    assert bad[1..] == [35, c, 0] && ReadPacket(bad[1..]) == Got(Packet(UnChar(c), 0, [], false), []);
    RunPacket(st1, bad, Intact(p) + more);
    var st2 := Handle(st1, Packet(UnChar(c), 0, [], false));
    assert [] + (Intact(p) + more) == Intact(p) + more;
    st' := RunIntact(st2, p, more);
  }

  /** By the byte: ^C between packets aborts, the break packet ends the transfer, and data packets, of type 'D', add
      their data. */
  lemma ByTheByte(st: State, p: Intended, more: seq<Byte>)
    ensures Run(st, [3] + more).0 == Aborted
    ensures Run(st, [1, 35, 33, 66, 40, 13] + more).0 == Done(|Base(st, 1).out|)
    ensures Once(st.sink, st.peer.quote, Intended(1, 68, p.data)).0 == Feed(st.peer.quote, st.sink, p.data)
  {
    KermitCheck.BreakPacket();
    var st' := RunIntact(st, Intended(1, TYPE_B, []), more);
    assert ([3] + more)[0] == 3;
  }

  /** The type character matters: two damaged characters can cancel in the check, and a data packet
      taken for a break ends the transfer whatever follows. */
  lemma {:induction false} UndetectedTypeDamage(st: State, more: seq<Byte>)
    ensures SameEnvelope(Encode(1, TYPE_D, [97]), Encode(1, TYPE_B, [99]))
    ensures Run(st, Encode(1, TYPE_B, [99]) + more).0.Done?
  {
    var p := Intended(1, TYPE_B, [99]);
    var st' := RunIntact(st, p, more);
  }

  // --------------------------------------------------------------- files

  /** A file cut into the data of D packets, with packets of other kinds around them; `quote` is
      the quote character in force and `rest` the quoted text still to come. */
  ghost predicate Carries(ds: seq<Delivery>, quote: Byte, rest: seq<Byte>)
    decreases |ds|
  {
    if ds == [] then rest == []
    else
      var p := ds[0].packet;
      if p.kind == TYPE_D then p.data <= rest && Carries(ds[1..], quote, rest[|p.data|..])
      else p.kind != TYPE_S && Carries(ds[1..], quote, rest)
  }

  lemma {:induction false} CarriedOnce(ds: seq<Delivery>, k: Sink, quote: Byte, rest: seq<Byte>)
    requires Carries(ds, quote, rest)
    ensures OnceEach(k, quote, ds) == Feed(quote, k, rest)
    decreases |ds|
  {
    if ds != [] {
      var p := ds[0].packet;
      if p.kind == TYPE_D {
        assert rest == p.data + rest[|p.data|..];
        FeedAppend(quote, k, p.data, rest[|p.data|..]);
        CarriedOnce(ds[1..], Feed(quote, k, p.data), quote, rest[|p.data|..]);
      } else {
        CarriedOnce(ds[1..], k, quote, rest);
      }
    }
  }

  /** A file sent with control quoting, cut into packets anywhere, after a send-init that chose the
      quote character, over a line that damages and repeats packets: k_recv stores exactly the file. */
  lemma {:induction false} FileArrives(ds: seq<Delivery>, file: seq<Byte>)
    requires Transfer(START.lastN, ds) && |ds| > 1 && ds[0].packet.kind == TYPE_S
    requires LegalQuote(PeerOf(ds[0].packet.data).quote)
    requires Carries(ds[1..], PeerOf(ds[0].packet.data).quote, Quote(PeerOf(ds[0].packet.data).quote, file))
    ensures Run(START, Line(START.lastN, ds)).0 == Done(|file|) && Run(START, Line(START.lastN, ds)).1.sink == Sink(file, false)
  {
    var q := PeerOf(ds[0].packet.data).quote;
    ExactlyOnce(START, ds, START.sink, START.peer.quote);
    CarriedOnce(ds[1..], START.sink, q, Quote(q, file));
    FeedQuoted(q, START.sink, file);
    assert [] + file == file;
  }
}
