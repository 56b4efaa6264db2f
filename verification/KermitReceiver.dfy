/** The Kermit receiver as it runs: globals, a character at a time, storing data
    as it comes in; and the builders of its reply frames. */
module KermitReceiver {
  import opened Machine
  import opened KermitFrame
  import opened KermitProtocol
  import opened KermitDelivery

  const SEND_DATA_SIZE: nat := 20
  const FRAME_SIZE: nat := 24

  /** How reading a packet ended. */
  datatype Ending = Silence | Damaged | Complete

  /** chk1: the check of the characters from `from` up to a NUL. */
  method Chk1(frame: array<Byte>, from: nat, ghost end: nat) returns (check: Byte)
    requires from <= end < frame.Length && frame[end] == 0 && forall i | from <= i < end :: frame[i] != 0
    ensures ToChar(check) == Check(Sum(frame[from..end]))
  {
    var total: nat := 0;
    var i := from;
    assert frame[from..from] == [];
    while frame[i] != 0
      invariant from <= i <= end
      invariant total == Sum(frame[from..i])
      decreases end - i
    {
      assert frame[from..i + 1] == frame[from..i] + [frame[i]];
      assert frame[from..i + 1][..i - from] == frame[from..i];
      total := total + frame[i];
      i := i + 1;
    }
    check := (total + total / 64 % 4) % 64;
  }

  class Receiver {
    const mem: array<Byte>      // memory from bin_start_address on
    const parms: array<Byte>    // send_parms
    const frame: array<Byte>    // a_b
    var addr: nat               // os_data_addr, relative to bin_start_address
    var addrSaved: nat
    var escape: bool
    var escapeSaved: bool
    var lastN: int
    var n: Byte
    var peer: Peer
    var sendPtr: nat
    var sent: seq<Byte>         // what went out on the line

    constructor (mem: array<Byte>)
      ensures this.mem == mem && Valid() && fresh(parms) && fresh(frame) && View() == START
    {
      this.mem := mem;
      parms := new Byte[SEND_DATA_SIZE](_ => 0);
      frame := new Byte[FRAME_SIZE](_ => 0);
      addr, addrSaved, escape, escapeSaved := 0, 0, false, false;
      lastN, n, peer, sendPtr, sent := -1, 0, DEFAULT_PEER, 0, [];
    }

    ghost predicate Valid()
      reads this
    {
      && mem != parms && mem != frame && parms != frame
      && parms.Length == SEND_DATA_SIZE && frame.Length == FRAME_SIZE
      && addrSaved <= addr <= mem.Length && sendPtr < SEND_DATA_SIZE
    }

    ghost function Here(): Sink
      requires Valid()
      reads this, mem
    {
      Sink(mem[..addr], escape)
    }

    ghost function View(): State
      requires Valid()
      reads this, mem
    {
      State(Here(), Sink(mem[..addrSaved], escapeSaved), lastN, n, peer, sent)
    }

    // ------------------------------------------------------------ replies

    /** s1_sendpacket: padding, then the frame up to its NUL. */
    method SendPacket(ghost len: nat)
      requires Valid() && len < FRAME_SIZE && frame[len] == 0 && forall i | 0 <= i < len :: frame[i] != 0
      modifies this`sent
      ensures sent == old(sent) + (Pad(peer) + frame[..len])
    {
      var i := 0;
      while i < peer.padCount as int
        invariant 0 <= i <= peer.padCount as int && sent == old(sent) + Pad(peer)[..i]
      {
        sent := sent + [peer.padChar];
        i := i + 1;
      }
      i := 0;
      while frame[i] != 0
        invariant 0 <= i <= len && sent == old(sent) + (Pad(peer) + frame[..i])
        decreases len - i
      {
        sent := sent + [frame[i]];
        i := i + 1;
      }
    }

    /** The characters of a closed frame, up to its NUL. */
    ghost function Closed(h: seq<Byte>): seq<Byte>
      reads this
    {
      [SOH] + h + [Check(Sum(h))] + if peer.eol == 0 then [] else [peer.eol]
    }

    /** Put the check, the end character and a NUL behind header and data. */
    method Seal(length: nat, ghost h: seq<Byte>)
      requires Valid() && 3 <= length <= 16 && |h| == length && Printable(h)
      requires frame[0] == SOH && frame[1..length + 1] == h
      modifies frame
      ensures var len := |Closed(h)|;
              len < FRAME_SIZE && frame[..len] == Closed(h) && frame[len] == 0
    {
      assert forall i | 1 <= i <= length :: frame[i] == h[i - 1];
      frame[length + 1] := 0;
      assert frame[1..length + 1] == h;
      var check := Chk1(frame, 1, length + 1);
      frame[length + 1] := ToChar(check);
      frame[length + 2] := peer.eol;
      frame[length + 3] := 0;
    }

    lemma ClosedHasNoNul(h: seq<Byte>)
      requires Printable(h)
      ensures forall i | 0 <= i < |Closed(h)| :: Closed(h)[i] != 0
    {
    }

    /** Close the frame whose header and data end at `length`, and send it. */
    method CloseFrame(length: nat, ghost kind: Byte, ghost data: seq<Byte>)
      requires Valid() && !IsControl(kind) && !IsControl(ToChar(n)) && |data| <= 13 && length == 3 + |data|
      requires Printable(data) && frame[0] == SOH && frame[1..length + 1] == Header(n, kind, |data|) + data
      modifies this`sent, frame
      ensures sent == old(sent) + Reply(peer, n, kind, data)
    {
      ghost var h := Header(n, kind, |data|) + data;
      Seal(length, h);
      ClosedHasNoNul(h);
      assert forall i | 0 <= i < |Closed(h)| :: frame[i] == Closed(h)[i];
      SendPacket(|Closed(h)|);
    }

    /** send_ack and send_nack. */
    method SendSimple(kind: Byte)
      requires Valid() && !IsControl(kind) && !IsControl(ToChar(n))
      modifies this`sent, frame
      ensures sent == old(sent) + Reply(peer, n, kind, [])
    {
      frame[0] := SOH;
      frame[1] := ToChar(3);
      frame[2] := ToChar(n);
      frame[3] := kind;
      assert frame[1..4] == Header(n, kind, 0) + [];
      CloseFrame(3, kind, []);
    }

    method Put(length: nat, v: Byte) returns (length': nat)
      requires Valid() && 3 <= length < FRAME_SIZE - 1
      modifies frame
      ensures length' == length + 1 && frame[4..length' + 1] == old(frame[4..length + 1]) + [v]
    {
      length' := length + 1;
      frame[length'] := v;
    }

    /** Our parameter number `i`, if the sender sent that many. */
    method PutParm(bytes: nat, i: nat, length: nat, v: Byte) returns (length': nat)
      requires Valid() && i < 9 && v == OFFER[i] && length == 3 + (if bytes < i then bytes else i)
      requires frame[4..length + 1] == OFFER[..length - 3]
      modifies frame
      ensures length' == 3 + if bytes < i + 1 then bytes else i + 1
      ensures frame[4..length' + 1] == OFFER[..length' - 3]
    {
      length' := length;
      if bytes > i {
        length' := Put(length, v);
      }
    }

    ghost predicate ParmsHold(data: seq<Byte>)
      requires parms.Length == SEND_DATA_SIZE
      reads this, parms
    {
      && sendPtr == (if |data| < 19 then |data| else 19)
      && forall i | 0 <= i < sendPtr :: parms[i] == data[i]
    }

    /** handle_send_packet: take the sender's parameters and answer with ours. */
    method HandleSendPacket(ghost data: seq<Byte>)
      requires Valid() && ParmsHold(data) && !IsControl(ToChar(n))
      modifies this`sent, this`peer, this`sendPtr, frame
      ensures Valid() && peer == PeerOf(data)
      ensures sent == old(sent) + Reply(peer, n, TYPE_Y, ReplyParms(ParmCount(data)))
    {
      var bytes := TakeParms(data);
      var length := Offer(bytes);
      ghost var reply := ReplyParms(bytes);
      ReplyParmsPrintable(bytes);
      frame[0] := SOH;
      frame[1] := ToChar(length);
      frame[2] := ToChar(n);
      frame[3] := TYPE_Y;
      assert frame[4..length + 1] == reply;
      assert frame[1..length + 1] == Header(n, TYPE_Y, |reply|) + reply;
      CloseFrame(length, TYPE_Y, reply);
    }

    /** Remember what the sender asked for; returns how many parameters count. */
    method TakeParms(ghost data: seq<Byte>) returns (bytes: nat)
      requires Valid() && ParmsHold(data)
      modifies this`peer, this`sendPtr
      ensures Valid() && peer == PeerOf(data) && bytes == ParmCount(data)
    {
      peer := DEFAULT_PEER;
      if sendPtr == SEND_DATA_SIZE - 1 { sendPtr := sendPtr - 1; }
      bytes := sendPtr;
      if bytes > 2 { peer := peer.(padCount := UnChar(parms[2])); }
      if bytes > 3 { peer := peer.(padChar := KTrans(parms[3])); }
      if bytes > 4 { peer := peer.(eol := UnChar(parms[4])); }
      if bytes > 5 { peer := peer.(quote := parms[5]); }
    }

    /** Our own parameters, one for each of the `bytes` received, from frame[4] on. */
    method Offer(bytes: nat) returns (length: nat)
      requires Valid()
      modifies frame
      ensures length == 3 + |ReplyParms(bytes)| <= 16 && frame[4..length + 1] == ReplyParms(bytes)
    {
      length := PutParm(bytes, 0, 3, ToChar(94));
      length := PutParm(bytes, 1, length, ToChar(1));
      length := PutParm(bytes, 2, length, ToChar(0));
      length := PutParm(bytes, 3, length, 0x40);
      length := PutParm(bytes, 4, length, ToChar(CR));
      length := PutParm(bytes, 5, length, 35);
      length := PutParm(bytes, 6, length, 78);
      length := PutParm(bytes, 7, length, 49);
      length := PutParm(bytes, 8, length, 78);
      if bytes > 9 {
        assert OFFER[..9] == OFFER;
        length := OfferLong();
      }
    }

    /** Long packets, and no windows. */
    method OfferLong() returns (length: nat)
      requires Valid() && frame[4..13] == OFFER
      modifies frame
      ensures length == 16 && frame[4..17] == OFFER + OFFER_LONG
    {
      length := Put(12, ToChar(2));
      length := Put(length, ToChar(0));
      length := Put(length, ToChar(94));
      length := Put(length, ToChar(94));
    }

    // --------------------------------------------------------------- data

    method DataRestore()
      requires Valid()
      modifies this`addr, this`escape
      ensures Valid() && View() == old(View()).(sink := old(View()).saved)
    {
      escape := escapeSaved;
      addr := addrSaved;
    }

    method DataSave()
      requires Valid()
      modifies this`addrSaved, this`escapeSaved
      ensures Valid() && View() == old(View()).(saved := old(View()).sink)
    {
      escapeSaved := escape;
      addrSaved := addr;
    }

    /** k_data_char and bin_data_char. */
    method DataChar(c: Byte)
      requires Valid() && addr < mem.Length
      modifies this`addr, this`escape, mem
      ensures Valid() && addr <= old(addr) + 1
      ensures View() == old(View()).(sink := FeedByte(peer.quote, old(Here()), c))
    {
      ghost var before, saved := mem[..addr], mem[..addrSaved];
      if escape {
        mem[addr] := KTrans(c);
        addr := addr + 1;
        escape := false;
        assert mem[..addr] == before + [KTrans(c)];
      } else if c == peer.quote {
        escape := true;
      } else {
        mem[addr] := c;
        addr := addr + 1;
        assert mem[..addr] == before + [c];
      }
      assert mem[..addrSaved] == saved;
    }

    method ParmChar(c: Byte, ghost data: seq<Byte>)
      requires Valid() && ParmsHold(data)
      modifies this`sendPtr, parms
      ensures Valid() && ParmsHold(data + [c])
    {
      parms[sendPtr] := c;
      sendPtr := sendPtr + 1;
      if sendPtr >= SEND_DATA_SIZE { sendPtr := sendPtr - 1; }
    }

    // ------------------------------------------------------------ packets

    /** Data, check and end character of a packet, storing as it goes. */
    method ReceiveBody(input: seq<Byte>, from: nat, kind: Byte, length: int, sum0: nat)
        returns (pos: nat, ending: Ending, ghost data: seq<Byte>)
      requires Valid() && from <= |input| && addr + (|input| - from) <= mem.Length && ParmsHold([])
      modifies this`addr, this`escape, this`sendPtr, mem, parms
      ensures Valid() && from <= pos <= |input| && addr + (|input| - pos) <= mem.Length
      ensures var r := ReadBody(n, kind, input[from..], length, sum0);
              if ending.Silence? then r.Quiet?
              else r == Got(Packet(n, kind, data, ending.Complete?), input[pos..])
      ensures View() == Store(old(View()), Packet(n, kind, data, ending.Complete?))
      ensures kind == TYPE_S ==> ParmsHold(data)
    {
      var stopped, left, sum;
      stopped, pos, left, sum, data := ReceiveData(input, from, kind, length, sum0);
      if stopped.Some? { return pos, stopped.value, data; }
      ghost var r := ReadBody(n, kind, input[pos..], left, sum);
      pos, ending := ReceiveCheck(input, pos, kind, left, sum);
      assert data + [] == data;
    }

    /** The data characters, up to the check; `stopped` says how they ended early. */
    method ReceiveData(input: seq<Byte>, from: nat, kind: Byte, length: int, sum0: nat)
        returns (stopped: Option<Ending>, pos: nat, left: int, sum: nat, ghost data: seq<Byte>)
      requires Valid() && from <= |input| && addr + (|input| - from) <= mem.Length && ParmsHold([])
      modifies this`addr, this`escape, this`sendPtr, mem, parms
      ensures Valid() && from <= pos <= |input| && addr + (|input| - pos) <= mem.Length
      ensures var r := ReadBody(n, kind, input[from..], length, sum0);
              match stopped
              case None => left <= 1 && r == PrependAll(data, ReadBody(n, kind, input[pos..], left, sum))
              case Some(ending) => !ending.Complete? && (if ending.Silence? then r.Quiet?
                                                         else r == Got(Packet(n, kind, data, false), input[pos..]))
      ensures View() == Store(old(View()), Packet(n, kind, data, false))
      ensures kind == TYPE_S ==> ParmsHold(data)
    {
      left, sum := length, sum0;
      pos, data := from, [];
      ghost var rest := input[from..];
      ghost var whole := ReadBody(n, kind, rest, length, sum0);
      ghost var before := View();
      while left > 1
        invariant from <= pos <= |input| && Valid() && addr + (|input| - pos) <= mem.Length
        invariant rest == input[pos..]
        invariant whole == PrependAll(data, ReadBody(n, kind, rest, left, sum))
        invariant View() == Store(before, Packet(n, kind, data, false))
        invariant kind == TYPE_S ==> ParmsHold(data)
        decreases |input| - pos
      {
        BodyStep(n, kind, data, rest, left, sum);
        if pos == |input| { return Some(Silence), pos, left, sum, data; }
        var c := input[pos];
        pos := pos + 1;
        assert rest[1..] == input[pos..] && rest[0] == c;
        if IsControl(c) { return Some(Damaged), pos, left, sum, data; }
        rest := rest[1..];
        sum := sum + c;
        left := left - 1;
        StoreChar(kind, c, before, data);
        data := data + [c];
      }
      stopped := None;
    }

    /** The rest of an extended-length packet: two length characters, a header check, the body. */
    method ReceiveLong(input: seq<Byte>, from: nat, kind: Byte, sum0: nat)
        returns (pos: nat, ending: Ending, ghost data: seq<Byte>)
      requires Valid() && from <= |input| && addr + (|input| - from) <= mem.Length && ParmsHold([])
      modifies this`addr, this`escape, this`sendPtr, mem, parms
      ensures Valid() && from <= pos <= |input| && addr + (|input| - pos) <= mem.Length
      ensures var r := ReadLong(n, kind, input[from..], sum0);
              if ending.Silence? then r.Quiet?
              else r == Got(Packet(n, kind, data, ending.Complete?), input[pos..])
      ensures View() == Store(old(View()), Packet(n, kind, data, ending.Complete?))
      ensures kind == TYPE_S ==> ParmsHold(data)
    {
      pos, data := from, [];
      ghost var s := input[from..];
      assert forall i | 0 <= i <= |s| :: s[i..] == input[from + i..];
      if pos == |input| { return pos, Silence, data; }
      var hi := input[pos];
      pos := pos + 1;
      if IsControl(hi) { return pos, Damaged, data; }
      if pos == |input| { return pos, Silence, data; }
      var lo := input[pos];
      pos := pos + 1;
      if IsControl(lo) { return pos, Damaged, data; }
      if pos == |input| { return pos, Silence, data; }
      var check := input[pos];
      pos := pos + 1;
      if IsControl(check) || check != Check(Sum3(sum0, hi, lo)) { return pos, Damaged, data; }
      pos, ending, data := ReceiveBody(input, pos, kind, Extended(hi, lo), Sum3(sum0, hi, lo) + check);
    }

    /** Begin packet number `num`: roll back a retry, checkpoint a new packet. */
    method BeginPacket(num: Byte)
      requires Valid()
      modifies this`n, this`lastN, this`addr, this`escape, this`addrSaved, this`escapeSaved
      ensures Valid() && addr <= old(addr) && View() == Begin(old(View()), num)
    {
      n := num;
      if n as int == lastN {
        DataRestore();
      } else {
        lastN := n as int;
        DataSave();
      }
    }

    /** A packet from the character after SOH. `numbered` tells whether its sequence number was read. */
    method ReceivePacket(input: seq<Byte>, from: nat)
        returns (pos: nat, ending: Ending, numbered: bool, kind: Byte, ghost data: seq<Byte>)
      requires Valid() && from <= |input| && addr + (|input| - from) <= mem.Length && ParmsHold([])
      modifies this`n, this`lastN, this`addr, this`escape, this`addrSaved, this`escapeSaved, this`sendPtr, mem, parms
      ensures Valid() && from <= pos <= |input| && addr + (|input| - pos) <= mem.Length
      ensures var r := ReadPacket(input[from..]);
              if ending.Silence? then r.Quiet?
              else if !numbered then r == BadHeader(input[pos..]) && ending.Damaged?
              else r == Got(Packet(n, kind, data, ending.Complete?), input[pos..])
      ensures !numbered ==> View() == old(View())
      ensures numbered ==> View() == Store(Begin(old(View()), n), Packet(n, kind, data, ending.Complete?))
                           && !IsControl(ToChar(n))
      ensures numbered && kind == TYPE_S ==> ParmsHold(data)
    {
      pos, numbered, kind, data := from, false, 0, [];
      ghost var s := input[from..];
      assert forall i | 0 <= i <= |s| :: s[i..] == input[from + i..];
      if pos == |input| { return pos, Silence, numbered, kind, data; }
      var len := input[pos];
      pos := pos + 1;
      if IsControl(len) { return pos, Damaged, numbered, kind, data; }
      if pos == |input| { return pos, Silence, numbered, kind, data; }
      var num := input[pos];
      pos := pos + 1;
      if IsControl(num) { return pos, Damaged, numbered, kind, data; }
      numbered := true;
      BeginPacket(UnChar(num));
      if pos == |input| { return pos, Silence, numbered, kind, data; }
      var c := input[pos];
      pos := pos + 1;
      if IsControl(c) { return pos, Damaged, numbered, kind, data; }
      kind := c;
      if UnChar(len) == 0 {
        pos, ending, data := ReceiveLong(input, pos, kind, Sum3(len, num, c));
      } else {
        pos, ending, data := ReceiveBody(input, pos, kind, UnChar(len) as int - 2, Sum3(len, num, c));
      }
    }

    /** packet_error: back to the checkpoint, and a negative acknowledge. */
    method PacketError()
      requires Valid() && !IsControl(ToChar(n))
      modifies this`addr, this`escape, this`sent, frame
      ensures Valid() && addr <= old(addr) && View() == Nack(old(View()))
    {
      DataRestore();
      SendSimple(TYPE_N);
    }

    /** Acknowledge a complete packet; true for the break that ends the transfer. */
    method Accept(kind: Byte, ghost data: seq<Byte>) returns (done: bool)
      requires Valid() && !IsControl(ToChar(n)) && (kind == TYPE_S ==> ParmsHold(data))
      modifies this`sent, this`peer, this`sendPtr, frame
      ensures Valid() && done == (kind == TYPE_B)
      ensures View() == Finish(old(View()), Packet(n, kind, data, true))
    {
      if kind == TYPE_S {
        HandleSendPacket(data);
        done := false;
      } else {
        SendSimple(TYPE_Y);
        done := kind == TYPE_B;
      }
    }

    /** k_recv on the characters `input`: the outcome, and the bytes stored when it is done. */
    method KRecv(input: seq<Byte>) returns (r: Outcome)
      requires Valid() && View() == START && |input| <= mem.Length
      modifies this, mem, parms, frame
      ensures r == Run(START, input).0
      ensures r.Done? ==> Valid() && View() == Run(START, input).1 && r.count == addr
    {
      var pos := 0;
      while true
        invariant pos <= |input| && Valid() && addr + (|input| - pos) <= mem.Length && !IsControl(ToChar(n))
        invariant Run(START, input) == Run(View(), input[pos..])
        decreases |input| - pos
      {
        if pos == |input| { return Blocked; }
        var c := input[pos];
        pos := pos + 1;
        ghost var s := input[pos - 1..];
        assert s[0] == c && s[1..] == input[pos..];
        if c == ETX { return Aborted; }
        if c == SOH {
          var stop;
          pos, stop := TakePacket(input, pos, s);
          if stop.Some? { return stop.value; }
        }
      }
    }

    /** One packet, from the character after its SOH on: read, stored and answered. */
    method TakePacket(input: seq<Byte>, from: nat, ghost s: seq<Byte>) returns (pos: nat, stop: Option<Outcome>)
      requires Valid() && from <= |input| && addr + (|input| - from) <= mem.Length && !IsControl(ToChar(n))
      requires s != [] && s[0] == SOH && s[1..] == input[from..]
      modifies this, mem, parms, frame
      ensures Valid()
      ensures stop.None? ==> from <= pos <= |input| && addr + (|input| - pos) <= mem.Length && !IsControl(ToChar(n))
      ensures stop.None? ==> Run(old(View()), s) == Run(View(), input[pos..])
      ensures stop.Some? ==> stop.value == Run(old(View()), s).0
      ensures stop.Some? && stop.value.Done? ==> View() == Run(old(View()), s).1 && stop.value.count == addr
    {
      sendPtr := 0;
      stop := None;
      var ending, numbered, kind;
      ghost var data;
      pos, ending, numbered, kind, data := ReceivePacket(input, from);
      if ending.Silence? { return pos, Some(Blocked); }
      if ending.Damaged? {
        PacketError();
      } else {
        var done := Accept(kind, data);
        if done { return pos, Some(Done(addr)); }
      }
    }

    /** load_serial_bin: what the user gets. A file sent as the protocol prescribes, over a line that damages
        and repeats packets, is in memory, complete and once, and its size is reported. */
    method LoadSerialBin(input: seq<Byte>, ghost ds: seq<Delivery>, ghost file: seq<Byte>) returns (size: nat)
      requires Valid() && View() == START && |input| <= mem.Length
      requires Transfer(START.lastN, ds) && input == Line(START.lastN, ds) && |ds| > 1 && ds[0].packet.kind == TYPE_S
      requires LegalQuote(PeerOf(ds[0].packet.data).quote)
      requires Carries(ds[1..], PeerOf(ds[0].packet.data).quote, Quote(PeerOf(ds[0].packet.data).quote, file))
      modifies this, mem, parms, frame
      ensures size == |file| <= mem.Length && mem[..size] == file
    {
      FileArrives(ds, file);
      var r := KRecv(input);
      size := r.count;
    }

    /** Pass on one character of a data or send-init packet. */
    method StoreChar(kind: Byte, c: Byte, ghost before: State, ghost data: seq<Byte>)
      requires Valid() && addr < mem.Length && (kind == TYPE_S ==> ParmsHold(data))
      requires View() == Store(before, Packet(n, kind, data, false))
      modifies this`addr, this`escape, this`sendPtr, mem, parms
      ensures Valid() && addr <= old(addr) + 1 && (kind == TYPE_S ==> ParmsHold(data + [c]))
      ensures View() == Store(before, Packet(n, kind, data + [c], false))
    {
      if kind == TYPE_D {
        assert (data + [c])[..|data|] == data;
        DataChar(c);
      } else if kind == TYPE_S {
        ParmChar(c, data);
      }
    }

    /** The block check and the end character. */
    method ReceiveCheck(input: seq<Byte>, from: nat, kind: Byte, ghost left: int, sum: nat)
        returns (pos: nat, ending: Ending)
      requires from <= |input| && left <= 1
      ensures from <= pos <= |input|
      ensures var r := ReadBody(n, kind, input[from..], left, sum);
              if ending.Silence? then r.Quiet?
              else r == Got(Packet(n, kind, [], ending.Complete?), input[pos..])
    {
      pos := from;
      if pos == |input| { return pos, Silence; }
      var c := input[pos];
      pos := pos + 1;
      assert input[from..][1..] == input[pos..];
      if IsControl(c) || c != Check(sum) { return pos, Damaged; }
      if pos == |input| { return pos, Silence; }
      pos := pos + 1;
      assert input[from..][2..] == input[pos..];
      ending := if input[pos - 1] == CR then Complete else Damaged;
    }
  }

  ghost function PrependAll(data: seq<Byte>, r: Reading): Reading {
    if r.Got? then r.(packet := r.packet.(data := data + r.packet.data)) else r
  }

  /** One character of a packet's data. */
  lemma BodyStep(n: Byte, kind: Byte, data: seq<Byte>, rest: seq<Byte>, left: int, sum: nat)
    requires left > 1
    ensures rest == [] ==> ReadBody(n, kind, rest, left, sum) == Quiet
    ensures rest != [] && IsControl(rest[0]) ==>
              PrependAll(data, ReadBody(n, kind, rest, left, sum)) == Got(Packet(n, kind, data, false), rest[1..])
    ensures rest != [] && !IsControl(rest[0]) ==>
              PrependAll(data, ReadBody(n, kind, rest, left, sum))
              == PrependAll(data + [rest[0]], ReadBody(n, kind, rest[1..], left - 1, sum + rest[0]))
  {
    if rest != [] {
      PrependMore(data, rest[0], ReadBody(n, kind, rest[1..], left - 1, sum + rest[0]));
      assert data + [] == data;
    }
  }

  lemma PrependMore(data: seq<Byte>, c: Byte, r: Reading)
    ensures PrependAll(data + [c], r) == PrependAll(data, Prepend(c, r))
  {
  }
}
