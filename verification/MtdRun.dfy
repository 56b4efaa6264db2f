/** The partition parser and printer as they run: cursors over the text, lists built in place. */
module MtdRun {
  import opened Machine
  import opened MtdText
  import opened MtdParts
  import opened MtdRoundTrip
  import opened MtdTable
  import Flash

  // ------------------------------------------------------------- validation

  method ValidateNor(b: Flash.Bank, offset: nat, size: nat) returns (ok: bool, sectorSize: nat)
    requires Flash.WellFormed(b)
    ensures ok <==> Aligned(Sectors(b), offset, size)
    ensures ok ==> sectorSize == SectorSize(Sectors(b))
  {
    sectorSize := b.size - (b.start[|b.start| - 1] - b.start[0]);
    var aligned := false;
    for i := 0 to |b.start|
      invariant aligned <==> exists j | 0 <= j < i :: b.start[j] == b.start[0] + offset
    {
      if b.start[i] == b.start[0] + offset { aligned := true; }
    }
    if !aligned { return false, sectorSize; }
    aligned, sectorSize := ScanSectors(b, offset + size, sectorSize);
    ok := aligned || b.size == offset + size;
  }

  /** Does a sector start at `end`, and how large is the largest sector? */
  method ScanSectors(b: Flash.Bank, end: nat, last: nat) returns (aligned: bool, sectorSize: nat)
    requires Flash.WellFormed(b) && last == LargestSector(b, 1)
    ensures aligned <==> StartsSector(b, end)
    ensures sectorSize == SectorSize(Sectors(b))
  {
    aligned, sectorSize := false, last;
    for i := 0 to |b.start|
      invariant aligned <==> exists j | 0 <= j < i :: b.start[j] == b.start[0] + end
      invariant sectorSize == LargestSector(b, if i == 0 then 1 else i)
    {
      if i > 0 {
        var s := b.start[i] - b.start[i - 1];
        if sectorSize < s { sectorSize := s; }
      }
      if b.start[i] == b.start[0] + end { aligned := true; }
    }
  }

  method PartValidate(id: MtdId, p: Part) returns (r: Option<Part>)
    requires ValidId(id) && p.offset < WORD
    ensures r == Validate(id, p)
  {
    var q := p;
    if q.size == SIZE_REMAINING { q := q.(size := Sub32(id.size, q.offset)); }
    if q.offset > id.size { return None; }
    if Add32(q.offset, q.size) <= q.offset { return None; }
    if Add32(q.offset, q.size) > id.size { return None; }
    match id.geometry {
      case Blocks(e) =>
        q := q.(sectorSize := e);
        if q.offset % e != 0 { return None; }
        if q.size % e != 0 { return None; }
        return Some(q);
      case Sectors(b) =>
        var ok, sectorSize := ValidateNor(b, q.offset, q.size);
        if ok { return Some(q.(sectorSize := sectorSize)); }
        return None;
    }
  }

  // ---------------------------------------------------------------- parsing

  /** strchr, as an index; the length of the string when there is none. */
  method IndexOf(s: string, from: nat, c: char) returns (i: nat)
    requires from <= |s|
    ensures from <= i <= |s| && i - from == Find(s[from..], c)
  {
    i := from;
    while i < |s| && s[i] != c
      invariant from <= i <= |s| && i - from + Find(s[i..], c) == Find(s[from..], c)
    {
      assert s[i..][1..] == s[i + 1..];
      i := i + 1;
    }
  }

  /** part_parse; `end` is where the text goes on. */
  method ParsePart(s: string, from: nat) returns (part: Option<Part>, end: nat)
    requires from <= |s|
    ensures from <= end <= |s|
    ensures PartParse(s[from..]) == if part.Some? then Some((part.value, s[end..])) else None
  {
    end := from;
    var size := SIZE_REMAINING;
    if At(s, end) == '-' {
      end := end + 1;
      assert s[from..][1..] == s[end..];
    } else {
      size, end := ParseMemsize(s, end);
      if size < MIN_PART_SIZE { return None, end; }
    }
    assert PartSize(s[from..]) == Some((size, s[end..]));
    part, end := ParsePartTail(s, end, size);
  }

  /** The offset, name, flag and separator of a definition. */
  method ParsePartTail(s: string, from: nat, size: nat) returns (part: Option<Part>, end: nat)
    requires from <= |s|
    ensures from <= end <= |s|
    ensures var (offset, s2) := PartOffset(s[from..]);
            match PartName(s2)
            case None => part == None
            case Some((name, s3)) =>
              var (ro, s4) := PartFlag(s3);
              match PartEnd(size, s4)
              case None => part == None
              case Some(rest) => part == Some(NewPart(size, offset, name, ro)) && rest == s[end..]
  {
    var offset, ok, name, ro;
    offset, end := ParseOffset(s, from);
    ok, name, end := ParseName(s, end);
    if !ok { return None, end; }
    ro, end := ParseFlag(s, end);
    ok, end := ParseEnd(s, end, size);
    if !ok { return None, end; }
    part := Some(NewPart(size, offset, name, ro));
  }

  method ParseOffset(s: string, from: nat) returns (offset: nat, end: nat)
    requires from <= |s|
    ensures from <= end <= |s| && (offset, s[end..]) == PartOffset(s[from..])
  {
    offset, end := OFFSET_NOT_SPECIFIED, from;
    if At(s, end) == '@' {
      assert s[from..][1..] == s[from + 1..];
      offset, end := ParseMemsize(s, end + 1);
    }
  }

  method ParseFlag(s: string, from: nat) returns (ro: bool, end: nat)
    requires from <= |s|
    ensures from <= end <= |s| && (ro, s[end..]) == PartFlag(s[from..])
  {
    ro, end := false, from;
    if At(s, end) == 'r' && At(s, end + 1) == 'o' {
      assert s[from..][..2] == "ro";
      assert s[from..][2..] == s[from + 2..];
      ro, end := true, end + 2;
    }
  }

  method ParseEnd(s: string, from: nat, size: nat) returns (ok: bool, end: nat)
    requires from <= |s|
    ensures from <= end <= |s|
    ensures PartEnd(size, s[from..]) == if ok then Some(s[end..]) else None
  {
    end := from;
    if At(s, end) == ',' {
      if size == SIZE_REMAINING { return false, end; }
      assert s[from..][1..] == s[from + 1..];
      return true, end + 1;
    }
    ok := At(s, end) == ';' || At(s, end) == '\0';
  }

  method ParseName(s: string, from: nat) returns (ok: bool, name: Option<string>, end: nat)
    requires from <= |s|
    ensures from <= end <= |s|
    ensures PartName(s[from..]) == if ok then Some((name, s[end..])) else None
  {
    end, name := from, None;
    if At(s, end) != '(' { return true, name, end; }
    assert s[from..][1..] == s[from + 1..];
    var close := IndexOf(s, from + 1, ')');
    if close == |s| || close == from + 1 { return false, name, end; }
    assert s[from + 1..][..close - (from + 1)] == s[from + 1..close];
    assert s[from..][close - from + 1..] == s[close + 1..];
    return true, Some(s[from + 1..close]), close + 1;
  }

  /** A result of working on the rest of a list, put after the part already done. */
  ghost function Onto(done: seq<Part>, r: Option<(seq<Part>, string)>): Option<(seq<Part>, string)> {
    if r.None? then None else Some((done + r.value.0, r.value.1))
  }

  lemma OntoNothing(r: Option<(seq<Part>, string)>)
    ensures Onto([], r) == r
  {
    if r.Some? { assert [] + r.value.0 == r.value.0; }
  }

  lemma OntoMore(done: seq<Part>, p: Part, r: Option<(seq<Part>, string)>)
    ensures Onto(done, Onto([p], r)) == Onto(done + [p], r)
  {
    if r.Some? { assert done + ([p] + r.value.0) == done + [p] + r.value.0; }
  }

  /** The partitions of a device: parse, place, validate, one after the other. */
  method ParsePartList(id: MtdId, s: string, from: nat, offset0: nat) returns (r: Option<seq<Part>>, end: nat)
    requires ValidId(id) && from <= |s| && offset0 < WORD
    ensures from <= end <= |s|
    ensures ParseParts(id, s[from..], offset0) == if r.Some? then Some((r.value, s[end..])) else None
  {
    var parts: seq<Part>, offset: nat := [], offset0;
    end := from;
    OntoNothing(ParseParts(id, s[from..], offset0));
    while At(s, end) != '\0' && At(s, end) != ';'
      invariant from <= end <= |s| && offset < WORD
      invariant ParseParts(id, s[from..], offset0) == Onto(parts, ParseParts(id, s[end..], offset))
      decreases |s| - end
    {
      assert Head(s[end..]) == At(s, end);
      var part, next := ParsePart(s, end);
      if part == None { return None, end; }
      var q := PartValidate(id, Placed(part.value, offset));
      if q == None { return None, end; }
      OntoMore(parts, q.value, ParseParts(id, s[next..], EndOf(q.value)));
      PartStep(id, s[end..], offset, part.value, s[next..], q.value);
      parts := parts + [q.value];
      offset := EndOf(q.value);
      end := next;
    }
    assert Head(s[end..]) == At(s, end);
    assert parts + [] == parts;
    return Some(parts), end;
  }

  lemma {:induction false} PartStep(id: MtdId, s: string, offset: nat, p: Part, rest: string, q: Part)
    requires ValidId(id) && offset < WORD && Head(s) != ';' && Head(s) != '\0'
    requires PartParse(s) == Some((p, rest)) && Validate(id, Placed(p, offset)) == Some(q)
    ensures ParseParts(id, s, offset) == Onto([q], ParseParts(id, rest, EndOf(q)))
    ensures |rest| < |s|
  {
  }

  /** Put the parsed partitions into a new device, sorted. */
  method SortAll(parts: seq<Part>) returns (r: Option<seq<Part>>)
    ensures r == AddAll([], parts)
  {
    var sorted: seq<Part> := [];
    assert parts[0..] == parts;
    for i := 0 to |parts|
      invariant AddAll([], parts) == AddAll(sorted, parts[i..])
    {
      assert parts[i..][0] == parts[i] && parts[i..][1..] == parts[i + 1..];
      var refused, k := FindPlace(sorted, parts[i]);
      if refused { return None; }
      sorted := sorted[..k] + [parts[i]] + sorted[k..];
    }
    r := Some(sorted);
  }

  /** device_parse: `t` is the text from the current position on. */
  method ParseDevice(ids: seq<MtdId>, devices: seq<Device>, t: string) returns (r: Option<(Device, string)>)
    requires ValidIds(ids)
    ensures r == DeviceParse(ids, devices, t)
  {
    assert t[0..] == t;
    var colon := IndexOf(t, 0, ':');
    if colon == |t| { return None; }
    var id := FindId(ids, t[..colon]);
    if id == None { return None; }
    r := ParseBody(id.value, devices, t[colon + 1..]);
  }

  method ParseBody(id: MtdId, devices: seq<Device>, t: string) returns (r: Option<(Device, string)>)
    requires ValidId(id)
    ensures r == DeviceBody(id, devices, t)
  {
    assert t[0..] == t;
    var parts, end := ParsePartList(id, t, 0, FirstOffset(devices, id));
    if parts == None { return None; }
    if parts.value == [] { return None; }
    var sorted := SortAll(parts.value);
    if sorted == None { return None; }
    var rest := t[end..];
    if Head(rest) == ';' {
      rest := rest[1..];
    }
    r := Some((Device(id, |sorted.value|, sorted.value), rest));
  }

  /** parse_mtdparts. */
  method ParseTable(ids: seq<MtdId>, s: string) returns (r: Option<seq<Device>>)
    requires ValidIds(ids)
    ensures r == ParseMtdparts(ids, s)
  {
    if !(PREFIX <= s) { return None; }
    var p := s[|PREFIX|..];
    if Head(p) == '\0' { return None; }
    var devices: seq<Device> := [];
    while Head(p) != '\0'
      invariant ParseMtdparts(ids, s) == ParseDevices(ids, devices, p)
      decreases |p|
    {
      var d := ParseDevice(ids, devices, p);
      if d == None { return None; }
      var (device, rest) := d.value;
      if DeviceFind(devices, device.id.kind, device.id.num) != None { return None; }
      DeviceThenMore(ids, devices, p, device, rest);
      devices := devices + [device];
      p := rest;
    }
    return Some(devices);
  }

  // --------------------------------------------------------------- printing

  /** What is printed so far and the characters that are left for more. */
  datatype Output = Output(text: string, room: nat)

  /** A piece of text is printed if there is room for all of it. */
  function Put(o: Output, piece: string): (r: Option<Output>)
    ensures r.Some? ==> r.value.room + |piece| == o.room
  {
    if |piece| > o.room then None else Some(Output(o.text + piece, o.room - |piece|))
  }

  /** `r` is `o` with all of `text` but its rest `t` printed, if that fits. */
  ghost predicate Printed(o: Output, text: string, t: string, r: Option<Output>)
    requires |t| <= |text|
  {
    if |text| > o.room + |t| then r == None
    else r.Some? && r.value.text + t == o.text + text && r.value.room + |text| == o.room + |t|
  }

  lemma PutPrints(o: Output, piece: string, t: string)
    ensures Printed(o, piece + t, t, Put(o, piece))
  {
    if |piece| <= o.room { assert (o.text + piece) + t == o.text + (piece + t); }
  }

  /** One partition definition. */
  method PrintPart(o: Output, expected: nat, p: Part, ghost t: string) returns (r: Option<Output>)
    ensures |t| <= |PartText(expected, p, t)| && Printed(o, PartText(expected, p, t), t, r)
  {
    ghost var f := FlagText(p, t);
    ghost var n := NameText(p, f);
    ghost var at := OffsetText(expected, p, n);
    r := Put(o, Memsize(p.size));
    PutPrints(o, Memsize(p.size), at);
    if r == None { return; }
    if p.offset != expected {
      PutPrints(r.value, "@" + Memsize(p.offset), n);
      r := Put(r.value, "@" + Memsize(p.offset));
    }
    assert Printed(o, PartText(expected, p, t), n, r);
    if r == None { return; }
    r := PrintNameAndFlag(r.value, p, t);
  }

  method PrintNameAndFlag(o: Output, p: Part, ghost t: string) returns (r: Option<Output>)
    ensures var n := NameText(p, FlagText(p, t)); |t| <= |n| && Printed(o, n, t, r)
  {
    ghost var f := FlagText(p, t);
    r := Some(o);
    if !p.autoName {
      PutPrints(o, "(" + p.name + ")", f);
      r := Put(o, "(" + p.name + ")");
    }
    assert Printed(o, NameText(p, f), f, r);
    if r == None { return; }
    if p.ro {
      PutPrints(r.value, "ro", t);
      r := Put(r.value, "ro");
    }
  }

  /** The partitions of one device. */
  method PrintParts(o: Output, d: Device, ghost t: string) returns (r: Option<Output>)
    requires d.numParts == |d.parts|
    ensures |t| <= |PartsText(0, d.parts, t)| && Printed(o, PartsText(0, d.parts, t), t, r)
  {
    r := Some(o);
    var partCnt, expected := 0, 0;
    ghost var whole := PartsText(0, d.parts, t);
    assert d.parts[0..] == d.parts;
    while partCnt < |d.parts|
      invariant partCnt <= |d.parts| && r.Some?
      invariant var left := PartsText(expected, d.parts[partCnt..], t); |left| <= |whole| && Printed(o, whole, left, r)
    {
      var part := d.parts[partCnt];
      ghost var rest := d.parts[partCnt..];
      assert rest[0] == part && rest[1..] == d.parts[partCnt + 1..];
      ghost var left := PartsText(EndOf(part), rest[1..], t);
      PartsTextEnds(EndOf(part), rest[1..], t);
      ghost var more := if |rest| == 1 then t else "," + left;
      r := PrintPart(r.value, expected, part, more);
      if r == None { return; }
      partCnt := partCnt + 1;
      if d.numParts > partCnt {
        PutPrints(r.value, ",", left);
        r := Put(r.value, ",");
        if r == None { return; }
      }
      expected := EndOf(part);
    }
  }

  lemma {:induction false} PartsTextEnds(expected: nat, parts: seq<Part>, t: string)
    ensures |t| <= |PartsText(expected, parts, t)|
    decreases |parts|
  {
    if |parts| > 1 { PartsTextEnds(EndOf(parts[0]), parts[1..], t); }
  }

  method PrintDevice(o: Output, d: Device, ghost t: string) returns (r: Option<Output>)
    requires d.numParts == |d.parts|
    ensures |t| <= |DeviceText(d, t)| && Printed(o, DeviceText(d, t), t, r)
  {
    PartsTextEnds(0, d.parts, t);
    HeadPrints(o, d.id.name, PartsText(0, d.parts, t));
    r := Put(o, d.id.name + ":");
    if r == None { return; }
    r := PrintParts(r.value, d, t);
  }

  lemma HeadPrints(o: Output, name: string, parts: string)
    ensures Printed(o, name + (":" + parts), parts, Put(o, name + ":"))
  {
    PutPrints(o, name + ":", parts);
    assert (name + ":") + parts == name + (":" + parts);
  }

  /** generate_mtdparts for a buffer of `buflen` characters: it fails exactly when the devices do not leave room
      for the NUL. The prefix is not counted. */
  method GenerateTable(ds: seq<Device>, buflen: nat) returns (r: Option<string>)
    requires buflen > 0 && forall i | 0 <= i < |ds| :: ds[i].numParts == |ds[i].parts|
    ensures r == if |DevicesText(ds)| < buflen then Some(Generate(ds)) else None
  {
    if |ds| == 0 { return Some(""); }
    var o := Output(PREFIX, buflen - 1);
    var i := 0;
    assert ds[0..] == ds;
    while i < |ds|
      invariant i <= |ds| && |DevicesText(ds[i..])| <= |DevicesText(ds)|
      invariant Printed(Output(PREFIX, buflen - 1), DevicesText(ds), DevicesText(ds[i..]), Some(o))
    {
      var d := ds[i];
      assert ds[i..][0] == d && ds[i..][1..] == ds[i + 1..];
      ghost var rest := DevicesText(ds[i + 1..]);
      ghost var more := if i + 1 == |ds| then "" else ";" + rest;
      var p := PrintDevice(o, d, more);
      if p == None { return None; }
      o := p.value;
      if i + 1 < |ds| {
        PutPrints(o, ";", rest);
        p := Put(o, ";");
        if p == None { return None; }
        o := p.value;
      }
      i := i + 1;
    }
    assert o.text + "" == o.text;
    return Some(o.text);
  }
}
