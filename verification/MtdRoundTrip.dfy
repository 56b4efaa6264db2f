/** Printing a partition table and parsing the text rebuilds the table. */
module MtdRoundTrip {
  import opened Machine
  import opened MtdText
  import opened MtdParts

  /** A partition as the printer shows it: generated names are not printed. */
  function Shown(p: Part): Part {
    if p.autoName then p.(name := "") else p
  }

  function ShownAll(ps: seq<Part>): seq<Part> {
    seq(|ps|, i requires 0 <= i < |ps| => Shown(ps[i]))
  }

  /** Same device, and the same partitions up to generated names. */
  predicate SameDevice(a: Device, b: Device) {
    a.id == b.id && a.numParts == b.numParts && ShownAll(a.parts) == ShownAll(b.parts)
  }

  predicate SameDevices(a: seq<Device>, b: seq<Device>) {
    |a| == |b| && forall i | 0 <= i < |a| :: SameDevice(a[i], b[i])
  }

  /** A partition that can be in a table: accepted by part_validate, with a name that part_parse takes. What
      a '-' resolves to can be of any size. */
  ghost predicate TablePart(id: MtdId, p: Part) {
    && ValidId(id) && p.offset < WORD && p.size < WORD
    && Validate(id, p) == Some(p)
    && (!p.autoName ==> p.name != "" && ')' !in p.name)
  }

  ghost predicate TableParts(id: MtdId, ps: seq<Part>) {
    forall i | 0 <= i < |ps| :: TablePart(id, ps[i])
  }

  /** ... and one whose size part_parse takes as well. */
  ghost predicate GoodPart(id: MtdId, p: Part) {
    TablePart(id, p) && MIN_PART_SIZE <= p.size
  }

  ghost predicate GoodParts(id: MtdId, ps: seq<Part>) {
    forall i | 0 <= i < |ps| :: GoodPart(id, ps[i])
  }

  /** Text that may follow a partition definition. */
  predicate EndsPart(t: string) {
    Head(t) == ',' || Head(t) == ';' || Head(t) == '\0'
  }

  // ------------------------------------------------------------- one definition

  lemma MemsizeHead(n: nat, t: string)
    ensures |Memsize(n)| > 0 && IsDigit(Head(Memsize(n) + t))
  {
    if n % GB == 0 {
      NumberIsDigits(n / GB);
    } else if n % MB == 0 {
      NumberIsDigits(n / MB);
    } else if n % KB == 0 {
      NumberIsDigits(n / KB);
    } else {
      NumberIsDigits(n);
    }
  }

  lemma SizeRoundTrip(size: nat, t: string)
    requires MIN_PART_SIZE <= size < WORD && EndsNumber(t)
    ensures PartSize(Memsize(size) + t) == Some((size, t))
  {
    MemsizeHead(size, t);
    MemsizeRoundTrip(size, t);
  }

  lemma OffsetRoundTrip(expected: nat, p: Part, t: string)
    requires p.offset < WORD && EndsNumber(t) && Head(t) != '@'
    ensures PartOffset(OffsetText(expected, p, t))
         == (if p.offset == expected then OFFSET_NOT_SPECIFIED else p.offset, t)
  {
    if p.offset != expected {
      assert ("@" + (Memsize(p.offset) + t))[1..] == Memsize(p.offset) + t;
      MemsizeRoundTrip(p.offset, t);
    }
  }

  lemma {:induction false} FindIn(a: string, c: char, t: string)
    requires c !in a
    ensures Find(a + ([c] + t), c) == |a|
  {
    if a == [] {
      assert a + ([c] + t) == [c] + t;
    } else {
      assert (a + ([c] + t))[0] == a[0] && (a + ([c] + t))[1..] == a[1..] + ([c] + t);
      FindIn(a[1..], c, t);
    }
  }

  lemma NameRoundTrip(p: Part, t: string)
    requires (!p.autoName ==> p.name != "" && ')' !in p.name) && (p.autoName ==> Head(t) != '(')
    ensures PartName(NameText(p, t)) == Some((if p.autoName then None else Some(p.name), t))
  {
    if !p.autoName {
      var s := NameText(p, t);
      assert s[1..] == p.name + ([')'] + t);
      FindIn(p.name, ')', t);
      assert s[1..][..|p.name|] == p.name;
      assert s[|p.name| + 2..] == t;
    }
  }

  lemma FlagRoundTrip(p: Part, t: string)
    requires Head(t) != 'r'
    ensures PartFlag(FlagText(p, t)) == (p.ro, t)
  {
  }

  /** What part_parse makes of a printed definition. */
  function Reread(expected: nat, p: Part): Part {
    NewPart(p.size, if p.offset == expected then OFFSET_NOT_SPECIFIED else p.offset,
            if p.autoName then None else Some(p.name), p.ro)
  }

  lemma PieceHeads(expected: nat, p: Part, t: string)
    requires EndsPart(t)
    ensures var f := FlagText(p, t); Head(f) != '(' && EndsNumber(f) && Head(f) != '@'
    ensures var n := NameText(p, FlagText(p, t)); EndsNumber(n) && Head(n) != '@'
    ensures EndsNumber(OffsetText(expected, p, NameText(p, FlagText(p, t))))
  {
  }

  lemma PartRoundTrip(expected: nat, p: Part, t: string)
    requires MIN_PART_SIZE <= p.size < WORD && p.offset < WORD && EndsPart(t)
    requires !p.autoName ==> p.name != "" && ')' !in p.name
    requires Head(t) == ',' ==> p.size != SIZE_REMAINING
    ensures PartParse(PartText(expected, p, t)) == Some((Reread(expected, p), if Head(t) == ',' then t[1..] else t))
  {
    var f := FlagText(p, t);
    var n := NameText(p, f);
    var o := OffsetText(expected, p, n);
    PieceHeads(expected, p, t);
    SizeRoundTrip(p.size, o);
    OffsetRoundTrip(expected, p, n);
    NameRoundTrip(p, f);
    FlagRoundTrip(p, t);
  }

  /** Placing and validating it gives the partition back. */
  lemma RereadValidates(id: MtdId, expected: nat, p: Part)
    requires GoodPart(id, p) && expected < WORD
    ensures p.offset < OFFSET_NOT_SPECIFIED
    ensures Validate(id, Placed(Reread(expected, p), expected)).Some?
    ensures var q := Validate(id, Placed(Reread(expected, p), expected)).value;
            Shown(q) == Shown(p) && EndOf(q) == EndOf(p)
  {
  }

  // -------------------------------------------------------------- one device

  /** Only the last partition may have the size that stands for "the rest of the device". */
  ghost predicate Separable(ps: seq<Part>) {
    forall i | 0 <= i < |ps| - 1 :: ps[i].size != SIZE_REMAINING
  }

  /** The printed sizes are read back: none is too small, and none but the last one says "the rest". */
  ghost predicate Legible(ps: seq<Part>) {
    Separable(ps) && forall i | 0 <= i < |ps| :: ps[i].size >= MIN_PART_SIZE
  }

  /** One printed definition in front of more text that parses. */
  lemma PartThenMore(id: MtdId, expected: nat, p: Part, more: string, ps: seq<Part>, t: string) returns (q: Part)
    requires GoodPart(id, p) && expected < WORD && EndsPart(more)
    requires Head(more) == ',' ==> p.size != SIZE_REMAINING
    requires ParseParts(id, if Head(more) == ',' then more[1..] else more, EndOf(p)) == Some((ps, t))
    ensures ParseParts(id, PartText(expected, p, more), expected) == Some(([q] + ps, t)) && Shown(q) == Shown(p)
  {
    var r := Reread(expected, p);
    PartRoundTrip(expected, p, more);
    RereadValidates(id, expected, p);
    TextIsNotEnd(expected, p, more);
    q := Validate(id, Placed(r, expected)).value;
    OneMore(id, PartText(expected, p, more), expected, r, q, if Head(more) == ',' then more[1..] else more, ps, t);
  }

  lemma {:induction false} OneMore(id: MtdId, s: string, expected: nat, r: Part, q: Part, more: string, ps: seq<Part>, t: string)
    requires ValidId(id) && expected < WORD && Head(s) != ';' && Head(s) != '\0' && r.offset < WORD
    requires PartParse(s) == Some((r, more)) && Validate(id, Placed(r, expected)) == Some(q)
    requires ParseParts(id, more, EndOf(q)) == Some((ps, t))
    ensures ParseParts(id, s, expected) == Some(([q] + ps, t))
  {
  }

  lemma GoodPartsTail(id: MtdId, ps: seq<Part>)
    requires GoodParts(id, ps) && ps != []
    ensures GoodParts(id, ps[1..])
  {
  }

  lemma {:induction false} PartsRoundTrip(id: MtdId, expected: nat, ps: seq<Part>, t: string) returns (qs: seq<Part>)
    requires ValidId(id) && ps != [] && GoodParts(id, ps) && Separable(ps) && expected < WORD
    requires Head(t) == ';' || Head(t) == '\0'
    ensures ParseParts(id, PartsText(expected, ps, t), expected) == Some((qs, t))
    ensures ShownAll(qs) == ShownAll(ps)
    decreases |ps|
  {
    var p, tail := ps[0], ps[1..];
    assert GoodPart(id, p) && ps == [p] + tail;
    var q: Part;
    if |ps| == 1 {
      q := PartThenMore(id, expected, p, t, [], t);
      qs := [q];
      assert [q] + [] == [q];
    } else {
      GoodPartsTail(id, ps);
      assert Separable(tail);
      var rest := PartsRoundTrip(id, EndOf(p), tail, t);
      q := PartAndRest(id, expected, ps, t, rest);
      qs := [q] + rest;
    }
    ShownCons(q, qs[1..]);
    ShownCons(p, tail);
    assert qs == [q] + qs[1..];
  }

  lemma PartAndRest(id: MtdId, expected: nat, ps: seq<Part>, t: string, rest: seq<Part>) returns (q: Part)
    requires |ps| > 1 && GoodPart(id, ps[0]) && ps[0].size != SIZE_REMAINING && expected < WORD
    requires ParseParts(id, PartsText(EndOf(ps[0]), ps[1..], t), EndOf(ps[0])) == Some((rest, t))
    ensures ParseParts(id, PartsText(expected, ps, t), expected) == Some(([q] + rest, t)) && Shown(q) == Shown(ps[0])
  {
    var text := PartsText(EndOf(ps[0]), ps[1..], t);
    var more := "," + text;
    assert more[1..] == text;
    q := PartThenMore(id, expected, ps[0], more, rest, t);
  }

  lemma ShownCons(p: Part, ps: seq<Part>)
    ensures ShownAll([p] + ps) == [Shown(p)] + ShownAll(ps)
  {
  }

  lemma TextIsNotEnd(expected: nat, p: Part, t: string)
    ensures Head(PartText(expected, p, t)) != ';' && Head(PartText(expected, p, t)) != '\0'
  {
    MemsizeHead(p.size, OffsetText(expected, p, NameText(p, FlagText(p, t))));
  }

  /** Partitions by strictly rising offset. */
  predicate Rising(ps: seq<Part>) {
    forall i, j | 0 <= i < j < |ps| :: ps[i].offset < ps[j].offset
  }

  lemma {:induction false} SortAddAtEnd(ps: seq<Part>, p: Part)
    requires forall i | 0 <= i < |ps| :: ps[i].offset < p.offset
    ensures SortAdd(ps, p) == Some(ps + [p])
  {
    if ps == [] {
      assert ps + [p] == [p];
    } else {
      SortAddAtEnd(ps[1..], p);
      assert ps + [p] == [ps[0]] + (ps[1..] + [p]);
    }
  }

  lemma {:induction false} AddAllRising(ps: seq<Part>, more: seq<Part>)
    requires Rising(ps + more)
    ensures AddAll(ps, more) == Some(ps + more)
    decreases |more|
  {
    if more == [] {
      assert ps + more == ps;
    } else {
      forall i | 0 <= i < |ps| ensures ps[i].offset < more[0].offset {
        assert (ps + more)[i] == ps[i] && (ps + more)[|ps|] == more[0];
      }
      SortAddAtEnd(ps, more[0]);
      assert ps + [more[0]] + more[1..] == ps + more;
      AddAllRising(ps + [more[0]], more[1..]);
    }
  }

  /** A device of a table: known to mtdids, with accepted partitions in rising order. */
  ghost predicate PlainDevice(ids: seq<MtdId>, d: Device) {
    && ValidId(d.id) && ':' !in d.id.name && '\0' !in d.id.name && FindId(ids, d.id.name) == Some(d.id)
    && d.parts != [] && d.numParts == |d.parts|
    && TableParts(d.id, d.parts) && Rising(d.parts)
  }

  ghost predicate GoodDevice(ids: seq<MtdId>, d: Device) {
    PlainDevice(ids, d) && Legible(d.parts)
  }

  lemma ShownRising(ps: seq<Part>, qs: seq<Part>)
    requires ShownAll(ps) == ShownAll(qs) && Rising(ps)
    ensures |qs| == |ps| && Rising(qs)
  {
    assert |ShownAll(ps)| == |ShownAll(qs)|;
    forall i, j | 0 <= i < j < |qs| ensures qs[i].offset < qs[j].offset {
      assert ShownAll(ps)[i] == ShownAll(qs)[i] && ShownAll(ps)[j] == ShownAll(qs)[j];
    }
  }

  lemma {:induction false} DeviceHeader(d: Device, t: string)
    requires ':' !in d.id.name
    ensures var s := DeviceText(d, t);
            && Find(s, ':') == |d.id.name| < |s| && s[..|d.id.name|] == d.id.name
            && s[|d.id.name| + 1..] == PartsText(0, d.parts, t)
  {
    FindIn(d.id.name, ':', PartsText(0, d.parts, t));
  }

  lemma BodyRoundTrip(devices: seq<Device>, d: Device, t: string) returns (d': Device)
    requires ValidId(d.id) && d.parts != [] && d.numParts == |d.parts|
    requires GoodParts(d.id, d.parts) && Rising(d.parts) && Separable(d.parts)
    requires DeviceFind(devices, d.id.kind, d.id.num) == None
    requires Head(t) == ';' || Head(t) == '\0'
    ensures DeviceBody(d.id, devices, PartsText(0, d.parts, t)) == Some((d', if Head(t) == ';' then t[1..] else t))
    ensures SameDevice(d, d')
  {
    var qs := PartsRoundTrip(d.id, 0, d.parts, t);
    ShownRising(d.parts, qs);
    assert [] + qs == qs;
    AddAllRising([], qs);
    d' := Device(d.id, |qs|, qs);
  }

  lemma DeviceRoundTrip(ids: seq<MtdId>, devices: seq<Device>, d: Device, t: string) returns (d': Device)
    requires ValidIds(ids) && GoodDevice(ids, d) && DeviceFind(devices, d.id.kind, d.id.num) == None
    requires Head(t) == ';' || Head(t) == '\0'
    ensures DeviceParse(ids, devices, DeviceText(d, t)) == Some((d', if Head(t) == ';' then t[1..] else t))
    ensures SameDevice(d, d')
  {
    DeviceHeader(d, t);
    d' := BodyRoundTrip(devices, d, t);
  }

  // --------------------------------------------------------------- the table

  /** Devices that differ pairwise in type and number. */
  predicate DistinctDevices(ds: seq<Device>) {
    forall i, j | 0 <= i < j < |ds| :: ds[i].id.kind != ds[j].id.kind || ds[i].id.num != ds[j].id.num
  }

  ghost predicate GoodTable(ids: seq<MtdId>, ds: seq<Device>) {
    ValidIds(ids) && DistinctDevices(ds) && forall i | 0 <= i < |ds| :: GoodDevice(ids, ds[i])
  }

  lemma {:induction false} FindAppend(ds: seq<Device>, d: Device, kind: DevType, num: nat)
    requires DeviceFind(ds, kind, num) == None && (d.id.kind != kind || d.id.num != num)
    ensures DeviceFind(ds + [d], kind, num) == None
  {
    if ds != [] {
      assert (ds + [d])[0] == ds[0] && (ds + [d])[1..] == ds[1..] + [d];
      FindAppend(ds[1..], d, kind, num);
    }
  }

  /** None of the devices `ds` is among `parsed`. */
  ghost predicate AllNew(parsed: seq<Device>, ds: seq<Device>) {
    forall i | 0 <= i < |ds| :: DeviceFind(parsed, ds[i].id.kind, ds[i].id.num) == None
  }

  lemma StillNew(parsed: seq<Device>, ds: seq<Device>, d': Device)
    requires ds != [] && DistinctDevices(ds) && AllNew(parsed, ds) && d'.id == ds[0].id
    ensures AllNew(parsed + [d'], ds[1..])
  {
    forall i | 0 <= i < |ds[1..]|
      ensures DeviceFind(parsed + [d'], ds[1..][i].id.kind, ds[1..][i].id.num) == None
    {
      FindAppend(parsed, d', ds[i + 1].id.kind, ds[i + 1].id.num);
    }
  }

  lemma GoodTail(ids: seq<MtdId>, ds: seq<Device>)
    requires GoodTable(ids, ds) && ds != []
    ensures GoodTable(ids, ds[1..])
  {
  }

  lemma SameCons(ds: seq<Device>, d': Device, tail: seq<Device>)
    requires ds != [] && SameDevice(ds[0], d') && SameDevices(ds[1..], tail)
    ensures SameDevices(ds, [d'] + tail)
  {
  }

  /** The first device of a printed table is parsed, and the rest is still to come. */
  lemma FirstDevice(ids: seq<MtdId>, parsed: seq<Device>, ds: seq<Device>) returns (d': Device)
    requires ValidIds(ids) && ds != [] && GoodDevice(ids, ds[0])
    requires DeviceFind(parsed, ds[0].id.kind, ds[0].id.num) == None
    ensures SameDevice(ds[0], d') && d'.id == ds[0].id
    ensures ParseDevices(ids, parsed, DevicesText(ds)) == ParseDevices(ids, parsed + [d'], DevicesText(ds[1..]))
  {
    var d, rest := ds[0], DevicesText(ds[1..]);
    var more := if |ds| == 1 then "" else ";" + rest;
    d' := DeviceRoundTrip(ids, parsed, d, more);
    DeviceTextIsNotEmpty(d, more);
    assert |ds| > 1 ==> more[1..] == rest;
    DeviceThenMore(ids, parsed, DeviceText(d, more), d', rest);
  }

  lemma {:induction false} DevicesRoundTrip(ids: seq<MtdId>, parsed: seq<Device>, ds: seq<Device>)
      returns (ds': seq<Device>)
    requires GoodTable(ids, ds) && AllNew(parsed, ds)
    ensures ParseDevices(ids, parsed, DevicesText(ds)) == Some(parsed + ds') && SameDevices(ds, ds')
    decreases |ds|
  {
    if ds == [] {
      ds' := [];
      assert parsed + [] == parsed;
    } else {
      var d' := FirstDevice(ids, parsed, ds);
      StillNew(parsed, ds, d');
      GoodTail(ids, ds);
      var tail := DevicesRoundTrip(ids, parsed + [d'], ds[1..]);
      SameCons(ds, d', tail);
      ds' := [d'] + tail;
      assert parsed + [d'] + tail == parsed + ds';
    }
  }

  lemma {:induction false} DeviceThenMore(ids: seq<MtdId>, parsed: seq<Device>, s: string, d: Device, rest: string)
    requires ValidIds(ids) && Head(s) != '\0' && DeviceParse(ids, parsed, s) == Some((d, rest))
    requires DeviceFind(parsed, d.id.kind, d.id.num) == None
    ensures ParseDevices(ids, parsed, s) == ParseDevices(ids, parsed + [d], rest)
  {
  }

  lemma DeviceTextIsNotEmpty(d: Device, t: string)
    requires '\0' !in d.id.name
    ensures Head(DeviceText(d, t)) != '\0'
  {
  }

  /** Parsing the printed table rebuilds the same devices, offsets, sizes, flags and user-supplied names. */
  lemma TableRoundTrip(ids: seq<MtdId>, ds: seq<Device>) returns (ds': seq<Device>)
    requires GoodTable(ids, ds) && ds != []
    ensures ParseMtdparts(ids, Generate(ds)) == Some(ds') && SameDevices(ds, ds')
  {
    var s := Generate(ds);
    assert s[|PREFIX|..] == DevicesText(ds);
    ds' := DevicesRoundTrip(ids, [], ds);
    assert [] + ds' == ds';
    DeviceTextIsNotEmpty(ds[0], if |ds| == 1 then "" else ";" + DevicesText(ds[1..]));
  }

  // ------------------------------------------------------ when it does not work

  ghost predicate PlainTable(ids: seq<MtdId>, ds: seq<Device>) {
    ValidIds(ids) && DistinctDevices(ds) && forall i | 0 <= i < |ds| :: PlainDevice(ids, ds[i])
  }

  /** A definition that says "the rest of the device" may not be followed by another. */
  lemma FillUpNotLast(expected: nat, p: Part, t: string)
    requires p.size == SIZE_REMAINING && p.offset < WORD && Head(t) == ','
    requires !p.autoName ==> p.name != "" && ')' !in p.name
    ensures PartParse(PartText(expected, p, t)) == None
  {
    var f := FlagText(p, t);
    var n := NameText(p, f);
    PieceHeads(expected, p, t);
    SizeRoundTrip(p.size, OffsetText(expected, p, n));
    OffsetRoundTrip(expected, p, n);
    NameRoundTrip(p, f);
    FlagRoundTrip(p, t);
  }

  /** A size below the minimum is refused. */
  lemma TooSmall(expected: nat, p: Part, t: string)
    requires p.size < MIN_PART_SIZE && EndsPart(t)
    ensures PartParse(PartText(expected, p, t)) == None
  {
    PieceHeads(expected, p, t);
    var o := OffsetText(expected, p, NameText(p, FlagText(p, t)));
    MemsizeHead(p.size, o);
    MemsizeRoundTrip(p.size, o);
  }

  lemma {:induction false} PartsNotLegible(id: MtdId, expected: nat, ps: seq<Part>, t: string)
    requires ValidId(id) && TableParts(id, ps) && !Legible(ps) && expected < WORD && EndsPart(t)
    ensures ParseParts(id, PartsText(expected, ps, t), expected) == None
    decreases |ps|
  {
    var p := ps[0];
    assert TablePart(id, p);
    var more := if |ps| == 1 then t else "," + PartsText(EndOf(p), ps[1..], t);
    TextIsNotEnd(expected, p, more);
    if p.size < MIN_PART_SIZE {
      TooSmall(expected, p, more);
    } else if p.size == SIZE_REMAINING && |ps| > 1 {
      FillUpNotLast(expected, p, more);
    } else {
      RestNotLegible(id, ps);
      PartsNotLegible(id, EndOf(p), ps[1..], t);
      PartThenNothing(id, expected, p, more);
    }
  }

  lemma RestNotLegible(id: MtdId, ps: seq<Part>)
    requires TableParts(id, ps) && !Legible(ps) && ps != [] && ps[0].size >= MIN_PART_SIZE
    requires |ps| > 1 ==> ps[0].size != SIZE_REMAINING
    ensures |ps| > 1 && TableParts(id, ps[1..]) && !Legible(ps[1..])
  {
    var rest := ps[1..];
    assert forall i | 0 < i < |ps| :: ps[i] == rest[i - 1];
  }

  /** A definition in front of text that does not parse. */
  lemma {:induction false} PartThenNothing(id: MtdId, expected: nat, p: Part, more: string)
    requires GoodPart(id, p) && expected < WORD && Head(more) == ',' && p.size != SIZE_REMAINING
    requires ParseParts(id, more[1..], EndOf(p)) == None
    ensures ParseParts(id, PartText(expected, p, more), expected) == None
  {
    PartRoundTrip(expected, p, more);
    RereadValidates(id, expected, p);
    TextIsNotEnd(expected, p, more);
  }

  lemma {:induction false} DeviceNotLegible(ids: seq<MtdId>, parsed: seq<Device>, d: Device, t: string)
    requires ValidIds(ids) && PlainDevice(ids, d) && !Legible(d.parts) && EndsPart(t)
    requires DeviceFind(parsed, d.id.kind, d.id.num) == None
    ensures DeviceParse(ids, parsed, DeviceText(d, t)) == None
  {
    DeviceHeader(d, t);
    PartsNotLegible(d.id, 0, d.parts, t);
  }

  lemma PlainTail(ids: seq<MtdId>, ds: seq<Device>)
    requires PlainTable(ids, ds) && ds != []
    ensures PlainTable(ids, ds[1..])
  {
  }

  lemma {:induction false} FirstNotLegible(ids: seq<MtdId>, parsed: seq<Device>, ds: seq<Device>)
    requires ValidIds(ids) && ds != [] && PlainDevice(ids, ds[0]) && !Legible(ds[0].parts)
    requires DeviceFind(parsed, ds[0].id.kind, ds[0].id.num) == None
    ensures ParseDevices(ids, parsed, DevicesText(ds)) == None
  {
    var more := if |ds| == 1 then "" else ";" + DevicesText(ds[1..]);
    DeviceNotLegible(ids, parsed, ds[0], more);
    DeviceTextIsNotEmpty(ds[0], more);
  }

  /** A legible device is read, and the others are left. */
  lemma NextDevice(ids: seq<MtdId>, parsed: seq<Device>, ds: seq<Device>)
    returns (parsed': seq<Device>)
    requires PlainTable(ids, ds) && AllNew(parsed, ds) && ds != [] && Legible(ds[0].parts)
    ensures PlainTable(ids, ds[1..]) && AllNew(parsed', ds[1..])
    ensures ParseDevices(ids, parsed, DevicesText(ds)) == ParseDevices(ids, parsed', DevicesText(ds[1..]))
  {
    var d' := FirstDevice(ids, parsed, ds);
    parsed' := parsed + [d'];
    StillNew(parsed, ds, d');
    PlainTail(ids, ds);
  }

  lemma {:induction false} DevicesNotLegible(ids: seq<MtdId>, parsed: seq<Device>, ds: seq<Device>, k: nat)
    requires PlainTable(ids, ds) && AllNew(parsed, ds) && k < |ds| && !Legible(ds[k].parts)
    ensures ParseDevices(ids, parsed, DevicesText(ds)) == None
    decreases |ds|
  {
    if !Legible(ds[0].parts) {
      FirstNotLegible(ids, parsed, ds);
    } else {
      var parsed' := NextDevice(ids, parsed, ds);
      var rest := ds[1..];
      assert rest[k - 1] == ds[k];
      DevicesNotLegible(ids, parsed', rest, k - 1);
    }
  }

  ghost predicate Rebuilds(ids: seq<MtdId>, ds: seq<Device>)
    requires ValidIds(ids)
  {
    var r := ParseMtdparts(ids, Generate(ds));
    r.Some? && SameDevices(ds, r.value)
  }

  /** Printing and parsing rebuilds a table exactly when no partition is smaller than the parser takes (a '-'
      may have resolved to that), and none but the last one of its device has the size 0xFFFFFFFF, which the
      parser takes for "all remaining space". */
  lemma RoundTripExactly(ids: seq<MtdId>, ds: seq<Device>)
    requires PlainTable(ids, ds) && ds != []
    ensures Rebuilds(ids, ds) <==> forall i | 0 <= i < |ds| :: Legible(ds[i].parts)
  {
    if forall i | 0 <= i < |ds| :: Legible(ds[i].parts) {
      assert GoodTable(ids, ds);
      var ds' := TableRoundTrip(ids, ds);
    } else {
      var k :| 0 <= k < |ds| && !Legible(ds[k].parts);
      assert Generate(ds)[|PREFIX|..] == DevicesText(ds);
      DevicesNotLegible(ids, [], ds, k);
    }
  }

  // ------------------------------------------- definitions that say "the rest"

  /** A definition with '-' for its size. */
  function RestText(expected: nat, p: Part, t: string): string {
    "-" + OffsetText(expected, p, NameText(p, FlagText(p, t)))
  }

  lemma RestParses(expected: nat, p: Part)
    requires p.offset < WORD && (!p.autoName ==> p.name != "" && ')' !in p.name)
    ensures PartParse(RestText(expected, p, "")) == Some((Reread(expected, p.(size := SIZE_REMAINING)), ""))
  {
    var f := FlagText(p, "");
    var n := NameText(p, f);
    PieceHeads(expected, p, "");
    assert RestText(expected, p, "")[1..] == OffsetText(expected, p, n);
    OffsetRoundTrip(expected, p, n);
    NameRoundTrip(p, f);
    FlagRoundTrip(p, "");
  }

  /** It resolves to the partition that reaches to the end of the device. */
  lemma {:induction false} RestResolves(id: MtdId, expected: nat, p: Part)
    requires TablePart(id, p) && !p.autoName && expected < WORD && p.offset + p.size == id.size
    ensures ParseParts(id, RestText(expected, p, ""), expected) == Some(([p], ""))
  {
    RestParses(expected, p);
    RestValidates(id, expected, p);
    LastDefinition(id, RestText(expected, p, ""), expected, Reread(expected, p.(size := SIZE_REMAINING)), p);
  }

  lemma RestValidates(id: MtdId, expected: nat, p: Part)
    requires TablePart(id, p) && !p.autoName && expected < WORD && p.offset + p.size == id.size
    ensures var q := Placed(Reread(expected, p.(size := SIZE_REMAINING)), expected);
            q.offset == p.offset && Validate(id, q) == Some(p)
  {
  }

  lemma {:induction false} LastDefinition(id: MtdId, s: string, expected: nat, q: Part, p: Part)
    requires ValidId(id) && expected < WORD && Head(s) != ';' && Head(s) != '\0' && q.offset < WORD
    requires PartParse(s) == Some((q, "")) && Validate(id, Placed(q, expected)) == Some(p)
    ensures ParseParts(id, s, expected) == Some(([p], ""))
  {
    assert ParseParts(id, "", EndOf(p)) == Some(([], ""));
    assert [p] + [] == [p];
  }
}
