/** What the parser accepts: every text gives a table of the kind that the round trip is about. */
module MtdAccepted {
  import opened Machine
  import opened MtdText
  import opened MtdParts
  import opened MtdRoundTrip
  import MtdTable

  lemma ValidatedTwice(id: MtdId, p: Part)
    requires ValidId(id) && p.offset < WORD && p.size < WORD && Validate(id, p).Some?
    ensures Validate(id, p).value.offset < WORD && Validate(id, p).value.size < WORD
    ensures Validate(id, Validate(id, p).value) == Validate(id, p)
  {
    ValidatedFits(id, p);
  }

  lemma ParsedName(s: string)
    requires PartParse(s).Some?
    ensures var p := PartParse(s).value.0; !p.autoName ==> p.name != "" && ')' !in p.name
  {
  }

  /** An accepted definition is one that can be in a table. */
  lemma ParsedPart(id: MtdId, s: string, offset: nat)
    requires ValidId(id) && offset < WORD && PartParse(s).Some?
    requires Validate(id, Placed(PartParse(s).value.0, offset)).Some?
    ensures TablePart(id, Validate(id, Placed(PartParse(s).value.0, offset)).value)
  {
    ParsedName(s);
    ValidatedTwice(id, Placed(PartParse(s).value.0, offset));
  }

  lemma {:induction false} ParsedParts(id: MtdId, s: string, offset: nat)
    requires ValidId(id) && offset < WORD && ParseParts(id, s, offset).Some?
    ensures TableParts(id, ParseParts(id, s, offset).value.0)
    decreases |s|
  {
    if Head(s) != ';' && Head(s) != '\0' {
      var (p, rest) := PartParse(s).value;
      ParsedPart(id, s, offset);
      ParsedParts(id, rest, EndOf(Validate(id, Placed(p, offset)).value));
    }
  }

  lemma {:induction false} SortAddTable(id: MtdId, ps: seq<Part>, p: Part)
    requires TableParts(id, ps) && TablePart(id, p) && SortAdd(ps, p).Some?
    ensures TableParts(id, SortAdd(ps, p).value)
  {
    if ps != [] && p.offset > ps[0].offset {
      SortAddTable(id, ps[1..], p);
    }
  }

  lemma {:induction false} AddAllTable(id: MtdId, ps: seq<Part>, more: seq<Part>)
    requires TableParts(id, ps) && TableParts(id, more) && AddAll(ps, more).Some?
    ensures TableParts(id, AddAll(ps, more).value) && |AddAll(ps, more).value| == |ps| + |more|
    decreases |more|
  {
    if more != [] {
      SortAddTable(id, ps, more[0]);
      AddAllTable(id, SortAdd(ps, more[0]).value, more[1..]);
    }
  }

  /** Names are C strings. */
  ghost predicate NamedIds(ids: seq<MtdId>) {
    ValidIds(ids) && forall i | 0 <= i < |ids| :: '\0' !in ids[i].name
  }

  /** All that PlainDevice asks for, but for the order of the partitions. */
  ghost predicate AcceptedDevice(ids: seq<MtdId>, d: Device) {
    && ValidId(d.id) && ':' !in d.id.name && '\0' !in d.id.name && FindId(ids, d.id.name) == Some(d.id)
    && d.parts != [] && d.numParts == |d.parts| && TableParts(d.id, d.parts)
  }

  lemma ParsedDevice(ids: seq<MtdId>, devices: seq<Device>, s: string)
    requires NamedIds(ids) && DeviceParse(ids, devices, s).Some?
    ensures AcceptedDevice(ids, DeviceParse(ids, devices, s).value.0)
  {
    var c := Find(s, ':');
    var id, body := FindId(ids, s[..c]).value, s[c + 1..];
    ParsedParts(id, body, FirstOffset(devices, id));
    AddAllTable(id, [], ParseParts(id, body, FirstOffset(devices, id)).value.0);
  }

  ghost predicate AcceptedTable(ids: seq<MtdId>, ds: seq<Device>) {
    DistinctDevices(ds) && forall i | 0 <= i < |ds| :: AcceptedDevice(ids, ds[i])
  }

  lemma {:induction false} OneMoreAccepted(ids: seq<MtdId>, ds: seq<Device>, d: Device)
    requires AcceptedTable(ids, ds) && AcceptedDevice(ids, d) && DeviceFind(ds, d.id.kind, d.id.num) == None
    ensures AcceptedTable(ids, ds + [d])
  {
    forall i | 0 <= i < |ds| ensures ds[i].id.kind != d.id.kind || ds[i].id.num != d.id.num {
      MtdTable.DeviceIsNew(ds, d.id.kind, d.id.num, i);
    }
  }

  lemma {:induction false} ParsedDevices(ids: seq<MtdId>, devices: seq<Device>, s: string)
    requires NamedIds(ids) && AcceptedTable(ids, devices) && ParseDevices(ids, devices, s).Some?
    ensures AcceptedTable(ids, ParseDevices(ids, devices, s).value)
    ensures |ParseDevices(ids, devices, s).value| >= |devices| + if Head(s) == '\0' then 0 else 1
    decreases |s|
  {
    if Head(s) != '\0' {
      var (d, rest) := DeviceParse(ids, devices, s).value;
      ParsedDevice(ids, devices, s);
      OneMoreAccepted(ids, devices, d);
      ParsedDevices(ids, devices + [d], rest);
    }
  }

  /** Every accepted text whose devices list their partitions at rising offsets gives a plain table. */
  lemma AcceptedIsPlain(ids: seq<MtdId>, s: string)
    requires NamedIds(ids) && ParseMtdparts(ids, s).Some?
    requires forall i | 0 <= i < |ParseMtdparts(ids, s).value| :: Rising(ParseMtdparts(ids, s).value[i].parts)
    ensures PlainTable(ids, ParseMtdparts(ids, s).value) && ParseMtdparts(ids, s).value != []
  {
    ParsedDevices(ids, [], s[|PREFIX|..]);
  }

  /** So printing what was parsed and parsing it again gives it back exactly when it is legible. */
  lemma AcceptedRoundTrip(ids: seq<MtdId>, s: string)
    requires NamedIds(ids) && ParseMtdparts(ids, s).Some?
    requires forall i | 0 <= i < |ParseMtdparts(ids, s).value| :: Rising(ParseMtdparts(ids, s).value[i].parts)
    ensures var ds := ParseMtdparts(ids, s).value;
            Rebuilds(ids, ds) <==> forall i | 0 <= i < |ds| :: Legible(ds[i].parts)
  {
    AcceptedIsPlain(ids, s);
    RoundTripExactly(ids, ParseMtdparts(ids, s).value);
  }
}
