/** Partition tables: the grammar of the "mtdparts" variable, and its printer. */
module MtdParts {
  import opened Machine
  import opened MtdText
  import Flash

  const SIZE_REMAINING: nat := 0xFFFF_FFFF
  const OFFSET_NOT_SPECIFIED: nat := 0xFFFF_FFFF
  const MIN_PART_SIZE: nat := 4096

  datatype DevType = Nor | Nand | OneNand

  /** What the flash or NAND driver knows about the device. */
  datatype Geometry = Sectors(bank: Flash.Bank) | Blocks(eraseSize: nat)

  /** struct mtdids. */
  datatype MtdId = MtdId(kind: DevType, num: nat, size: nat, name: string, geometry: Geometry)

  /** struct part_info; `ro` stands for mask_flags. */
  datatype Part = Part(name: string, autoName: bool, size: nat, offset: nat, ro: bool, sectorSize: nat)

  /** struct mtd_device. */
  datatype Device = Device(id: MtdId, numParts: nat, parts: seq<Part>)

  function Add32(a: nat, b: nat): nat { Wrap(a + b) }

  function Sub32(a: nat, b: nat): nat
    requires b <= WORD
  {
    Wrap(a + (WORD - b))
  }

  function EndOf(p: Part): nat { Add32(p.offset, p.size) }

  // ------------------------------------------------------------- validation

  ghost predicate StartsSector(b: Flash.Bank, offset: nat) {
    exists i | 0 <= i < |b.start| :: b.start[i] == b.start[0] + offset
  }

  ghost predicate Aligned(g: Geometry, offset: nat, size: nat) {
    match g
    case Blocks(e) => e > 0 && offset % e == 0 && size % e == 0
    case Sectors(b) => StartsSector(b, offset) && (StartsSector(b, offset + size) || b.size == offset + size)
  }

  /** The largest of the first `n` sectors' sizes, and of the last one's. */
  function LargestSector(b: Flash.Bank, n: nat): nat
    requires Flash.WellFormed(b) && 0 < n <= |b.start|
  {
    if n == 1 then b.start[0] + b.size - b.start[|b.start| - 1]
    else
      var m, s := LargestSector(b, n - 1), b.start[n - 1] - b.start[n - 2];
      if m < s then s else m
  }

  function SectorSize(g: Geometry): nat
    requires g.Sectors? ==> Flash.WellFormed(g.bank)
  {
    match g
    case Blocks(e) => e
    case Sectors(b) => LargestSector(b, |b.start|)
  }

  predicate ValidId(id: MtdId) {
    && id.size < WORD
    && (id.kind == Nor <==> id.geometry.Sectors?)
    && (id.geometry.Blocks? ==> id.geometry.eraseSize > 0)
    && (id.geometry.Sectors? ==> Flash.WellFormed(id.geometry.bank) && id.geometry.bank.size == id.size)
  }

  function Resolved(id: MtdId, p: Part): Part
    requires p.offset < WORD
  {
    if p.size == SIZE_REMAINING then p.(size := Sub32(id.size, p.offset)) else p
  }

  ghost predicate Fits(id: MtdId, offset: nat, size: nat) {
    offset <= id.size && offset < Add32(offset, size) <= id.size && Aligned(id.geometry, offset, size)
  }

  /** part_validate: the partition with its size resolved and its sector size filled in. */
  ghost function Validate(id: MtdId, p: Part): Option<Part>
    requires ValidId(id) && p.offset < WORD
  {
    var q := Resolved(id, p);
    if Fits(id, q.offset, q.size) then Some(q.(sectorSize := SectorSize(id.geometry))) else None
  }

  /** An accepted partition lies inside the device, without wrapping. */
  lemma ValidatedFits(id: MtdId, p: Part)
    requires ValidId(id) && p.offset < WORD && p.size < WORD && Validate(id, p).Some?
    ensures var q := Validate(id, p).value;
            q.offset == p.offset && 0 < q.size && q.offset + q.size <= id.size && EndOf(q) == q.offset + q.size
  {
  }

  // ---------------------------------------------------------------- parsing

  /** Index of the first `c` in `s`, or the length of `s`. */
  function Find(s: string, c: char): (i: nat)
    ensures i <= |s| && c !in s[..i] && (i < |s| ==> s[i] == c)
  {
    if s == [] || s[0] == c then 0 else 1 + Find(s[1..], c)
  }

  function PartSize(s: string): (r: Option<(nat, string)>)
    ensures r.Some? ==> |r.value.1| < |s| && r.value.0 < WORD
  {
    if Head(s) == '-' then Some((SIZE_REMAINING, s[1..]))
    else
      var (n, rest) := MemsizeParse(s);
      if n < MIN_PART_SIZE then None else SizeConsumes(s); Some((n, rest))
  }

  lemma SizeConsumes(s: string)
    requires MemsizeParse(s).0 > 0
    ensures |MemsizeParse(s).1| < |s|
  {
  }

  function PartOffset(s: string): (r: (nat, string))
    ensures |r.1| <= |s| && r.0 < WORD
  {
    if Head(s) == '@' then MemsizeParse(s[1..]) else (OFFSET_NOT_SPECIFIED, s)
  }

  /** A name in parentheses, or nothing for a partition that gets a generated name. */
  function PartName(s: string): (r: Option<(Option<string>, string)>)
    ensures r.Some? ==> |r.value.1| <= |s|
  {
    if Head(s) != '(' then Some((None, s))
    else
      var i := Find(s[1..], ')');
      if i == |s[1..]| || i == 0 then None else Some((Some(s[1..][..i]), s[i + 2..]))
  }

  function PartFlag(s: string): (r: (bool, string))
    ensures |r.1| <= |s|
  {
    if "ro" <= s then (true, s[2..]) else (false, s)
  }

  function PartEnd(size: nat, s: string): (r: Option<string>)
    ensures r.Some? ==> |r.value| <= |s|
  {
    if Head(s) == ',' then (if size == SIZE_REMAINING then None else Some(s[1..]))
    else if Head(s) == ';' || Head(s) == '\0' then Some(s)
    else None
  }

  function Hex(n: nat, width: nat): string {
    if width == 0 then "" else Hex(n / 16, width - 1) + [HexDigit(n % 16, 'a')]
  }

  function GeneratedName(size: nat, offset: nat): string {
    "0x" + Hex(size, 8) + "@0x" + Hex(offset, 8)
  }

  function NewPart(size: nat, offset: nat, name: Option<string>, ro: bool): Part {
    if name.Some? then Part(name.value, false, size, offset, ro, 0)
    else Part(GeneratedName(size, offset), true, size, offset, ro, 0)
  }

  /** part_parse: one partition definition, and the text after it. */
  function PartParse(s: string): (r: Option<(Part, string)>)
    ensures r.Some? ==> |r.value.1| < |s| && r.value.0.size < WORD && r.value.0.offset < WORD
  {
    match PartSize(s)
    case None => None
    case Some((size, s1)) =>
      var (offset, s2) := PartOffset(s1);
      match PartName(s2)
      case None => None
      case Some((name, s3)) =>
        var (ro, s4) := PartFlag(s3);
        match PartEnd(size, s4)
        case None => None
        case Some(rest) => Some((NewPart(size, offset, name, ro), rest))
  }

  /** The offset a definition without one gets. */
  function Placed(p: Part, offset: nat): Part {
    if p.offset == OFFSET_NOT_SPECIFIED then p.(offset := offset) else p
  }

  /** The partitions of one device, in the order of their definitions. */
  ghost function ParseParts(id: MtdId, s: string, offset: nat): (r: Option<(seq<Part>, string)>)
    requires ValidId(id) && offset < WORD
    ensures r.Some? ==> |r.value.1| <= |s| && (Head(r.value.1) == ';' || Head(r.value.1) == '\0')
    decreases |s|
  {
    if Head(s) == ';' || Head(s) == '\0' then Some(([], s))
    else
      match PartParse(s)
      case None => None
      case Some((p, rest)) =>
        match Validate(id, Placed(p, offset))
        case None => None
        case Some(q) =>
          match ParseParts(id, rest, EndOf(q))
          case None => None
          case Some((ps, rest')) => Some(([q] + ps, rest'))
  }

  /** part_sort_add on a list: before the first partition that does not start earlier,
      and at most one partition at offset 0. */
  function SortAdd(parts: seq<Part>, p: Part): (r: Option<seq<Part>>)
    ensures r.Some? ==> |r.value| == |parts| + 1
  {
    if parts == [] then Some([p])
    else if p.offset == parts[0].offset == 0 then None
    else if p.offset <= parts[0].offset then Some([p] + parts)
    else
      match SortAdd(parts[1..], p)
      case None => None
      case Some(rest) => Some([parts[0]] + rest)
  }

  function AddAll(parts: seq<Part>, more: seq<Part>): Option<seq<Part>>
    decreases |more|
  {
    if more == [] then Some(parts)
    else
      match SortAdd(parts, more[0])
      case None => None
      case Some(ps) => AddAll(ps, more[1..])
  }

  /** id_find_by_mtd_id. */
  function FindId(ids: seq<MtdId>, name: string): (r: Option<MtdId>)
    ensures r.Some? ==> r.value in ids && r.value.name == name
  {
    if ids == [] then None
    else if ids[0].name == name then Some(ids[0])
    else FindId(ids[1..], name)
  }

  /** device_find. */
  function DeviceFind(devices: seq<Device>, kind: DevType, num: nat): (r: Option<Device>)
    ensures r.Some? ==> r.value in devices && r.value.id.kind == kind && r.value.id.num == num
  {
    if devices == [] then None
    else if devices[0].id.kind == kind && devices[0].id.num == num then Some(devices[0])
    else DeviceFind(devices[1..], kind, num)
  }

  ghost predicate ValidIds(ids: seq<MtdId>) {
    forall i | 0 <= i < |ids| :: ValidId(ids[i])
  }

  /** Where the first partition goes when its offset is not given. */
  function FirstOffset(devices: seq<Device>, id: MtdId): (r: nat)
    ensures r < WORD
  {
    match DeviceFind(devices, id.kind, id.num)
    case None => 0
    case Some(d) => if d.parts == [] then 0 else EndOf(d.parts[|d.parts| - 1])
  }

  /** The partition list of a device whose name has been read, and the text after it. */
  ghost function DeviceBody(id: MtdId, devices: seq<Device>, s: string): (r: Option<(Device, string)>)
    requires ValidId(id)
    ensures r.Some? ==> |r.value.1| <= |s|
  {
    match ParseParts(id, s, FirstOffset(devices, id))
    case None => None
    case Some((parts, rest)) =>
      if parts == [] || AddAll([], parts) == None then None
      else
        var sorted := AddAll([], parts).value;
        Some((Device(id, |sorted|, sorted), if Head(rest) == ';' then rest[1..] else rest))
  }

  /** device_parse: one device definition, and the text after it. */
  ghost function DeviceParse(ids: seq<MtdId>, devices: seq<Device>, s: string): (r: Option<(Device, string)>)
    requires ValidIds(ids)
    ensures r.Some? ==> |r.value.1| < |s|
  {
    var c := Find(s, ':');
    if c == |s| || FindId(ids, s[..c]) == None then None
    else DeviceBody(FindId(ids, s[..c]).value, devices, s[c + 1..])
  }

  ghost function ParseDevices(ids: seq<MtdId>, devices: seq<Device>, s: string): Option<seq<Device>>
    requires ValidIds(ids)
    decreases |s|
  {
    if Head(s) == '\0' then Some(devices)
    else
      match DeviceParse(ids, devices, s)
      case None => None
      case Some((d, rest)) =>
        if DeviceFind(devices, d.id.kind, d.id.num) != None then None
        else ParseDevices(ids, devices + [d], rest)
  }

  const PREFIX: string := "mtdparts="

  /** parse_mtdparts: the device list a variable describes, if it is well formed. */
  ghost function ParseMtdparts(ids: seq<MtdId>, s: string): Option<seq<Device>>
    requires ValidIds(ids)
  {
    if !(PREFIX <= s) || Head(s[|PREFIX|..]) == '\0' then None
    else ParseDevices(ids, [], s[|PREFIX|..])
  }

  // --------------------------------------------------------------- printing

  /** Each piece of a definition in front of the text `t`. */
  function FlagText(p: Part, t: string): string {
    if p.ro then "ro" + t else t
  }

  function NameText(p: Part, t: string): string {
    if p.autoName then t else "(" + (p.name + (")" + t))
  }

  /** The offset is printed only when it is not where the previous partition ended. */
  function OffsetText(expected: nat, p: Part, t: string): string {
    if p.offset == expected then t else "@" + (Memsize(p.offset) + t)
  }

  function PartText(expected: nat, p: Part, t: string): string {
    Memsize(p.size) + OffsetText(expected, p, NameText(p, FlagText(p, t)))
  }

  function PartsText(expected: nat, parts: seq<Part>, t: string): string
    decreases |parts|
  {
    if parts == [] then t
    else if |parts| == 1 then PartText(expected, parts[0], t)
    else PartText(expected, parts[0], "," + PartsText(EndOf(parts[0]), parts[1..], t))
  }

  function DeviceText(d: Device, t: string): string {
    d.id.name + (":" + PartsText(0, d.parts, t))
  }

  function DevicesText(ds: seq<Device>): string {
    if ds == [] then ""
    else if |ds| == 1 then DeviceText(ds[0], "")
    else DeviceText(ds[0], ";" + DevicesText(ds[1..]))
  }

  /** generate_mtdparts. */
  function Generate(ds: seq<Device>): string {
    if ds == [] then "" else PREFIX + DevicesText(ds)
  }
}
